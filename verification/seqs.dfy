/** Facts about sequences that several parts need. */
module Sequences {

  lemma Regroup<T>(u: seq<T>, v: seq<T>, w: seq<T>)
    ensures (u + v) + w == u + (v + w)
  {
  }

  lemma SlicesJoin<T>(u: seq<T>, i: nat, j: nat, k: nat)
    requires i <= j <= k <= |u|
    ensures u[i..j] + u[j..k] == u[i..k]
  {
  }

  lemma SliceLeft<T>(u: seq<T>, v: seq<T>, i: nat, j: nat)
    requires i <= j <= |u|
    ensures (u + v)[i..j] == u[i..j]
  {
  }

  lemma SliceRight<T>(u: seq<T>, v: seq<T>, i: nat, j: nat)
    requires i <= j <= |v|
    ensures (u + v)[|u| + i..|u| + j] == v[i..j]
  {
  }

  lemma SliceOfPrefix<T>(u: seq<T>, k: nat, i: nat, j: nat)
    requires i <= j <= k <= |u|
    ensures u[i..j] == u[..k][i..j]
  {
  }

  lemma SliceOfSlice<T>(u: seq<T>, v: seq<T>, k: nat, m: nat)
    requires m <= k <= |u| && k <= |v| && u[..k] == v[..k]
    ensures u[..m] == v[..m]
  {
    assert u[..m] == u[..k][..m] && v[..m] == v[..k][..m];
  }
}
