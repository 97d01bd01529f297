/** Clearing full lines: what one top-to-bottom pass in place amounts to. */
module LineClear {
  import opened Sequences

  /** The lines after the pass: it goes down, and at a full line moves everything above it
      down by one.  The top line is never overwritten. */
  function Pass<L>(lines: seq<L>, full: seq<bool>): (r: seq<L>)
    requires |lines| == |full|
    ensures |r| == |lines|
    ensures lines != [] ==> r[0] == lines[0]
  {
    if full == [] then []
    else
      var m := |full| - 1;
      var above := Pass(lines[..m], full[..m]);
      if full[m] && m > 0 then [lines[0]] + above else above + [lines[m]]
  }

  /** Which old line ends up at each place. */
  function Sources(full: seq<bool>): (src: seq<nat>)
    ensures |src| == |full|
    ensures forall l :: 0 <= l < |src| ==> src[l] <= l
  {
    if full == [] then []
    else
      var m := |full| - 1;
      if full[m] && m > 0 then [0] + Sources(full[..m]) else Sources(full[..m]) + [m]
  }

  lemma {:induction false} PassAt<L>(lines: seq<L>, full: seq<bool>, l: nat)
    requires |lines| == |full| && l < |lines|
    ensures Pass(lines, full)[l] == lines[Sources(full)[l]]
  {
    var m := |full| - 1;
    if full[m] && m > 0 {
      if l > 0 { PassAt(lines[..m], full[..m], l - 1); }
    } else if l < m {
      PassAt(lines[..m], full[..m], l);
    }
  }

  lemma PassLines<L>(lines: seq<L>, full: seq<bool>)
    requires |lines| == |full|
    ensures forall l :: 0 <= l < |lines| ==> Pass(lines, full)[l] == lines[Sources(full)[l]]
  {
    forall l | 0 <= l < |lines| ensures Pass(lines, full)[l] == lines[Sources(full)[l]] {
      PassAt(lines, full, l);
    }
  }

  function Trues(s: seq<bool>): (n: nat)
    ensures n <= |s|
  {
    if s == [] then 0
    else Trues(s[..|s| - 1]) + if s[|s| - 1] then 1 else 0
  }

  lemma {:induction false} TruesExtremes(s: seq<bool>)
    ensures Trues(s) == 0 <==> forall i :: 0 <= i < |s| ==> !s[i]
    ensures Trues(s) == |s| <==> forall i :: 0 <= i < |s| ==> s[i]
  {
    if s != [] { TruesExtremes(s[..|s| - 1]); }
  }

  /** The lines that are not full, in their order. */
  function Open<L>(lines: seq<L>, full: seq<bool>): (r: seq<L>)
    requires |lines| == |full|
    ensures |r| == |full| - Trues(full)
  {
    if full == [] then []
    else
      var m := |full| - 1;
      Open(lines[..m], full[..m]) + if full[m] then [] else [lines[m]]
  }

  function Repeat<L>(x: L, n: nat): (r: seq<L>)
    ensures |r| == n && forall i :: 0 <= i < n ==> r[i] == x
  {
    seq(n, _ => x)
  }

  /** The rule of the game: full lines go, and as many blank lines come in at the top. */
  function Ideal<L>(lines: seq<L>, full: seq<bool>, blank: L): seq<L>
    requires |lines| == |full|
  {
    Repeat(blank, Trues(full)) + Open(lines, full)
  }

  lemma OneMore<L>(x: L, n: nat, s: seq<L>)
    ensures [x] + (Repeat(x, n) + s) == Repeat(x, n + 1) + (s + [])
  {
    assert [x] + Repeat(x, n) == Repeat(x, n + 1);
  }

  /** What the pass does to any field: as if the top line were open, the open lines keep
      their order, and a copy of the top line comes in for each full line below it. */
  lemma {:induction false} ClearMeaning<L>(lines: seq<L>, full: seq<bool>, rest: seq<bool>)
    requires |lines| == |full| > 0 && rest == full[0 := false]
    ensures Pass(lines, full) == Repeat(lines[0], Trues(rest)) + Open(lines, rest)
  {
    var m := |full| - 1;
    if m > 0 {
      var above := rest[..m];
      assert above == full[..m][0 := false];
      ClearMeaning(lines[..m], full[..m], above);
      var copies, open := Repeat(lines[0], Trues(above)), Open(lines[..m], above);
      if full[m] {
        OneMore(lines[0], Trues(above), open);
      } else {
        Regroup(copies, open, [lines[m]]);
      }
    }
  }

  /** The pass follows the rule of the game exactly when there is nothing to clear or the
      top line is blank.  (A full top line is not blank, so it is covered.) */
  lemma {:induction false} ClearIsIdealIff<L>(lines: seq<L>, full: seq<bool>, blank: L)
    requires |lines| == |full| > 0
    requires full[0] ==> lines[0] != blank
    ensures Pass(lines, full) == Ideal(lines, full, blank)
       <==> (Trues(full) == 0 || lines[0] == blank)
  {
    var k := Trues(full);
    TruesExtremes(full);
    if k > 0 && lines[0] != blank {
      assert Ideal(lines, full, blank)[0] == Repeat(blank, k)[0];
    } else {
      assert full == full[0 := false];
      ClearMeaning(lines, full, full);
      assert Repeat(blank, k) == Repeat(lines[0], k);
    }
  }

  lemma {:induction false} TopStays(full: seq<bool>)
    ensures full != [] ==> Sources(full)[0] == 0
  {
    if |full| > 1 { TopStays(full[..|full| - 1]); }
  }

  /** Lines never pass each other. */
  lemma {:induction false} SourcesInOrder(full: seq<bool>, l: nat, m: nat)
    requires l <= m < |full|
    ensures Sources(full)[l] <= Sources(full)[m]
  {
    var top := |full| - 1;
    if full[top] && top > 0 {
      if l > 0 { SourcesInOrder(full[..top], l - 1, m - 1); }
    } else if m < top {
      SourcesInOrder(full[..top], l, m);
    }
  }

  lemma {:induction false} NothingToClear<L>(lines: seq<L>, full: seq<bool>)
    requires |lines| == |full| && forall l :: 0 <= l < |full| ==> !full[l]
    ensures Pass(lines, full) == lines
  {
    if full != [] {
      var m := |full| - 1;
      NothingToClear(lines[..m], full[..m]);
      assert lines[..m] + [lines[m]] == lines;
    }
  }

  lemma {:induction false} OpenLineAt(full: seq<bool>, l: nat)
    requires l < |full| && !full[0]
    ensures !full[Sources(full)[l]]
  {
    var m := |full| - 1;
    if m > 0 {
      if full[m] {
        if l > 0 { OpenLineAt(full[..m], l - 1); }
      } else if l < m {
        OpenLineAt(full[..m], l);
      }
    }
  }

  /** Some full line stays exactly when the top line was full. */
  lemma {:induction false} NoFullLineStaysIff(full: seq<bool>)
    requires full != []
    ensures (forall l :: 0 <= l < |full| ==> !full[Sources(full)[l]]) <==> !full[0]
  {
    TopStays(full);
    if !full[0] {
      forall l | 0 <= l < |full| ensures !full[Sources(full)[l]] { OpenLineAt(full, l); }
    } else {
      assert full[Sources(full)[0]];
    }
  }

  // ----- the pace of the game -----

  function Max(a: int, b: int): int {
    if a > b then a else b
  }

  /** The tick interval after n more cleared lines. */
  function Faster(interval: int, n: nat): int {
    if n == 0 then interval else Max(Faster(interval, n - 1) - 100000, 300000)
  }

  lemma {:induction false} FasterClosed(interval: int, n: nat)
    requires interval >= 300000
    ensures Faster(interval, n) == Max(interval - 100000 * n, 300000)
  {
    if n > 0 { FasterClosed(interval, n - 1); }
  }
}
