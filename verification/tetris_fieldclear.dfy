/**
 The field as the program stores it: an array of bytes, one group of 8 bytes for each row
 and line.  Offset 1 of a group tells whether the cell it shows is occupied.  Here is the
 in-place clear pass, for any number of rows and lines.
 */
module FieldClear {
  import opened LineClear

  /** The bytes of a field, row by row. */
  type Rows = seq<seq<bv8>>

  ghost predicate HasWidth(rows: Rows, w: nat) {
    forall k :: 0 <= k < |rows| ==> |rows[k]| == w
  }

  ghost predicate IsBytes(field: array2<bv8>, rows: Rows)
    reads field
  {
    && |rows| == field.Length0 && HasWidth(rows, field.Length1)
    && forall k, c :: 0 <= k < field.Length0 && 0 <= c < field.Length1 ==> rows[k][c] == field[k, c]
  }

  lemma BytesExist(field: array2<bv8>)
    ensures exists rows :: IsBytes(field, rows)
  {
    var rows := seq(field.Length0, k requires 0 <= k < field.Length0 reads field =>
      seq(field.Length1, c requires 0 <= c < field.Length1 reads field => field[k, c]));
    assert IsBytes(field, rows);
  }

  ghost function Bytes(field: array2<bv8>): (rows: Rows)
    reads field
    ensures IsBytes(field, rows)
  {
    BytesExist(field);
    var rows :| IsBytes(field, rows);
    rows
  }

  /** The cell of row k on line l shows as occupied: offset 1 of its group is marked. */
  ghost predicate Mark(rows: Rows, k: nat, l: nat)
    requires k < |rows| && 8 * l + 8 <= |rows[k]|
  {
    rows[k][8 * l + 1] == 0x7e
  }

  ghost predicate FullLine(rows: Rows, w: nat, l: nat)
    requires HasWidth(rows, w) && 8 * l + 8 <= w
  {
    forall k :: 0 <= k < |rows| ==> Mark(rows, k, l)
  }

  ghost function FullFlags(rows: Rows, n: nat): (full: seq<bool>)
    requires HasWidth(rows, 8 * n)
    ensures |full| == n && forall l :: 0 <= l < n ==> full[l] == FullLine(rows, 8 * n, l)
  {
    seq(n, l requires 0 <= l < n && HasWidth(rows, 8 * n) => FullLine(rows, 8 * n, l))
  }

  /** The byte column that column c is copied from. */
  ghost function SourceColumn(src: seq<nat>, c: nat): nat
    requires c / 8 < |src|
  {
    8 * src[c / 8] + c % 8
  }

  /** The eight byte assignments that move one group a line down. */
  method CopyGroup(field: array2<bv8>, k: nat, j: nat)
    requires k < field.Length0 && 8 <= j && j + 8 <= field.Length1
    modifies field
    ensures forall r, c :: 0 <= r < field.Length0 && 0 <= c < field.Length1 ==>
      field[r, c] == if r == k && j <= c < j + 8 then old(field[r, c - 8]) else old(field[r, c])
  {
    field[k, j] := field[k, j - 8];
    field[k, j + 1] := field[k, j - 8 + 1];
    field[k, j + 2] := field[k, j - 8 + 2];
    field[k, j + 3] := field[k, j - 8 + 3];
    field[k, j + 4] := field[k, j - 8 + 4];
    field[k, j + 5] := field[k, j - 8 + 5];
    field[k, j + 6] := field[k, j - 8 + 6];
    field[k, j + 7] := field[k, j - 8 + 7];
  }

  method CopyLine(field: array2<bv8>, j: nat)
    requires 8 <= j && j + 8 <= field.Length1
    modifies field
    ensures forall r, c :: 0 <= r < field.Length0 && 0 <= c < field.Length1 ==>
      field[r, c] == if j <= c < j + 8 then old(field[r, c - 8]) else old(field[r, c])
  {
    var k := 0;
    while k < field.Length0
      invariant 0 <= k <= field.Length0
      invariant forall r, c :: 0 <= r < field.Length0 && 0 <= c < field.Length1 ==>
        field[r, c] == if r < k && j <= c < j + 8 then old(field[r, c - 8]) else old(field[r, c])
    {
      CopyGroup(field, k, j);
      k := k + 1;
    }
  }

  /** Moves the lines above byte column i one line down, the lowest first. */
  method ShiftDown(field: array2<bv8>, i: nat)
    requires i % 8 == 0 && i + 8 <= field.Length1
    modifies field
    ensures forall k, c :: 0 <= k < field.Length0 && 0 <= c < field.Length1 ==>
      field[k, c] == if 8 <= c < i + 8 then old(field[k, c - 8]) else old(field[k, c])
  {
    var j: int := i;
    while j >= 8
      invariant 0 <= j <= i && j % 8 == 0
      invariant forall k, c :: 0 <= k < field.Length0 && 0 <= c < field.Length1 ==>
        field[k, c] == if j + 8 <= c < i + 8 then old(field[k, c - 8]) else old(field[k, c])
    {
      CopyLine(field, j);
      j := j - 8;
    }
  }

  /** Copying a stretch of columns through one more step of the pass. */
  lemma SourceColumnStep(full: seq<bool>, l: nat, c: nat)
    requires l < |full| && c < 8 * (l + 1)
    ensures var src, above := Sources(full[..l + 1]), Sources(full[..l]);
      SourceColumn(src, c) ==
        if full[l] && c >= 8 then SourceColumn(above, c - 8)
        else if c < 8 * l then SourceColumn(above, c)
        else c
  {
    assert full[..l + 1][..l] == full[..l];
    assert (c - 8) / 8 == c / 8 - 1 && (c - 8) % 8 == c % 8;
    if c < 8 { TopStays(full[..l + 1]); TopStays(full[..l]); }
  }

  /** The byte column that column c comes from once the first l lines are done. */
  ghost function Origin(full: seq<bool>, l: nat, c: nat): (o: nat)
    requires l <= |full|
    ensures o <= c
  {
    if c < 8 * l then SourceColumn(Sources(full[..l]), c) else c
  }

  lemma OriginStep(full: seq<bool>, l: nat, c: nat)
    requires l < |full|
    ensures Origin(full, l + 1, c) ==
      if full[l] && 8 <= c < 8 * (l + 1) then Origin(full, l, c - 8) else Origin(full, l, c)
  {
    if c < 8 * (l + 1) { SourceColumnStep(full, l, c); }
    if c < 8 && l > 0 { TopStays(full[..l]); }
  }

  /** The field once the first l lines are done, in terms of what it was before the pass. */
  ghost predicate Passed(field: array2<bv8>, was: Rows, full: seq<bool>, l: nat)
    requires l <= |full| && |was| == field.Length0 && HasWidth(was, field.Length1)
    reads field
  {
    forall k, c :: 0 <= k < field.Length0 && 0 <= c < field.Length1 ==>
      field[k, c] == was[k][Origin(full, l, c)]
  }

  method LineIsFull(field: array2<bv8>, i: nat, ghost was: Rows, ghost full: seq<bool>, ghost l: nat)
    returns (fill: bool)
    requires l < |full| && i == 8 * l && field.Length1 == 8 * |full|
    requires |was| == field.Length0 && HasWidth(was, field.Length1)
    requires Passed(field, was, full, l)
    ensures fill == FullLine(was, field.Length1, l)
  {
    fill := true;
    var j := 0;
    while j < field.Length0
      invariant 0 <= j <= field.Length0
      invariant fill == forall r :: 0 <= r < j ==> Mark(was, r, l)
    {
      assert field[j, i + 1] == was[j][Origin(full, l, i + 1)];
      if field[j, i + 1] != 0x7e {
        assert !Mark(was, j, l);
        fill := false;
      }
      j := j + 1;
    }
  }

  /** One round of the outer loop. */
  method PassLine(field: array2<bv8>, i: nat, ghost was: Rows, ghost full: seq<bool>, ghost l: nat)
    returns (fill: bool)
    requires l < |full| && i == 8 * l && field.Length1 == 8 * |full|
    requires |was| == field.Length0 && HasWidth(was, field.Length1)
    requires Passed(field, was, full, l)
    requires full[l] == FullLine(was, field.Length1, l)
    modifies field
    ensures Passed(field, was, full, l + 1)
    ensures fill == full[l]
  {
    fill := LineIsFull(field, i, was, full, l);
    if fill {
      ShiftDown(field, i);
    }
    forall k, c | 0 <= k < field.Length0 && 0 <= c < field.Length1
      ensures field[k, c] == was[k][Origin(full, l + 1, c)]
    {
      OriginStep(full, l, c);
    }
  }

  ghost function PrefixTrues(full: seq<bool>, l: nat): nat
    requires l <= |full|
  {
    Trues(full[..l])
  }

  lemma PrefixTruesStep(full: seq<bool>, l: nat)
    requires l < |full|
    ensures PrefixTrues(full, l + 1) == PrefixTrues(full, l) + if full[l] then 1 else 0
  {
    assert full[..l + 1][..l] == full[..l];
  }

  ghost predicate ClearedFrom(field: array2<bv8>, was: Rows, full: seq<bool>)
    requires |was| == field.Length0 && HasWidth(was, field.Length1) && field.Length1 == 8 * |full|
    reads field
  {
    forall k, c :: 0 <= k < field.Length0 && 0 <= c < field.Length1 ==>
      field[k, c] == was[k][SourceColumn(Sources(full), c)]
  }

  lemma PassedAll(field: array2<bv8>, was: Rows, full: seq<bool>, l: nat)
    requires |was| == field.Length0 && HasWidth(was, field.Length1) && field.Length1 == 8 * |full|
    requires l == |full| && Passed(field, was, full, l)
    ensures forall c :: 0 <= c < field.Length1 ==> SourceColumn(Sources(full), c) < field.Length1
    ensures ClearedFrom(field, was, full)
  {
    assert full[..|full|] == full;
    assert forall c :: 0 <= c < field.Length1 ==> Origin(full, |full|, c) == SourceColumn(Sources(full), c);
  }

  /** The outer loop. */
  method PassAllLines(field: array2<bv8>, n: nat, interval: int, ghost was: Rows, ghost full: seq<bool>)
    returns (filled: nat, faster: int)
    requires |full| == n && field.Length1 == 8 * n
    requires |was| == field.Length0 && HasWidth(was, field.Length1)
    requires full == FullFlags(was, n)
    requires Passed(field, was, full, 0)
    modifies field
    ensures Passed(field, was, full, n)
    ensures filled == PrefixTrues(full, n) && faster == Faster(interval, filled)
  {
    filled, faster := 0, interval;
    var i := 0;
    ghost var l := 0;
    while i < 8 * n
      invariant i == 8 * l && 0 <= l <= n
      invariant filled == PrefixTrues(full, l) && faster == Faster(interval, filled)
      invariant Passed(field, was, full, l)
    {
      var fill := PassLine(field, i, was, full, l);
      PrefixTruesStep(full, l);
      if fill {
        filled := filled + 1;
        faster := Max(faster - 100000, 300000);
      }
      i := i + 8;
      l := l + 1;
    }
    assert l == n;
  }

  /** The pass, for a field of any number of rows and of n lines. */
  method ClearLines(field: array2<bv8>, n: nat, interval: int) returns (filled: nat, faster: int)
    requires field.Length1 == 8 * n
    modifies field
    ensures var full := FullFlags(old(Bytes(field)), n);
      && filled == Trues(full)
      && faster == Faster(interval, filled)
      && ClearedFrom(field, old(Bytes(field)), full)
  {
    ghost var was := Bytes(field);
    ghost var full := FullFlags(was, n);
    filled, faster := PassAllLines(field, n, interval, was, full);
    PassedAll(field, was, full, n);
    assert full[..n] == full;
  }
}
