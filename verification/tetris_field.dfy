/** Collision test, locking and clearing on the bytes of the field, and the cells they show. */
module TetrisField {
  import opened MinoShapes
  import opened LineClear
  import opened TetrisRules
  import opened FieldClear

  const WIDTH := 120 // FIELD_WIDTH - 8: bytes in a row
  const HEIGHT := 8  // FIELD_HEIGHT: rows

  ghost predicate IsField(rows: Rows) {
    |rows| == HEIGHT && HasWidth(rows, WIDTH)
  }

  ghost function ByteAt(rows: Rows, k: nat, l: nat, b: nat): bv8
    requires IsField(rows) && k < ROWS && l < LINES && b < 8
  {
    rows[k][8 * l + b]
  }

  /** A group is all zero, or marked at offset 1.  A marked group has 0x7e at offsets 1 to 5;
      offsets 0 and 6 depend on the shapes that were drawn; offset 7 stays zero. */
  ghost predicate GroupOk(rows: Rows, k: nat, l: nat)
    requires IsField(rows) && k < ROWS && l < LINES
  {
    forall b :: 0 <= b < 8 ==>
      && (ByteAt(rows, k, l, b) == 0 || ByteAt(rows, k, l, b) == 0x7e)
      && (ByteAt(rows, k, l, b) != 0 ==> Mark(rows, k, l) && b <= 6)
      && (Mark(rows, k, l) && 1 <= b <= 5 ==> ByteAt(rows, k, l, b) == 0x7e)
  }

  ghost predicate WellMarked(rows: Rows) {
    IsField(rows) && forall k, l :: 0 <= k < ROWS && 0 <= l < LINES ==> GroupOk(rows, k, l)
  }

  ghost predicate IsGrid(rows: Rows, g: Grid)
    requires IsField(rows)
  {
    forall l, k :: 0 <= l < LINES && 0 <= k < ROWS ==> g[l][k] == Mark(rows, k, l)
  }

  lemma GridExists(rows: Rows)
    requires IsField(rows)
    ensures exists g: Grid :: IsGrid(rows, g)
  {
    var g: Grid := seq(LINES, l requires 0 <= l < LINES =>
      seq(ROWS, k requires 0 <= k < ROWS && 0 <= l < LINES => Mark(rows, k, l)));
    assert IsGrid(rows, g);
  }

  /** The cells that the bytes show. */
  ghost function GridOf(rows: Rows): (g: Grid)
    requires IsField(rows)
    ensures IsGrid(rows, g)
  {
    GridExists(rows);
    var g: Grid :| IsGrid(rows, g);
    g
  }

  datatype Picture = Broken | Picture(grid: Grid)

  /** The cells that the array shows, if its bytes are well formed. */
  ghost function Shown(field: array2<bv8>): (p: Picture)
    reads field
  {
    if field.Length0 == HEIGHT && field.Length1 == WIDTH && WellMarked(Bytes(field))
    then Picture(GridOf(Bytes(field))) else Broken
  }

  // ----- collision -----

  predicate OutOfField(x: int, y: int) {
    y >= HEIGHT || y < 0 || x >= WIDTH || x < 0
  }

  /** The test of the collision loop for one byte of the shape. */
  ghost predicate ByteHit(rows: Rows, s: Mino, x: int, y: int, i: nat, j: nat)
    requires IsField(rows) && i < MINO_HEIGHT && j < MINO_WIDTH
  {
    s.Byte(i, j) != 0 && (OutOfField(x + j, y + i) || s.Byte(i, j) & rows[y + i][x + j] != 0)
  }

  lemma GroupBytes(g: Group, o: nat)
    requires o < 8
    ensures g.Byte(o) == 0 || g.Byte(o) == 0x7e
    ensures g.Byte(o) != 0 ==> !g.None? && o <= 6
    ensures !g.None? && 1 <= o <= 5 ==> g.Byte(o) == 0x7e
  {
  }

  lemma ByteHitShows(rows: Rows, s: Mino, l: int, y: int, i: nat, j: nat)
    requires WellMarked(rows) && i < MINO_HEIGHT && j < MINO_WIDTH
    requires ByteHit(rows, s, 8 * l, y, i, j)
    ensures Occupied(s, i, j / 8) && Blocked(GridOf(rows), l + j / 8, y + i)
  {
    var c, o := j / 8, j % 8;
    GroupBytes(s.At(i, c), o);
    if !OutOfField(8 * l + j, y + i) {
      assert 8 * l + j == 8 * (l + c) + o;
      assert GroupOk(rows, y + i, l + c);
      assert ByteAt(rows, y + i, l + c, o) == rows[y + i][8 * l + j] != 0;
    }
  }

  lemma HitShowsInBytes(rows: Rows, s: Mino, l: int, y: int, i: nat, c: nat)
    requires WellMarked(rows)
    requires Occupied(s, i, c) && Blocked(GridOf(rows), l + c, y + i)
    ensures ByteHit(rows, s, 8 * l, y, i, 8 * c + 1)
  {
    assert (8 * c + 1) / 8 == c && (8 * c + 1) % 8 == 1;
    GroupBytes(s.At(i, c), 1);
    if !OutOfField(8 * l + 8 * c + 1, y + i) {
      assert Mark(rows, y + i, l + c);
      assert (0x7e as bv8) & 0x7e != 0;
    }
  }

  ghost predicate SomeByteHit(rows: Rows, s: Mino, x: int, y: int)
    requires IsField(rows)
  {
    exists i, j :: 0 <= i < MINO_HEIGHT && 0 <= j < MINO_WIDTH && ByteHit(rows, s, x, y, i, j)
  }

  /** Testing bytes and testing cells is the same, although some shapes show a cell at
      offsets 0 to 5 and others at 1 to 6. */
  lemma ByteTestIsCellTest(rows: Rows, s: Mino, l: int, y: int)
    requires WellMarked(rows)
    ensures SomeByteHit(rows, s, 8 * l, y) <==> Hit(GridOf(rows), s, l, y)
  {
    if SomeByteHit(rows, s, 8 * l, y) {
      var i, j :| 0 <= i < MINO_HEIGHT && 0 <= j < MINO_WIDTH && ByteHit(rows, s, 8 * l, y, i, j);
      ByteHitShows(rows, s, l, y, i, j);
    }
    if Hit(GridOf(rows), s, l, y) {
      var i, c :| 0 <= i < MINO_HEIGHT && 0 <= c < MINO_COLUMNS && Occupied(s, i, c)
                  && Blocked(GridOf(rows), l + c, y + i);
      HitShowsInBytes(rows, s, l, y, i, c);
    }
  }

  method IsHit(field: array2<bv8>, x: int, y: int, s: Mino, ghost l: int, ghost grid: Grid) returns (hit: bool)
    requires Shown(field) == Picture(grid) && x == 8 * l
    ensures hit == Hit(grid, s, l, y)
  {
    ghost var rows := Bytes(field);
    ByteTestIsCellTest(rows, s, l, y);
    var i := 0;
    while i < MINO_HEIGHT
      invariant 0 <= i <= MINO_HEIGHT
      invariant forall i', j' :: 0 <= i' < i && 0 <= j' < MINO_WIDTH ==> !ByteHit(rows, s, x, y, i', j')
    {
      var j := 0;
      while j < MINO_WIDTH
        invariant 0 <= j <= MINO_WIDTH
        invariant forall j' :: 0 <= j' < j ==> !ByteHit(rows, s, x, y, i, j')
      {
        var shape := s.Byte(i, j);
        if shape != 0 {
          if OutOfField(x + j, y + i) {
            assert ByteHit(rows, s, x, y, i, j);
            return true;
          }
          if shape & field[y + i, x + j] != 0 {
            assert ByteHit(rows, s, x, y, i, j);
            return true;
          }
        }
        j := j + 1;
      }
      i := i + 1;
    }
    return false;
  }

  // ----- locking -----

  /** The byte that the mino at byte column x and row y lays over row k and column c. */
  ghost function Overlay(s: Mino, x: int, y: int, k: int, c: int): bv8 {
    if 0 <= k - y < MINO_HEIGHT && 0 <= c - x < MINO_WIDTH then s.Byte(k - y, c - x) else 0
  }

  /** Row k and column c are among the bytes drawn before byte j of row i of the shape. */
  predicate Drawn(x: int, y: int, i: int, j: int, k: int, c: int) {
    k - y < i || (k - y == i && c - x < j)
  }

  ghost predicate DrawnOver(field: array2<bv8>, was: Rows, s: Mino, x: int, y: int, i: int, j: int)
    requires IsField(was) && field.Length0 == HEIGHT && field.Length1 == WIDTH
    reads field
  {
    forall k, c :: 0 <= k < HEIGHT && 0 <= c < WIDTH ==>
      field[k, c] == was[k][c] | if Drawn(x, y, i, j, k, c) then Overlay(s, x, y, k, c) else 0
  }

  /** One byte more: where the shape has one, it is laid over the byte of the field. */
  lemma ByteDrawn(s: Mino, x: int, y: int, i: int, j: int, k: int, c: int)
    ensures Drawn(x, y, i, j + 1, k, c) <==> Drawn(x, y, i, j, k, c) || (k == y + i && c == x + j)
    ensures !Drawn(x, y, i, j, y + i, x + j)
    ensures 0 <= i < MINO_HEIGHT && 0 <= j < MINO_WIDTH ==> Overlay(s, x, y, y + i, x + j) == s.Byte(i, j)
  {
  }

  method DrawByte(field: array2<bv8>, x: int, y: int, s: Mino, i: nat, j: nat, ghost was: Rows)
    requires IsField(was) && field.Length0 == HEIGHT && field.Length1 == WIDTH
    requires i < MINO_HEIGHT && j < MINO_WIDTH
    requires s.Byte(i, j) != 0 ==> 0 <= y + i < HEIGHT && 0 <= x + j < WIDTH
    requires DrawnOver(field, was, s, x, y, i, j)
    modifies field
    ensures DrawnOver(field, was, s, x, y, i, j + 1)
  {
    var shape := s.Byte(i, j);
    forall k, c | 0 <= k < HEIGHT && 0 <= c < WIDTH
      ensures Drawn(x, y, i, j + 1, k, c) <==> Drawn(x, y, i, j, k, c) || (k == y + i && c == x + j)
    {
      ByteDrawn(s, x, y, i, j, k, c);
    }
    ByteDrawn(s, x, y, i, j, y + i, x + j);
    if shape != 0 {
      field[y + i, x + j] := field[y + i, x + j] | shape;
    }
  }

  lemma InsideField(s: Mino, x: int, y: int, i: nat, j: nat)
    requires x % 8 == 0 && InBounds(s, x / 8, y) && i < MINO_HEIGHT && j < MINO_WIDTH && s.Byte(i, j) != 0
    ensures 0 <= y + i < HEIGHT && 0 <= x + j < WIDTH
  {
    GroupBytes(s.At(i, j / 8), j % 8);
    assert Occupied(s, i, j / 8);
  }

  method DrawRow(field: array2<bv8>, x: int, y: int, s: Mino, i: nat, ghost was: Rows)
    requires IsField(was) && field.Length0 == HEIGHT && field.Length1 == WIDTH
    requires x % 8 == 0 && InBounds(s, x / 8, y) && i < MINO_HEIGHT
    requires DrawnOver(field, was, s, x, y, i, 0)
    modifies field
    ensures DrawnOver(field, was, s, x, y, i, MINO_WIDTH)
  {
    var j := 0;
    while j < MINO_WIDTH
      invariant 0 <= j <= MINO_WIDTH
      invariant DrawnOver(field, was, s, x, y, i, j)
    {
      if s.Byte(i, j) != 0 { InsideField(s, x, y, i, j); }
      DrawByte(field, x, y, s, i, j, was);
      j := j + 1;
    }
  }

  lemma RowDrawn(field: array2<bv8>, was: Rows, s: Mino, x: int, y: int, i: int)
    requires IsField(was) && field.Length0 == HEIGHT && field.Length1 == WIDTH
    requires DrawnOver(field, was, s, x, y, i, MINO_WIDTH)
    ensures DrawnOver(field, was, s, x, y, i + 1, 0)
  {
  }

  method LockMino(field: array2<bv8>, x: nat, y: int, s: Mino, ghost l: nat, ghost grid: Grid)
    requires Shown(field) == Picture(grid) && x == 8 * l && InBounds(s, l, y)
    modifies field
    ensures Shown(field) == Picture(Lock(grid, s, l, y))
  {
    ghost var was := Bytes(field);
    var i := 0;
    while i < MINO_HEIGHT
      invariant 0 <= i <= MINO_HEIGHT
      invariant DrawnOver(field, was, s, x, y, i, 0)
    {
      DrawRow(field, x, y, s, i, was);
      RowDrawn(field, was, s, x, y, i);
      i := i + 1;
    }
    LockShows(Bytes(field), was, s, l, y);
  }

  lemma OrBytes(v: bv8, w: bv8)
    ensures v | 0 == v && 0 | v == v
    ensures (v == 0 || v == 0x7e) && (w == 0 || w == 0x7e) ==>
      (v | w) == if v == 0x7e || w == 0x7e then 0x7e else 0
  {
  }

  lemma GroupLocked(rows: Rows, was: Rows, s: Mino, x: nat, y: int, k: nat, l: nat)
    requires WellMarked(was) && IsField(rows) && k < ROWS && l < LINES
    requires forall c :: 0 <= c < WIDTH ==> rows[k][c] == was[k][c] | Overlay(s, 8 * x, y, k, c)
    ensures GroupOk(rows, k, l)
    ensures Mark(rows, k, l) == (Mark(was, k, l) || Occupied(s, k - y, l - x))
  {
    assert GroupOk(was, k, l);
    forall b | 0 <= b < 8
      ensures ByteAt(rows, k, l, b) == ByteAt(was, k, l, b) | Overlay(s, 8 * x, y, k, 8 * l + b)
      ensures Overlay(s, 8 * x, y, k, 8 * l + b) ==
        if Occupied(s, k - y, l - x) then s.At(k - y, l - x).Byte(b) else 0
      ensures Occupied(s, k - y, l - x) ==> !s.At(k - y, l - x).None?
    {
      assert 8 * l + b - 8 * x == 8 * (l - x) + b;
      if 0 <= l - x < MINO_COLUMNS {
        assert (8 * (l - x) + b) / 8 == l - x && (8 * (l - x) + b) % 8 == b;
      }
    }
    assert ByteAt(rows, k, l, 1) == 0x7e <==> Mark(rows, k, l);
    assert ByteAt(was, k, l, 1) == 0x7e <==> Mark(was, k, l);
    forall b | 0 <= b < 8
      ensures ByteAt(rows, k, l, b) == if ByteAt(was, k, l, b) == 0x7e ||
        (Occupied(s, k - y, l - x) && s.At(k - y, l - x).Byte(b) == 0x7e) then 0x7e else 0
    {
      OrBytes(ByteAt(was, k, l, b), Overlay(s, 8 * x, y, k, 8 * l + b));
      if Occupied(s, k - y, l - x) { GroupBytes(s.At(k - y, l - x), b); }
    }
  }

  lemma LockShows(rows: Rows, was: Rows, s: Mino, x: nat, y: int)
    requires WellMarked(was) && IsField(rows)
    requires forall k, c :: 0 <= k < HEIGHT && 0 <= c < WIDTH ==>
      rows[k][c] == was[k][c] | Overlay(s, 8 * x, y, k, c)
    ensures WellMarked(rows)
    ensures GridOf(rows) == Lock(GridOf(was), s, x, y)
  {
    forall k, l | 0 <= k < ROWS && 0 <= l < LINES
      ensures GroupOk(rows, k, l)
      ensures GridOf(rows)[l][k] == Lock(GridOf(was), s, x, y)[l][k]
    {
      GroupLocked(rows, was, s, x, y, k, l);
    }
    assert forall l :: 0 <= l < LINES ==> GridOf(rows)[l] == Lock(GridOf(was), s, x, y)[l];
  }

  // ----- clearing -----

  lemma FlagsShow(rows: Rows)
    requires IsField(rows)
    ensures FullFlags(rows, LINES) == Flags(GridOf(rows))
  {
    forall l | 0 <= l < LINES ensures FullFlags(rows, LINES)[l] == Flags(GridOf(rows))[l] {
      assert forall k :: 0 <= k < ROWS ==> GridOf(rows)[l][k] == Mark(rows, k, l);
    }
  }

  lemma ClearShows(rows: Rows, was: Rows, full: seq<bool>)
    requires WellMarked(was) && IsField(rows) && full == FullFlags(was, LINES)
    requires forall k, c :: 0 <= k < HEIGHT && 0 <= c < WIDTH ==>
      rows[k][c] == was[k][SourceColumn(Sources(full), c)]
    ensures WellMarked(rows)
    ensures GridOf(rows) == Clear(GridOf(was))
  {
    var src := Sources(full);
    FlagsShow(was);
    forall k, l | 0 <= k < ROWS && 0 <= l < LINES
      ensures GroupOk(rows, k, l)
      ensures Mark(rows, k, l) == Mark(was, k, src[l])
    {
      assert GroupOk(was, k, src[l]);
      forall b | 0 <= b < 8 ensures ByteAt(rows, k, l, b) == ByteAt(was, k, src[l], b) {
        var c := 8 * l + b;
        assert c / 8 == l && c % 8 == b;
        assert rows[k][c] == was[k][SourceColumn(src, c)];
      }
      assert ByteAt(rows, k, l, 1) == 0x7e <==> Mark(rows, k, l);
      assert ByteAt(was, k, src[l], 1) == 0x7e <==> Mark(was, k, src[l]);
    }
    PassLines(GridOf(was), full);
    forall l | 0 <= l < LINES ensures GridOf(rows)[l] == Clear(GridOf(was))[l] {
      assert Clear(GridOf(was))[l] == GridOf(was)[src[l]];
    }
  }

  method ClearFullLines(field: array2<bv8>, interval: int, ghost grid: Grid) returns (filled: nat, faster: int)
    requires Shown(field) == Picture(grid)
    modifies field
    ensures Shown(field) == Picture(Clear(grid))
    ensures filled == Trues(Flags(grid)) && faster == Faster(interval, filled)
  {
    ghost var was := Bytes(field);
    filled, faster := ClearLines(field, LINES, interval);
    FlagsShow(was);
    ClearShows(Bytes(field), was, FullFlags(was, LINES));
  }

  method ClearField(field: array2<bv8>)
    requires field.Length0 == HEIGHT && field.Length1 == WIDTH
    modifies field
    ensures Shown(field) == Picture(BlankGrid())
  {
    forall k, c | 0 <= k < HEIGHT && 0 <= c < WIDTH {
      field[k, c] := 0;
    }
    BlankShows(Bytes(field));
  }

  lemma BlankShows(rows: Rows)
    requires IsField(rows) && forall k, c :: 0 <= k < HEIGHT && 0 <= c < WIDTH ==> rows[k][c] == 0
    ensures WellMarked(rows) && GridOf(rows) == BlankGrid()
  {
    forall l | 0 <= l < LINES ensures GridOf(rows)[l] == BlankGrid()[l] {
      assert forall k :: 0 <= k < ROWS ==> GridOf(rows)[l][k] == Mark(rows, k, l);
    }
  }

  /** Any row of the top line marked. */
  method TopTouched(field: array2<bv8>, ghost grid: Grid) returns (touched: bool)
    requires Shown(field) == Picture(grid)
    ensures touched == !IsEmpty(grid[0])
  {
    touched := false;
    var j := 0;
    while j < HEIGHT
      invariant 0 <= j <= HEIGHT
      invariant touched == exists k :: 0 <= k < j && grid[0][k]
    {
      assert grid[0][j] == Mark(Bytes(field), j, 0);
      if field[j, 1] == 0x7e {
        touched := true;
      }
      j := j + 1;
    }
  }

  /** The clear loop runs once more after the 15 lines, at byte 120 of each row.  Read as
      flat memory these are the first bytes of the following row; beyond the last row an
      arbitrary byte stands for whatever lies there. */
  method SixteenthLineFull(field: array2<bv8>, beyond: bv8, ghost grid: Grid) returns (fill: bool)
    requires Shown(field) == Picture(grid)
    ensures fill == (beyond == 0x7e && forall k :: 1 <= k < ROWS ==> grid[0][k])
  {
    fill := true;
    var j := 0;
    while j < HEIGHT
      invariant 0 <= j <= HEIGHT
      invariant fill == ((j == HEIGHT ==> beyond == 0x7e) && forall k :: 1 <= k <= j && k < HEIGHT ==> grid[0][k])
    {
      assert j + 1 < HEIGHT ==> grid[0][j + 1] == Mark(Bytes(field), j + 1, 0);
      if (if j + 1 < HEIGHT then field[j + 1, 1] else beyond) != 0x7e {
        fill := false;
      }
      j := j + 1;
    }
  }
}
