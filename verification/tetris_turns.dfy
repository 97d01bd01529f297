/** What the shapes of the table are: pictures, quarter turns of them, and mirror images. */
module MinoTurns {
  import opened MinoShapes

  /** Each kind at its first angle. */
  function Picture(t: nat): (p: seq<string>)
    requires t < MINO_TYPE_MAX
    ensures |p| == 4 && forall i :: 0 <= i < 4 ==> |p[i]| == 4
  {
    match t
    case 0 => ["....", "####", "....", "...."]
    case 1 => ["....", ".##.", ".##.", "...."]
    case 2 => ["..#.", ".##.", ".#..", "...."]
    case 3 => [".#..", ".##.", "..#.", "...."]
    case 4 => ["....", "..#.", "###.", "...."]
    case 5 => ["....", "###.", "..#.", "...."]
    case 6 => [".#..", ".##.", ".#..", "...."]
    case 7 => [".#..", "....", "....", "...."]
    case _ => ["....", ".##.", "....", "...."]
  }

  lemma FirstAngleIsPicture(t: nat, i: nat, c: nat)
    requires t < MINO_TYPE_MAX && i < MINO_HEIGHT && c < MINO_COLUMNS
    ensures Occupied(Shape(t, 0), i, c) <==> Picture(t)[i][c] == '#'
  {
  }

  /** s' is s turned by a quarter and then moved. */
  ghost predicate TurnedTo(s: Mino, s': Mino, rows: int, columns: int) {
    forall i: int, c: int :: Occupied(s, i, c) <==> Occupied(s', c + rows, columns - i)
  }

  /** How a turned shape is moved within its box; mostly it turns about the middle. */
  function TurnRows(t: nat, a: nat): int {
    if t == 3 && a % 2 == 1 then -1 else if t == 5 && a % 2 == 0 then 1 else if t == 7 then -1 else 0
  }

  function TurnColumns(t: nat, a: nat): int {
    if (t == 2 && a % 2 == 0) || (t == 4 && a % 2 == 1) || t == 6 then 2 else if t == 7 then 1 else 3
  }

  /** The next angle of every kind is a quarter turn. */
  lemma NextAngleIsQuarterTurn(t: nat, a: nat)
    requires t < MINO_TYPE_MAX && a < MINO_ANGLE_MAX
    ensures TurnedTo(Shape(t, a), Shape(t, (a + 1) % MINO_ANGLE_MAX), TurnRows(t, a), TurnColumns(t, a))
  {
  }

  /** s' is the mirror image of s, moved. */
  ghost predicate MirroredTo(s: Mino, s': Mino, rows: int, columns: int) {
    forall i: int, c: int :: Occupied(s, i, c) <==> Occupied(s', i + rows, columns - c)
  }

  lemma LIsMirroredJ(a: nat)
    requires a < MINO_ANGLE_MAX
    ensures MirroredTo(Shape(4, a), Shape(5, (6 - a) % MINO_ANGLE_MAX), a % 2, if a % 2 == 0 then 2 else 3)
  {
    var b := if a == 0 then 2 else if a == 1 then 1 else if a == 2 then 0 else 3;
    assert (6 - a) % MINO_ANGLE_MAX == b;
  }

  lemma ZIsMirroredS(a: nat)
    requires a < MINO_ANGLE_MAX
    ensures MirroredTo(Shape(2, a), Shape(3, a), 0, 3)
  {
  }

  // ----- the bytes of a cell -----

  ghost predicate MarkedFrom(g: Group, b: nat) {
    forall o: nat :: o < 8 ==> g.Byte(o) == if b <= o < b + 6 then 0x7e else 0
  }

  /** A cell is drawn six bytes wide, from byte 1 of its group or from byte 0. */
  lemma SixBytesWide(g: Group)
    ensures g.None? <==> forall o: nat :: o < 8 ==> g.Byte(o) == 0
    ensures !g.None? <==> MarkedFrom(g, 0) || MarkedFrom(g, 1)
  {
    assert g.None? ==> g.Byte(1) == 0;
    assert !g.None? ==> g.Byte(1) == 0x7e;
  }

  /** From byte 0 in three groups of the whole table only. */
  lemma ThreeEarlyGroups(t: nat, a: nat, i: nat, c: nat)
    requires t < MINO_TYPE_MAX && a < MINO_ANGLE_MAX && i < MINO_HEIGHT && c < MINO_COLUMNS
    ensures Shape(t, a).Byte(i, 8 * c) != 0 <==>
      a == 2 && c == 0 && ((t == 4 && i == 2) || (t == 5 && i == 1) || (t == 6 && i == 1))
  {
    assert 8 * c / 8 == c && 8 * c % 8 == 0;
  }

  // ----- kinds differ -----

  /** The same cells, moved. */
  ghost predicate MovedTo(s: Mino, s': Mino, rows: int, columns: int) {
    forall i: int, c: int :: Occupied(s, i, c) <==> Occupied(s', i + rows, c + columns)
  }

  lemma MovedBack(s: Mino, s': Mino, rows: int, columns: int)
    requires MovedTo(s, s', rows, columns)
    ensures MovedTo(s', s, -rows, -columns)
  {
    forall i: int, c: int ensures Occupied(s', i, c) <==> Occupied(s, i + -rows, c + -columns) {
      assert Occupied(s, i - rows, c - columns) <==> Occupied(s', i - rows + rows, c - columns + columns);
    }
  }

  ghost predicate SameForm(s: Mino, s': Mino) {
    exists rows, columns :: MovedTo(s, s', rows, columns)
  }

  ghost predicate QuarterTurn(s: Mino, s': Mino) {
    exists rows, columns :: TurnedTo(s, s', rows, columns)
  }

  /** Turning both shapes keeps them the same but for a move. */
  lemma BothTurned(s: Mino, s': Mino, u: Mino, u': Mino)
    requires SameForm(s, s') && QuarterTurn(s, u) && QuarterTurn(s', u')
    ensures SameForm(u, u')
  {
    var rows, columns :| MovedTo(s, s', rows, columns);
    var p, q :| TurnedTo(s, u, p, q);
    var p', q' :| TurnedTo(s', u', p', q');
    forall x: int, y: int
      ensures Occupied(u, x, y) <==> Occupied(u', x + (columns + p' - p), y + (q' - q - rows))
    {
      assert Occupied(s, q - y, x - p) <==> Occupied(u, x - p + p, q - (q - y));
      assert Occupied(s, q - y, x - p) <==> Occupied(s', q - y + rows, x - p + columns);
      assert Occupied(s', q - y + rows, x - p + columns)
        <==> Occupied(u', x - p + columns + p', q' - (q - y + rows));
    }
    assert MovedTo(u, u', columns + p' - p, q' - q - rows);
  }

  /** Four shapes, each a quarter turn of the one before, around. */
  ghost predicate TurnAround(shapes: seq<Mino>) {
    && |shapes| == 4 && QuarterTurn(shapes[0], shapes[1]) && QuarterTurn(shapes[1], shapes[2])
    && QuarterTurn(shapes[2], shapes[3]) && QuarterTurn(shapes[3], shapes[0])
  }

  function Next(a: nat): nat {
    if a >= 3 then 0 else a + 1
  }

  lemma {:induction false} TurnToFirst(a: seq<Mino>, i: nat, b: seq<Mino>, j: nat) returns (k: nat)
    requires TurnAround(a) && TurnAround(b) && i < 4 && j < 4 && SameForm(a[i], b[j])
    ensures k < 4 && SameForm(a[0], b[k])
    decreases 4 - i
  {
    k := j;
    if i > 0 {
      BothTurned(a[i], b[j], a[Next(i)], b[Next(j)]);
      k := Next(j);
      if i < 3 { k := TurnToFirst(a, i + 1, b, Next(j)); }
    }
  }

  function Angles(t: nat): (shapes: seq<Mino>)
    requires t < MINO_TYPE_MAX
    ensures |shapes| == 4 && forall a :: 0 <= a < 4 ==> shapes[a] == Shape(t, a)
  {
    [Shape(t, 0), Shape(t, 1), Shape(t, 2), Shape(t, 3)]
  }

  lemma AnglesTurnAround(t: nat)
    requires t < MINO_TYPE_MAX
    ensures TurnAround(Angles(t))
  {
    NextAngleIsQuarterTurn(t, 0);
    NextAngleIsQuarterTurn(t, 1);
    NextAngleIsQuarterTurn(t, 2);
    NextAngleIsQuarterTurn(t, 3);
  }

  predicate RowWithin(s: Mino, s': Mino, i: int, rows: int, columns: int) {
    && (Occupied(s, i, 0) ==> Occupied(s', i + rows, columns))
    && (Occupied(s, i, 1) ==> Occupied(s', i + rows, 1 + columns))
    && (Occupied(s, i, 2) ==> Occupied(s', i + rows, 2 + columns))
    && (Occupied(s, i, 3) ==> Occupied(s', i + rows, 3 + columns))
  }

  predicate Within(s: Mino, s': Mino, rows: int, columns: int) {
    RowWithin(s, s', 0, rows, columns) && RowWithin(s, s', 1, rows, columns) && RowWithin(s, s', 2, rows, columns)
  }

  lemma SameFormWithin(s: Mino, s': Mino) returns (rows: int, columns: int)
    requires SameForm(s, s')
    ensures Within(s, s', rows, columns)
  {
    rows, columns :| MovedTo(s, s', rows, columns);
  }

  lemma FirstKindsNotWithin(k: nat, t: nat, a: nat, rows: int, columns: int)
    requires k < 3 && t < MINO_TYPE_MAX && a < MINO_ANGLE_MAX && Within(Shape(k, 0), Shape(t, a), rows, columns)
    ensures t == k
  {
  }

  lemma MiddleKindsNotWithin(k: nat, t: nat, a: nat, rows: int, columns: int)
    requires 3 <= k < 5 && t < MINO_TYPE_MAX && a < MINO_ANGLE_MAX && Within(Shape(k, 0), Shape(t, a), rows, columns)
    ensures t == k
  {
  }

  lemma LastKindsNotWithin(k: nat, t: nat, a: nat, rows: int, columns: int)
    requires 5 <= k < MINO_TYPE_MAX && k != 7 && t < MINO_TYPE_MAX && a < MINO_ANGLE_MAX && (k == 8 ==> t >= 7)
    requires Within(Shape(k, 0), Shape(t, a), rows, columns)
    ensures t == k
  {
  }

  /** A mino of four cells is nowhere within one of another kind, nor the one of two cells
      within that of one. */
  lemma NotWithin(k: nat, t: nat, a: nat, rows: int, columns: int)
    requires k < MINO_TYPE_MAX && k != 7 && t < MINO_TYPE_MAX && a < MINO_ANGLE_MAX && (k == 8 ==> t >= 7)
    requires Within(Shape(k, 0), Shape(t, a), rows, columns)
    ensures t == k
  {
    if k < 3 {
      FirstKindsNotWithin(k, t, a, rows, columns);
    } else if k < 5 {
      MiddleKindsNotWithin(k, t, a, rows, columns);
    } else {
      LastKindsNotWithin(k, t, a, rows, columns);
    }
  }

  lemma SameFormSameKind(k: nat, b: nat, t: nat, a: nat)
    requires k < MINO_TYPE_MAX && k != 7 && t < MINO_TYPE_MAX && a < MINO_ANGLE_MAX && b < MINO_ANGLE_MAX
    requires k == 8 ==> t >= 7
    requires SameForm(Angles(k)[b], Angles(t)[a])
    ensures k == t
  {
    AnglesTurnAround(k);
    AnglesTurnAround(t);
    var c := TurnToFirst(Angles(k), b, Angles(t), a);
    var rows, columns := SameFormWithin(Angles(k)[0], Angles(t)[c]);
    NotWithin(k, t, c, rows, columns);
  }

  lemma SameFormBack(s: Mino, s': Mino)
    requires SameForm(s, s')
    ensures SameForm(s', s)
  {
    var rows, columns :| MovedTo(s, s', rows, columns);
    MovedBack(s, s', rows, columns);
  }

  /** Two kinds never have the same cells, whatever their angles and wherever they are. */
  lemma KindsDiffer(k: nat, b: nat, t: nat, a: nat)
    requires k < MINO_TYPE_MAX && t < MINO_TYPE_MAX && a < MINO_ANGLE_MAX && b < MINO_ANGLE_MAX
    requires SameForm(Angles(k)[b], Angles(t)[a])
    ensures k == t
  {
    SameFormBack(Angles(k)[b], Angles(t)[a]);
    if k < 7 || (k == 8 && t >= 7) {
      SameFormSameKind(k, b, t, a);
    } else if t != 7 {
      SameFormSameKind(t, a, k, b);
    }
  }
}
