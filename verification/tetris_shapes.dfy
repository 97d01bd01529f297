/**
 The tetromino table.

 In the table a shape is 4 rows of 32 bytes.  A row is 4 groups of 8 bytes, one group for
 each field line the mino spans.
 */
module MinoShapes {

  const MINO_TYPE_MAX := 9
  const MINO_ANGLE_MAX := 4
  const MINO_HEIGHT := 4
  const MINO_WIDTH := 32
  const MINO_COLUMNS := 4

  /** A group is all zero, or holds 0x7e at offsets 1 to 6, or, in three of the shapes,
      holds 0x7e at offsets 0 to 5. */
  datatype Group = None | Full | Early {
    function Byte(o: nat): bv8 {
      match this
      case None => 0
      case Full => if 1 <= o <= 6 then 0x7e else 0
      case Early => if o <= 5 then 0x7e else 0
    }

    function Cells(): nat {
      if None? then 0 else 1
    }
  }

  datatype Row = Row(g0: Group, g1: Group, g2: Group, g3: Group) {
    function At(c: nat): Group
      requires c < MINO_COLUMNS
    {
      if c == 0 then g0 else if c == 1 then g1 else if c == 2 then g2 else g3
    }
  }

  datatype Mino = Mino(r0: Row, r1: Row, r2: Row, r3: Row) {
    function At(i: nat, c: nat): Group
      requires i < MINO_HEIGHT && c < MINO_COLUMNS
    {
      (if i == 0 then r0 else if i == 1 then r1 else if i == 2 then r2 else r3).At(c)
    }

    function RowCells(i: nat): nat
      requires i < MINO_HEIGHT
    {
      At(i, 0).Cells() + At(i, 1).Cells() + At(i, 2).Cells() + At(i, 3).Cells()
    }

    function Cells(): nat {
      RowCells(0) + RowCells(1) + RowCells(2) + RowCells(3)
    }

    /** The cells of a column, which lie in one line of the field. */
    function ColumnCells(c: int): nat {
      if 0 <= c < MINO_COLUMNS
      then At(0, c).Cells() + At(1, c).Cells() + At(2, c).Cells() + At(3, c).Cells()
      else 0
    }

    /** The byte of row i at offset j. */
    function Byte(i: nat, j: nat): bv8
      requires i < MINO_HEIGHT && j < MINO_WIDTH
    {
      At(i, j / 8).Byte(j % 8)
    }
  }

  // The rows that occur: 0 an empty group, 1 a full one, E an early one.
  const R0000 := Row(None, None, None, None)
  const R1111 := Row(Full, Full, Full, Full)
  const R0010 := Row(None, None, Full, None)
  const R0100 := Row(None, Full, None, None)
  const R0110 := Row(None, Full, Full, None)
  const R1100 := Row(Full, Full, None, None)
  const R0011 := Row(None, None, Full, Full)
  const R1110 := Row(Full, Full, Full, None)
  const RE000 := Row(Early, None, None, None)
  const RE100 := Row(Early, Full, None, None)

  function Shape(t: nat, a: nat): Mino
    requires t < MINO_TYPE_MAX && a < MINO_ANGLE_MAX
  {
    match t
    case 0 => // MINO_TYPE_I
      (match a
       case 0 => Mino(R0000, R1111, R0000, R0000)
       case 1 => Mino(R0010, R0010, R0010, R0010)
       case 2 => Mino(R0000, R0000, R1111, R0000)
       case _ => Mino(R0100, R0100, R0100, R0100))
    case 1 => // MINO_TYPE_O
      (match a
       case 0 => Mino(R0000, R0110, R0110, R0000)
       case 1 => Mino(R0000, R0110, R0110, R0000)
       case 2 => Mino(R0000, R0110, R0110, R0000)
       case _ => Mino(R0000, R0110, R0110, R0000))
    case 2 => // MINO_TYPE_S
      (match a
       case 0 => Mino(R0010, R0110, R0100, R0000)
       case 1 => Mino(R0000, R1100, R0110, R0000)
       case 2 => Mino(R0010, R0110, R0100, R0000)
       case _ => Mino(R0000, R1100, R0110, R0000))
    case 3 => // MINO_TYPE_Z
      (match a
       case 0 => Mino(R0100, R0110, R0010, R0000)
       case 1 => Mino(R0000, R0011, R0110, R0000)
       case 2 => Mino(R0100, R0110, R0010, R0000)
       case _ => Mino(R0000, R0011, R0110, R0000))
    case 4 => // MINO_TYPE_J
      (match a
       case 0 => Mino(R0000, R0010, R1110, R0000)
       case 1 => Mino(R0100, R0100, R0110, R0000)
       case 2 => Mino(R0000, R1110, RE000, R0000)
       case _ => Mino(R0110, R0010, R0010, R0000))
    case 5 => // MINO_TYPE_L
      (match a
       case 0 => Mino(R0000, R1110, R0010, R0000)
       case 1 => Mino(R0000, R0010, R0010, R0110)
       case 2 => Mino(R0000, RE000, R1110, R0000)
       case _ => Mino(R0000, R0110, R0100, R0100))
    case 6 => // MINO_TYPE_T
      (match a
       case 0 => Mino(R0100, R0110, R0100, R0000)
       case 1 => Mino(R0000, R1110, R0100, R0000)
       case 2 => Mino(R0100, RE100, R0100, R0000)
       case _ => Mino(R0100, R1110, R0000, R0000))
    case 7 => // MINO_TYPE_O_EASY
      (match a
       case 0 => Mino(R0100, R0000, R0000, R0000)
       case 1 => Mino(R0100, R0000, R0000, R0000)
       case 2 => Mino(R0100, R0000, R0000, R0000)
       case _ => Mino(R0100, R0000, R0000, R0000))
    case _ => // MINO_TYPE_I_EASY
      (match a
       case 0 => Mino(R0000, R0110, R0000, R0000)
       case 1 => Mino(R0000, R0010, R0010, R0000)
       case 2 => Mino(R0000, R0000, R0110, R0000)
       case _ => Mino(R0000, R0100, R0100, R0000))
  }

  /** Whether the shape has a cell in row i and column c; nothing lies outside the 4x4 box. */
  predicate Occupied(s: Mino, i: int, c: int) {
    0 <= i < MINO_HEIGHT && 0 <= c < MINO_COLUMNS && !s.At(i, c).None?
  }

  ghost predicate HasCells(s: Mino) {
    exists i, c :: Occupied(s, i, c)
  }

  /** Turning a mino keeps its number of cells: four, except for the two easy minos. */
  lemma MinoSizes(t: nat, a: nat)
    requires t < MINO_TYPE_MAX && a < MINO_ANGLE_MAX
    ensures Shape(t, a).Cells() == if t == 7 then 1 else if t == 8 then 2 else 4
  {
  }

  /** Every mino of the table has a cell to be stopped by. */
  lemma ShapeHasCells(t: nat, a: nat)
    requires t < MINO_TYPE_MAX && a < MINO_ANGLE_MAX
    ensures HasCells(Shape(t, a))
  {
    var s := Shape(t, a);
    if Occupied(s, 0, 1) || Occupied(s, 1, 1) || Occupied(s, 2, 1) {
    } else {
      assert Occupied(s, 1, 2);
    }
  }

  /** Some cell of the shape lies in this column. */
  predicate InColumn(s: Mino, c: int) {
    Occupied(s, 0, c) || Occupied(s, 1, c) || Occupied(s, 2, c) || Occupied(s, 3, c)
  }

  /** The columns with cells lie side by side. */
  ghost predicate Compact(s: Mino) {
    && (InColumn(s, 0) && InColumn(s, 2) ==> InColumn(s, 1))
    && (InColumn(s, 1) && InColumn(s, 3) ==> InColumn(s, 2))
    && (InColumn(s, 0) && InColumn(s, 3) ==> InColumn(s, 1) && InColumn(s, 2))
  }

  lemma ShapeIsCompact(t: nat, a: nat)
    requires t < MINO_TYPE_MAX && a < MINO_ANGLE_MAX
    ensures Compact(Shape(t, a))
  {
  }

  lemma ColumnsBetween(s: Mino, b: int, c: int, d: int)
    requires Compact(s) && InColumn(s, b) && InColumn(s, d) && b <= c <= d
    ensures InColumn(s, c)
  {
  }
}
