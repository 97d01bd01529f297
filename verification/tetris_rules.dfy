/**
 The game on a grid of cells: a state machine whose events are key presses and timer ticks.

 The field has 15 lines of 8 cells.  A mino at (x, y) covers lines x .. x+3 (its columns)
 and rows y .. y+3; it falls in the direction of growing x.
 */
module TetrisRules {
  import opened MinoShapes
  import opened LineClear

  const LINES := 15
  const ROWS := 8
  const EMPTY_LINE: seq<bool> := [false, false, false, false, false, false, false, false]

  type Grid = g: seq<seq<bool>> | |g| == LINES && forall l :: 0 <= l < |g| ==> |g[l]| == ROWS
    witness Repeat(EMPTY_LINE, LINES)

  function BlankGrid(): (g: Grid)
    ensures forall l :: 0 <= l < LINES ==> g[l] == EMPTY_LINE
  {
    Repeat(EMPTY_LINE, LINES)
  }

  /** The cell cannot take part of a mino: it lies outside the field or is occupied. */
  predicate Blocked(g: Grid, l: int, k: int) {
    !(0 <= l < LINES && 0 <= k < ROWS) || g[l][k]
  }

  predicate Hit(g: Grid, s: Mino, x: int, y: int) {
    exists i, c :: 0 <= i < MINO_HEIGHT && 0 <= c < MINO_COLUMNS && Occupied(s, i, c) && Blocked(g, x + c, y + i)
  }

  ghost predicate InBounds(s: Mino, x: int, y: int) {
    forall i, c :: Occupied(s, i, c) ==> 0 <= x + c < LINES && 0 <= y + i < ROWS
  }

  predicate IsFull(line: seq<bool>) {
    forall k :: 0 <= k < |line| ==> line[k]
  }

  predicate IsEmpty(line: seq<bool>) {
    forall k :: 0 <= k < |line| ==> !line[k]
  }

  ghost predicate IsFlags(g: Grid, full: seq<bool>) {
    |full| == LINES && forall l :: 0 <= l < LINES ==> full[l] == IsFull(g[l])
  }

  lemma FlagsExist(g: Grid)
    ensures exists full :: IsFlags(g, full)
  {
    var full := seq(LINES, l requires 0 <= l < LINES => IsFull(g[l]));
    assert IsFlags(g, full);
  }

  /** Which lines are full. */
  ghost function Flags(g: Grid): (full: seq<bool>)
    ensures IsFlags(g, full)
  {
    FlagsExist(g);
    var full :| IsFlags(g, full);
    full
  }

  function LockLine(line: seq<bool>, s: Mino, c: int, y: int): (r: seq<bool>)
    ensures |r| == |line|
    ensures forall k :: 0 <= k < |line| ==> r[k] == (line[k] || Occupied(s, k - y, c))
  {
    seq(|line|, k requires 0 <= k < |line| => line[k] || Occupied(s, k - y, c))
  }

  ghost predicate IsLock(g: Grid, s: Mino, x: int, y: int, r: Grid) {
    forall l :: 0 <= l < LINES ==> r[l] == LockLine(g[l], s, l - x, y)
  }

  lemma LockExists(g: Grid, s: Mino, x: int, y: int)
    ensures exists r: Grid :: IsLock(g, s, x, y, r)
  {
    var r: Grid := seq(LINES, l requires 0 <= l < LINES => LockLine(g[l], s, l - x, y));
    assert IsLock(g, s, x, y, r);
  }

  /** The field with the mino at (x, y) added. */
  ghost function Lock(g: Grid, s: Mino, x: int, y: int): (r: Grid)
    ensures IsLock(g, s, x, y, r)
  {
    LockExists(g, s, x, y);
    var r: Grid :| IsLock(g, s, x, y, r);
    r
  }

  ghost function Clear(g: Grid): (r: Grid) {
    PassLines(g, Flags(g));
    Pass(g, Flags(g))
  }

  // ----- the state machine -----

  datatype Game = Game(grid: Grid, x: nat, y: int, kind: nat, angle: nat, score: nat, interval: int, over: bool) {
    predicate Typed() {
      kind < MINO_TYPE_MAX && angle < MINO_ANGLE_MAX
    }

    function Mino(): (s: Mino)
      requires Typed()
      ensures HasCells(s)
    {
      ShapeHasCells(kind, angle);
      Shape(kind, angle)
    }

    /** Everything that holds of a game in progress. */
    ghost predicate Inv() {
      && Typed()
      && 300000 <= interval <= 1000000
      && (!over ==>
        && InBounds(Mino(), x, y)
        && (forall l :: 0 <= l < LINES ==> !IsFull(grid[l]))
        && IsEmpty(grid[0]))
    }
  }

  datatype Event = Key(ch: char) | Tick(kind: nat, angle: nat) {
    predicate Typed() {
      Tick? ==> kind < MINO_TYPE_MAX && angle < MINO_ANGLE_MAX
    }
  }

  function Start(kind: nat, angle: nat): Game {
    Game(BlankGrid(), 0, 3, kind, angle, 0, 1000000, false)
  }

  /** Where a mino comes to rest when it falls freely. */
  function Drop(g: Grid, s: Mino, x: nat, y: int): (rest: nat)
    requires HasCells(s) && InBounds(s, x, y)
    ensures x <= rest && InBounds(s, rest, y)
    decreases LINES - x
  {
    DepthBound(s, x, y);
    if Hit(g, s, x + 1, y) then x
    else (FreeIsInBounds(g, s, x + 1, y); Drop(g, s, x + 1, y))
  }

  /** A move by dx lines and dy rows, if the mino fits there. */
  function Slide(g: Game, dx: nat, dy: int): Game
    requires g.Typed()
  {
    if Hit(g.grid, g.Mino(), g.x + dx, g.y + dy) then g else g.(x := g.x + dx, y := g.y + dy)
  }

  function Turn(g: Game): Game
    requires g.Typed()
  {
    var turned := (g.angle + 1) % MINO_ANGLE_MAX;
    if Hit(g.grid, Shape(g.kind, turned), g.x, g.y) then g else g.(angle := turned)
  }

  function PressKey(g: Game, ch: char): Game
    requires g.Typed() && InBounds(g.Mino(), g.x, g.y)
  {
    match ch
    case 'l' => Slide(g, 0, 1)
    case 'r' => Slide(g, 0, -1)
    case 'd' => Slide(g, 1, 0)
    case 'u' => Turn(g)
    case 'f' => g.(x := Drop(g.grid, g.Mino(), g.x, g.y))
    case _ => g
  }

  /** The score for a mino that locks: 10, and a bonus by the number of lines cleared. */
  function Bonus(n: nat): nat {
    if n == 1 then 90 else if n == 2 then 390 else if n == 3 then 690 else if n == 4 then 990 else 0
  }

  predicate LocksNow(g: Game)
    requires g.Typed()
  {
    Hit(g.grid, g.Mino(), g.x + 1, g.y)
  }

  ghost function Locked(g: Game): Grid
    requires g.Typed()
  {
    Lock(g.grid, g.Mino(), g.x, g.y)
  }

  ghost function TimerTick(g: Game, kind: nat, angle: nat): Game
    requires g.Typed()
  {
    if !LocksNow(g) then g.(x := g.x + 1)
    else
      var locked := Locked(g);
      var n := Trues(Flags(locked));
      var next := g.(grid := Clear(locked), interval := Faster(g.interval, n));
      if Hit(g.grid, g.Mino(), g.x, g.y) || !IsEmpty(next.grid[0]) then next.(over := true)
      else next.(x := 0, y := 3, kind := kind, angle := angle, score := g.score + 10 + Bonus(n))
  }

  /** A landing, field by field. */
  ghost predicate IsLanding(g: Game, cleared: Grid, n: nat, over: bool, kind: nat, angle: nat, next: Game) {
    && next.grid == cleared && next.interval == Faster(g.interval, n) && next.over == over
    && next.score == (if over then g.score else g.score + 10 + Bonus(n))
    && (if over then next.x == g.x && next.y == g.y && next.kind == g.kind && next.angle == g.angle
        else next.x == 0 && next.y == 3 && next.kind == kind && next.angle == angle)
  }

  lemma LandingFields(g: Game, kind: nat, angle: nat)
    requires g.Inv() && !g.over && LocksNow(g)
    ensures IsLanding(g, Clear(Locked(g)), Trues(Flags(Locked(g))),
      Hit(g.grid, g.Mino(), g.x, g.y) || !IsEmpty(Clear(Locked(g))[0]), kind, angle, TimerTick(g, kind, angle))
  {
  }

  ghost function Step(g: Game, e: Event): Game
    requires g.Typed() && (!g.over ==> InBounds(g.Mino(), g.x, g.y))
  {
    if g.over then g
    else match e
      case Key(ch) => PressKey(g, ch)
      case Tick(kind, angle) => TimerTick(g, kind, angle)
  }

  // ----- where a mino can be -----

  lemma DepthBound(s: Mino, x: nat, y: int)
    requires HasCells(s) && InBounds(s, x, y)
    ensures x < LINES
  {
    var i, c :| Occupied(s, i, c);
  }

  lemma FreeIsInBounds(g: Grid, s: Mino, x: int, y: int)
    requires !Hit(g, s, x, y)
    ensures InBounds(s, x, y)
  {
    forall i, c | Occupied(s, i, c) ensures 0 <= x + c < LINES && 0 <= y + i < ROWS {
      assert !Blocked(g, x + c, y + i);
    }
  }

  /** A new mino always fits the field's bounds, though it may overlap occupied cells. */
  lemma SpawnInBounds(s: Mino)
    ensures InBounds(s, 0, 3)
  {
  }

  /** The drop passes only through free positions and stops where one more step would hit;
      no other position has both properties. */
  lemma {:induction false} DropMeaning(g: Grid, s: Mino, x: nat, y: int, d: nat)
    requires HasCells(s) && InBounds(s, x, y) && x <= d
    ensures d == Drop(g, s, x, y) <==>
      Hit(g, s, d + 1, y) && forall p :: x < p <= d ==> !Hit(g, s, p, y)
    decreases LINES - x
  {
    DepthBound(s, x, y);
    if !Hit(g, s, x + 1, y) {
      FreeIsInBounds(g, s, x + 1, y);
      if d > x {
        DropMeaning(g, s, x + 1, y, d);
      }
    }
  }

  // ----- counting cells -----

  /** The occupied cells of the first n lines. */
  function CellsUpTo(lines: seq<seq<bool>>, n: nat): nat
    requires n <= |lines|
  {
    if n == 0 then 0 else CellsUpTo(lines, n - 1) + Trues(lines[n - 1])
  }

  function Cells(lines: seq<seq<bool>>): nat {
    CellsUpTo(lines, |lines|)
  }

  lemma {:induction false} CellsAgree(a: seq<seq<bool>>, b: seq<seq<bool>>, n: nat)
    requires n <= |a| && n <= |b| && forall l :: 0 <= l < n ==> a[l] == b[l]
    ensures CellsUpTo(a, n) == CellsUpTo(b, n)
  {
    if n > 0 { CellsAgree(a, b, n - 1); }
  }

  /** Cells of column c in the rows above row m. */
  function ColumnAbove(s: Mino, c: int, m: int): nat
    decreases if m > 0 then m else 0
  {
    if m <= 0 then 0 else ColumnAbove(s, c, m - 1) + if Occupied(s, m - 1, c) then 1 else 0
  }

  /** Locking one line adds the cells of one column of the mino. */
  lemma {:induction false} LockLineTrues(line: seq<bool>, s: Mino, c: nat, y: int)
    requires forall k :: 0 <= k < |line| && Occupied(s, k - y, c) ==> !line[k]
    ensures Trues(LockLine(line, s, c, y)) == Trues(line) + ColumnAbove(s, c, |line| - y) - ColumnAbove(s, c, -y)
  {
    if line != [] {
      var m := |line| - 1;
      LockLineTrues(line[..m], s, c, y);
      assert LockLine(line, s, c, y)[..m] == LockLine(line[..m], s, c, y);
    }
  }

  /** Rows without cells do not count. */
  lemma {:induction false} ColumnFlat(s: Mino, c: int, m: int, n: int)
    requires m <= n
    requires forall i :: m <= i < n ==> !Occupied(s, i, c)
    ensures ColumnAbove(s, c, m) == ColumnAbove(s, c, n)
    decreases n - m
  {
    if m < n {
      ColumnFlat(s, c, m, n - 1);
      assert !Occupied(s, n - 1, c);
    }
  }

  lemma ColumnSum(s: Mino, c: nat)
    requires c < MINO_COLUMNS
    ensures ColumnAbove(s, c, 4) == s.ColumnCells(c)
  {
    assert ColumnAbove(s, c, 1) == s.At(0, c).Cells();
    assert ColumnAbove(s, c, 2) == ColumnAbove(s, c, 1) + s.At(1, c).Cells();
    assert ColumnAbove(s, c, 3) == ColumnAbove(s, c, 2) + s.At(2, c).Cells();
    assert ColumnAbove(s, c, 4) == ColumnAbove(s, c, 3) + s.At(3, c).Cells();
  }

  /** Between the edges of the field lies the whole column. */
  lemma WholeColumn(s: Mino, x: int, y: int, c: nat)
    requires InBounds(s, x, y) && c < MINO_COLUMNS
    ensures ColumnAbove(s, c, ROWS - y) - ColumnAbove(s, c, -y) == s.ColumnCells(c)
  {
    ColumnSum(s, c);
    if -y < 0 { ColumnFlat(s, c, -y, 0); } else { ColumnFlat(s, c, 0, -y); }
    if ROWS - y < 4 { ColumnFlat(s, c, ROWS - y, 4); } else { ColumnFlat(s, c, 4, ROWS - y); }
  }

  lemma LockLineCells(g: Grid, s: Mino, x: nat, y: int, l: nat)
    requires InBounds(s, x, y) && !Hit(g, s, x, y) && l < LINES
    ensures Trues(LockLine(g[l], s, l - x, y)) == Trues(g[l]) + s.ColumnCells(l - x)
  {
    var c := l - x;
    if 0 <= c < MINO_COLUMNS {
      forall k | 0 <= k < ROWS && Occupied(s, k - y, c) ensures !g[l][k] {
        assert !Blocked(g, x + c, y + (k - y));
      }
      LockLineTrues(g[l], s, c, y);
      WholeColumn(s, x, y, c);
    } else {
      assert LockLine(g[l], s, c, y) == g[l];
    }
  }

  /** Adding to each line adds up. */
  lemma {:induction false} CellsAddUp(after: seq<seq<bool>>, lines: seq<seq<bool>>, add: seq<nat>, n: nat)
    requires n <= |after| == |lines| == |add|
    requires forall l :: 0 <= l < |lines| ==> Trues(after[l]) == Trues(lines[l]) + add[l]
    ensures CellsUpTo(after, n) == CellsUpTo(lines, n) + SumUpTo(add, n)
  {
    if n > 0 { CellsAddUp(after, lines, add, n - 1); }
  }

  function Clip(i: int, hi: nat): nat {
    if i < 0 then 0 else if i > hi then hi else i
  }

  /** Numbers placed from position x on, with zeros around them, add up as they did. */
  lemma {:induction false} SumWindow(add: seq<nat>, v: seq<nat>, x: nat, n: nat)
    requires n <= |add|
    requires forall l :: 0 <= l < |add| ==> add[l] == if 0 <= l - x < |v| then v[l - x] else 0
    ensures SumUpTo(add, n) == SumUpTo(v, Clip(n - x, |v|))
  {
    if n > 0 { SumWindow(add, v, x, n - 1); }
  }

  lemma {:induction false} SumZeros(v: seq<nat>, m: nat, n: nat)
    requires m <= n <= |v| && forall i :: m <= i < n ==> v[i] == 0
    ensures SumUpTo(v, m) == SumUpTo(v, n)
  {
    if m < n { SumZeros(v, m, n - 1); }
  }

  function SumUpTo(v: seq<nat>, n: nat): nat
    requires n <= |v|
  {
    if n == 0 then 0 else SumUpTo(v, n - 1) + v[n - 1]
  }

  /** What a mino at line x adds to each line of the field. */
  ghost function Additions(s: Mino, x: nat): (add: seq<nat>)
    ensures |add| == LINES
    ensures forall l :: 0 <= l < LINES ==> add[l] == s.ColumnCells(l - x)
  {
    seq<nat>(LINES, l requires 0 <= l < LINES => s.ColumnCells(l - x))
  }

  lemma SumOfFour(v: seq<nat>)
    requires |v| == 4
    ensures SumUpTo(v, |v|) == v[0] + v[1] + v[2] + v[3]
  {
    assert SumUpTo(v, 1) == v[0];
    assert SumUpTo(v, 2) == v[0] + v[1];
    assert SumUpTo(v, 3) == v[0] + v[1] + v[2];
  }

  lemma AdditionsSum(s: Mino, x: nat, y: int)
    requires InBounds(s, x, y)
    ensures SumUpTo(Additions(s, x), LINES) == s.Cells()
  {
    var v: seq<nat> := [s.ColumnCells(0), s.ColumnCells(1), s.ColumnCells(2), s.ColumnCells(3)];
    SumWindow(Additions(s, x), v, x, LINES);
    forall c | Clip(LINES - x, |v|) <= c < |v| ensures v[c] == 0 {
      assert !Occupied(s, 0, c) && !Occupied(s, 1, c) && !Occupied(s, 2, c) && !Occupied(s, 3, c);
    }
    SumZeros(v, Clip(LINES - x, |v|), |v|);
    SumOfFour(v);
  }

  /** A mino that overlaps nothing adds all its cells. */
  lemma LockCells(g: Grid, s: Mino, x: nat, y: int)
    requires !Hit(g, s, x, y)
    ensures Cells(Lock(g, s, x, y)) == Cells(g) + s.Cells()
  {
    FreeIsInBounds(g, s, x, y);
    forall l | 0 <= l < LINES ensures Trues(Lock(g, s, x, y)[l]) == Trues(g[l]) + Additions(s, x)[l] {
      LockLineCells(g, s, x, y, l);
    }
    CellsAddUp(Lock(g, s, x, y), g, Additions(s, x), |g|);
    AdditionsSum(s, x, y);
  }

  /** With an empty top line, clearing takes away exactly the cells of the full lines. */
  lemma {:induction false} ClearCells(lines: seq<seq<bool>>, full: seq<bool>)
    requires |lines| == |full| > 0
    requires forall l :: 0 <= l < |lines| ==> |lines[l]| == ROWS
    requires forall l :: 0 <= l < |lines| ==> full[l] == IsFull(lines[l])
    requires IsEmpty(lines[0])
    ensures Cells(Pass(lines, full)) + ROWS * Trues(full) == Cells(lines)
  {
    var m := |full| - 1;
    TruesExtremes(lines[m]);
    TruesExtremes(lines[0]);
    if m > 0 {
      ClearCells(lines[..m], full[..m]);
      CellsAgree(lines, lines[..m], m);
      var above := Pass(lines[..m], full[..m]);
      if full[m] {
        CellsCons(lines[0], above, m);
      } else {
        CellsAgree(above, above + [lines[m]], m);
      }
    } else {
      CellsAgree(Pass(lines, full), lines, 1);
    }
  }

  lemma {:induction false} CellsCons(line: seq<bool>, lines: seq<seq<bool>>, n: nat)
    requires n <= |lines|
    ensures CellsUpTo([line] + lines, n + 1) == Trues(line) + CellsUpTo(lines, n)
  {
    if n > 0 { CellsCons(line, lines, n - 1); }
  }

  /** Flags that are set only in a window of four are at most four. */
  lemma {:induction false} TruesInWindow(s: seq<bool>, lo: int)
    requires forall l :: 0 <= l < |s| && s[l] ==> lo <= l < lo + 4
    ensures Trues(s) <= if |s| < lo then 0 else if |s| < lo + 4 then |s| - lo else 4
  {
    if s != [] { TruesInWindow(s[..|s| - 1], lo); }
  }

  /** A mino completes at most four lines. */
  lemma AtMostFourLines(g: Game)
    requires g.Inv() && !g.over
    ensures Trues(Flags(Locked(g))) <= 4
  {
    forall l | 0 <= l < LINES && !(g.x <= l < g.x + 4) ensures !Flags(Locked(g))[l] {
      assert LockLine(g.grid[l], g.Mino(), l - g.x, g.y) == g.grid[l];
    }
    TruesInWindow(Flags(Locked(g)), g.x);
  }

  // ----- what every step keeps -----

  /** A lock after which the game goes on. */
  ghost predicate Continues(g: Game)
    requires g.Typed()
  {
    && LocksNow(g)
    && !Hit(g.grid, g.Mino(), g.x, g.y)
    && IsEmpty(Clear(Locked(g))[0])
  }

  lemma ContinuingTop(g: Game)
    requires g.Inv() && !g.over && Continues(g)
    ensures IsEmpty(Locked(g)[0]) && !Flags(Locked(g))[0]
    ensures forall l :: 0 <= l < LINES ==> !IsFull(Clear(Locked(g))[l])
  {
    var locked := Locked(g);
    NoFullLineStaysIff(Flags(locked));
    forall l | 0 <= l < LINES ensures !IsFull(Clear(locked)[l]) { PassAt(locked, Flags(locked), l); }
  }

  lemma ContinuingNext(g: Game, kind: nat, angle: nat, n: nat)
    requires g.Inv() && !g.over && Continues(g) && n == Trues(Flags(Locked(g)))
    ensures var next := TimerTick(g, kind, angle);
      && !next.over && next.grid == Clear(Locked(g))
      && next.score == g.score + 10 + Bonus(n) && next.interval == Faster(g.interval, n)
  {
  }

  /** The accounts of a lock after which the game goes on: cells come from the mino and go
      with the cleared lines, clearing follows the rule of the game, and the score ladder
      covers every number of lines that can occur. */
  lemma ContinuingLock(g: Game, kind: nat, angle: nat)
    requires g.Inv() && !g.over && Continues(g)
    ensures var locked := Locked(g); var n := Trues(Flags(locked)); var next := TimerTick(g, kind, angle);
      && !next.over
      && n <= 4
      && next.grid == Ideal(locked, Flags(locked), EMPTY_LINE)
      && Cells(next.grid) + ROWS * n == Cells(g.grid) + g.Mino().Cells()
      && next.score == g.score + 10 + (if n == 0 then 0 else 300 * n - 210)
      && next.interval == Max(g.interval - 100000 * n, 300000)
      && next.x == 0 && next.y == 3 && next.kind == kind && next.angle == angle
  {
    var n, next := Trues(Flags(Locked(g))), TimerTick(g, kind, angle);
    ContinuingNext(g, kind, angle, n);
    AtMostFourLines(g);
    FasterClosed(g.interval, n);
    assert next.score == g.score + 10 + (if n == 0 then 0 else 300 * n - 210);
    LockCells(g.grid, g.Mino(), g.x, g.y);
    ContinuingTop(g);
    ClearOfEmptyTop(Locked(g), next.grid);
  }

  lemma ClearOfEmptyTop(g: Grid, cleared: Grid)
    requires IsEmpty(g[0]) && cleared == Clear(g)
    ensures cleared == Ideal(g, Flags(g), EMPTY_LINE)
    ensures Cells(cleared) + ROWS * Trues(Flags(g)) == Cells(g)
  {
    ClearCells(g, Flags(g));
    assert g[0] == EMPTY_LINE && !g[0][0];
    ClearIsIdealIff(g, Flags(g), EMPTY_LINE);
  }

  /** A tick ends the game exactly when the mino locks and either overlaps the field where
      it stands or leaves something in the top line.  Overlap alone does not end it. */
  lemma TickEndsGameIff(g: Game, kind: nat, angle: nat)
    requires g.Inv() && !g.over
    ensures TimerTick(g, kind, angle).over <==>
      LocksNow(g) && (Hit(g.grid, g.Mino(), g.x, g.y) || !IsEmpty(Locked(g)[0]))
  {
  }

  lemma StartInv(kind: nat, angle: nat)
    requires kind < MINO_TYPE_MAX && angle < MINO_ANGLE_MAX
    ensures Start(kind, angle).Inv()
  {
    SpawnInBounds(Shape(kind, angle));
    assert !EMPTY_LINE[0];
    assert forall l :: 0 <= l < LINES ==> !BlankGrid()[l][0];
  }

  lemma {:induction false} EmptyCells(lines: seq<seq<bool>>, n: nat)
    requires n <= |lines| && forall l :: 0 <= l < |lines| ==> IsEmpty(lines[l])
    ensures CellsUpTo(lines, n) == 0
  {
    if n > 0 {
      EmptyCells(lines, n - 1);
      TruesExtremes(lines[n - 1]);
    }
  }

  lemma SlideKeepsInv(g: Game, dx: nat, dy: int)
    requires g.Inv() && !g.over
    ensures Slide(g, dx, dy).Inv()
  {
    if !Hit(g.grid, g.Mino(), g.x + dx, g.y + dy) { FreeIsInBounds(g.grid, g.Mino(), g.x + dx, g.y + dy); }
  }

  lemma TurnKeepsInv(g: Game)
    requires g.Inv() && !g.over
    ensures Turn(g).Inv()
  {
    var turned := Shape(g.kind, (g.angle + 1) % MINO_ANGLE_MAX);
    if !Hit(g.grid, turned, g.x, g.y) { FreeIsInBounds(g.grid, turned, g.x, g.y); }
  }

  lemma KeyKeepsInv(g: Game, ch: char)
    requires g.Inv() && !g.over
    ensures var next := PressKey(g, ch);
      next.Inv() && !next.over && next.grid == g.grid && next.x >= g.x
  {
    match ch
    case 'l' => SlideKeepsInv(g, 0, 1);
    case 'r' => SlideKeepsInv(g, 0, -1);
    case 'd' => SlideKeepsInv(g, 1, 0);
    case 'u' => TurnKeepsInv(g);
    case _ =>
  }

  lemma TickKeepsInv(g: Game, kind: nat, angle: nat)
    requires g.Inv() && !g.over && kind < MINO_TYPE_MAX && angle < MINO_ANGLE_MAX
    ensures TimerTick(g, kind, angle).Inv()
  {
    if !LocksNow(g) {
      FreeIsInBounds(g.grid, g.Mino(), g.x + 1, g.y);
    } else {
      FasterClosed(g.interval, Trues(Flags(Locked(g))));
      if Continues(g) {
        ContinuingTop(g);
        SpawnInBounds(Shape(kind, angle));
      }
    }
  }

  // ----- whole games -----

  ghost predicate AllTyped(events: seq<Event>) {
    forall i :: 0 <= i < |events| ==> events[i].Typed()
  }

  /** The game after the events.  In every reachable state of a game in progress no line
      is full, the top line is empty and the mino lies inside the field. */
  ghost function Run(g: Game, events: seq<Event>): (r: Game)
    requires g.Inv() && AllTyped(events)
    ensures r.Inv()
  {
    if events == [] then g
    else
      var before := Run(g, events[..|events| - 1]);
      var e := events[|events| - 1];
      StepKeepsInv(before, e);
      Step(before, e)
  }

  // ----- no gaps -----

  /** The occupied lines reach down to the last line without a gap. */
  ghost predicate NoGaps(g: Grid) {
    forall l, m :: 0 <= l <= m < LINES && !IsEmpty(g[l]) ==> !IsEmpty(g[m])
  }

  lemma LockedLineEmptyIff(g: Grid, s: Mino, x: nat, y: int, l: nat)
    requires InBounds(s, x, y) && l < LINES
    ensures IsEmpty(Lock(g, s, x, y)[l]) <==> IsEmpty(g[l]) && !InColumn(s, l - x)
  {
    var line := LockLine(g[l], s, l - x, y);
    if InColumn(s, l - x) {
      var i :| 0 <= i < MINO_HEIGHT && Occupied(s, i, l - x);
      assert line[y + i];
    }
    if !IsEmpty(g[l]) {
      var k :| 0 <= k < ROWS && g[l][k];
      assert line[k];
    }
  }

  /** A mino that stands where one more line would hit rests on something. */
  lemma LockNoGaps(g: Grid, s: Mino, x: nat, y: int)
    requires NoGaps(g) && InBounds(s, x, y) && Compact(s) && Hit(g, s, x + 1, y)
    ensures NoGaps(Lock(g, s, x, y))
  {
    var i, c :| 0 <= i < MINO_HEIGHT && 0 <= c < MINO_COLUMNS && Occupied(s, i, c) && Blocked(g, x + 1 + c, y + i);
    assert InColumn(s, c);
    assert x + 1 + c < LINES ==> !IsEmpty(g[x + 1 + c]);
    forall l, m | 0 <= l <= m < LINES && !IsEmpty(Lock(g, s, x, y)[l]) ensures !IsEmpty(Lock(g, s, x, y)[m]) {
      LockedLineEmptyIff(g, s, x, y, l);
      LockedLineEmptyIff(g, s, x, y, m);
      if IsEmpty(g[l]) && m - x <= c { ColumnsBetween(s, l - x, m - x, c); }
    }
  }

  lemma ClearNoGaps(g: Grid)
    requires NoGaps(g)
    ensures NoGaps(Clear(g))
  {
    var full := Flags(g);
    PassLines(g, full);
    forall l, m | 0 <= l <= m < LINES && !IsEmpty(Clear(g)[l]) ensures !IsEmpty(Clear(g)[m]) {
      SourcesInOrder(full, l, m);
      assert Clear(g)[l] == g[Sources(full)[l]] && Clear(g)[m] == g[Sources(full)[m]];
    }
  }

  lemma TickKeepsNoGaps(g: Game, kind: nat, angle: nat)
    requires g.Inv() && !g.over && NoGaps(g.grid)
    ensures NoGaps(TimerTick(g, kind, angle).grid)
  {
    if LocksNow(g) {
      ShapeIsCompact(g.kind, g.angle);
      LockNoGaps(g.grid, g.Mino(), g.x, g.y);
      ClearNoGaps(Locked(g));
    }
  }

  /** In every reachable game the occupied lines have no gap: nothing floats over an empty
      line, whatever lines have been cleared. */
  lemma {:induction false} RunHasNoGaps(g: Game, events: seq<Event>)
    requires g.Inv() && NoGaps(g.grid) && AllTyped(events)
    ensures NoGaps(Run(g, events).grid)
  {
    if events != [] {
      var front := events[..|events| - 1];
      RunHasNoGaps(g, front);
      var before, e := Run(g, front), events[|events| - 1];
      if !before.over {
        match e
        case Key(ch) => KeyKeepsInv(before, ch);
        case Tick(kind, angle) => TickKeepsNoGaps(before, kind, angle);
      }
    }
  }

  /** Running on by one event. */
  lemma RunStep(g: Game, events: seq<Event>, i: nat)
    requires g.Inv() && AllTyped(events) && i < |events|
    ensures Run(g, events[..i + 1]) == Step(Run(g, events[..i]), events[i])
  {
    assert events[..i + 1][..i] == events[..i];
  }

  /** Once the game is over nothing changes it. */
  lemma {:induction false} OverStaysOver(g: Game, events: seq<Event>, i: nat)
    requires g.Inv() && AllTyped(events) && i <= |events|
    requires Run(g, events[..i]).over
    ensures Run(g, events) == Run(g, events[..i])
    decreases |events| - i
  {
    if i < |events| {
      RunStep(g, events, i);
      OverStaysOver(g, events, i + 1);
    } else {
      assert events[..i] == events;
    }
  }

  lemma StepKeepsInv(g: Game, e: Event)
    requires g.Inv() && e.Typed()
    ensures Step(g, e).Inv()
  {
    if !g.over {
      match e
      case Key(ch) => KeyKeepsInv(g, ch);
      case Tick(kind, angle) => TickKeepsInv(g, kind, angle);
    }
  }

  /** What happened in a run: minos locked, their cells, lines cleared, and the number of
      locks that cleared some line. */
  datatype Ledger = Ledger(locks: nat, cells: nat, lines: nat, clears: nat)

  ghost function Account(g: Game, e: Event, l: Ledger): Ledger
    requires g.Inv()
  {
    if g.over || e.Key? || !Continues(g) then l
    else
      var n := Trues(Flags(Locked(g)));
      Ledger(l.locks + 1, l.cells + g.Mino().Cells(), l.lines + n, l.clears + if n > 0 then 1 else 0)
  }

  ghost function Accounts(g: Game, events: seq<Event>): Ledger
    requires g.Inv() && AllTyped(events)
  {
    if events == [] then Ledger(0, 0, 0, 0)
    else
      var front := events[..|events| - 1];
      Account(Run(g, front), events[|events| - 1], Accounts(g, front))
  }

  ghost predicate Sums(cells: nat, score: nat, pace: int, l: Ledger) {
    && cells + ROWS * l.lines == l.cells
    && score + 210 * l.clears == 10 * l.locks + 300 * l.lines
    && pace == Max(1000000 - 100000 * l.lines, 300000)
  }

  ghost predicate Balanced(g: Game, l: Ledger) {
    Sums(Cells(g.grid), g.score, g.interval, l)
  }

  lemma LockKeepsBalance(g: Game, kind: nat, angle: nat, l: Ledger)
    requires g.Inv() && !g.over && Continues(g) && Balanced(g, l)
    ensures Balanced(TimerTick(g, kind, angle), Account(g, Tick(kind, angle), l))
  {
    ContinuingLock(g, kind, angle);
    var next := TimerTick(g, kind, angle);
    OneMoreEntry(l, g.Mino().Cells(), Trues(Flags(Locked(g))),
                 Cells(g.grid), g.score, g.interval, Cells(next.grid), next.score, next.interval);
  }

  lemma OneMoreEntry(l: Ledger, m: nat, n: nat, cells: nat, score: nat, pace: int, cells': nat, score': nat, pace': int)
    requires Sums(cells, score, pace, l)
    requires cells' + ROWS * n == cells + m
    requires score' == score + 10 + (if n == 0 then 0 else 300 * n - 210)
    requires pace' == Max(pace - 100000 * n, 300000)
    ensures Sums(cells', score', pace',
      Ledger(l.locks + 1, l.cells + m, l.lines + n, l.clears + if n > 0 then 1 else 0))
  {
  }

  lemma StepKeepsBalance(g: Game, e: Event, l: Ledger)
    requires g.Inv() && e.Typed() && !g.over && Balanced(g, l)
    ensures !Step(g, e).over ==> Balanced(Step(g, e), Account(g, e, l))
  {
    match e
    case Key(ch) => KeyKeepsInv(g, ch);
    case Tick(kind, angle) => if Continues(g) { LockKeepsBalance(g, kind, angle, l); }
  }

  ghost predicate AtStart(g: Game) {
    g.score == 0 && g.interval == 1000000 && Cells(g.grid) == 0
  }

  lemma StartIsAtStart(g: Game, kind: nat, angle: nat)
    requires g == Start(kind, angle)
    ensures AtStart(g) && NoGaps(g.grid) && !g.over
    ensures g.x == 0 && g.y == 3 && g.kind == kind && g.angle == angle
  {
    EmptyCells(g.grid, |g.grid|);
  }

  /** The books of every game balance while it goes on: cells on the field are the cells of
      all minos locked less eight for each line cleared, and the score and the speed depend
      on nothing but the totals. */
  lemma {:induction false} BooksBalance(g: Game, events: seq<Event>)
    requires g.Inv() && !g.over && AtStart(g) && AllTyped(events)
    ensures !Run(g, events).over ==> Balanced(Run(g, events), Accounts(g, events))
  {
    if events != [] {
      var front := events[..|events| - 1];
      BooksBalance(g, front);
      if !Run(g, front).over {
        StepKeepsBalance(Run(g, front), events[|events| - 1], Accounts(g, front));
      }
    }
  }

  ghost function Ticks(events: seq<Event>): nat {
    if events == [] then 0
    else Ticks(events[..|events| - 1]) + if events[|events| - 1].Tick? then 1 else 0
  }

  /** Some tick of the run locks a mino (and so ends the game or brings the next mino). */
  ghost predicate SomeLock(g: Game, events: seq<Event>)
    requires g.Inv() && AllTyped(events)
  {
    events != [] &&
    var front := events[..|events| - 1];
    SomeLock(g, front) || (events[|events| - 1].Tick? && LocksNow(Run(g, front)))
  }

  lemma StepWithoutLock(g: Game, e: Event)
    requires g.Inv() && !g.over && e.Typed() && (e.Tick? ==> !LocksNow(g))
    ensures !Step(g, e).over && Step(g, e).x >= g.x + if e.Tick? then 1 else 0
  {
    if e.Key? { KeyKeepsInv(g, e.ch); }
  }

  lemma {:induction false} FallsUntilLock(g: Game, events: seq<Event>)
    requires g.Inv() && !g.over && AllTyped(events) && !SomeLock(g, events)
    ensures !Run(g, events).over && Run(g, events).x >= g.x + Ticks(events)
  {
    if events != [] {
      var front := events[..|events| - 1];
      FallsUntilLock(g, front);
      StepWithoutLock(Run(g, front), events[|events| - 1]);
    }
  }

  /** Whatever keys are pressed, a mino locks within 15 ticks of appearing, and within
      15 - x ticks from line x. */
  lemma LocksInTime(g: Game, events: seq<Event>)
    requires g.Inv() && !g.over && AllTyped(events)
    requires Ticks(events) >= LINES - g.x
    ensures SomeLock(g, events)
  {
    if !SomeLock(g, events) {
      FallsUntilLock(g, events);
      var end := Run(g, events);
      DepthBound(end.Mino(), end.x, end.y);
    }
  }

  lemma RowsLeftFree(line: seq<bool>, s: Mino, c: int, y: int) returns (k: nat)
    requires |line| == ROWS && IsEmpty(line)
    ensures 1 <= k < ROWS && !LockLine(line, s, c, y)[k]
  {
    k := if y <= 3 then 7 else 1;
  }

  /** Only four rows of the top line can be taken by one mino, so after the clear pass that
      line is never occupied in all of rows 1 to 7. */
  lemma TopLineHasRoom(g: Game)
    requires g.Inv() && !g.over
    ensures exists k :: 1 <= k < ROWS && !Clear(Locked(g))[0][k]
  {
    var k := RowsLeftFree(g.grid[0], g.Mino(), 0 - g.x, g.y);
    assert !Clear(Locked(g))[0][k];
  }
}
