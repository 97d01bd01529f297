/** What keys and ticks do, said on the cells that the mino covers. */
module TetrisMoves {
  import opened LineClear
  import opened MinoShapes
  import opened MinoTurns
  import opened TetrisRules

  /** The mino covers row k of line l. */
  predicate Covers(g: Game, l: int, k: int)
    requires g.Typed()
  {
    Occupied(Shape(g.kind, g.angle), k - g.y, l - g.x)
  }

  predicate IsFree(g: Grid, l: int, k: int) {
    0 <= l < LINES && 0 <= k < ROWS && !g[l][k]
  }

  /** All cells of the mino are inside and free once moved by so many lines and rows. */
  ghost predicate FreeBy(g: Game, lines: int, rows: int)
    requires g.Typed()
  {
    forall l: int, k: int {:trigger Covers(g, l, k)} :: Covers(g, l, k) ==> IsFree(g.grid, l + lines, k + rows)
  }

  /** The mino covers the old cells, moved by so many lines and rows, and nothing else has
      changed. */
  ghost predicate MovedBy(g: Game, next: Game, lines: int, rows: int)
    requires g.Typed()
  {
    && next == g.(x := next.x, y := next.y)
    && forall l: int, k: int {:trigger Covers(g, l, k)} :: Covers(g, l, k) <==> Covers(next, l + lines, k + rows)
  }

  lemma HitIffNotFree(g: Game, lines: int, rows: int)
    requires g.Typed()
    ensures Hit(g.grid, g.Mino(), g.x + lines, g.y + rows) <==> !FreeBy(g, lines, rows)
  {
    var s := g.Mino();
    if Hit(g.grid, s, g.x + lines, g.y + rows) {
      var i, c :| 0 <= i < MINO_HEIGHT && 0 <= c < MINO_COLUMNS && Occupied(s, i, c)
                  && Blocked(g.grid, g.x + lines + c, g.y + rows + i);
      assert Covers(g, g.x + c, g.y + i) && !IsFree(g.grid, g.x + c + lines, g.y + i + rows);
    }
    if !FreeBy(g, lines, rows) {
      var l, k :| Covers(g, l, k) && !IsFree(g.grid, l + lines, k + rows);
      assert Occupied(s, k - g.y, l - g.x);
      assert Blocked(g.grid, g.x + lines + (l - g.x), g.y + rows + (k - g.y));
    }
  }

  lemma MovedCovers(g: Game, next: Game, lines: int, rows: int)
    requires g.Typed() && g.x + lines >= 0 && next == g.(x := g.x + lines, y := g.y + rows)
    ensures MovedBy(g, next, lines, rows)
  {
    forall l: int, k: int ensures Covers(g, l, k) <==> Covers(next, l + lines, k + rows) {
      assert k + rows - next.y == k - g.y && l + lines - next.x == l - g.x;
    }
  }

  /** 'l' moves the mino to the next row, 'r' to the row before and 'd' one line on, exactly
      if all its cells are inside and free there; otherwise nothing changes. */
  lemma MoveKeys(g: Game, ch: char, lines: int, rows: int)
    requires g.Typed() && InBounds(g.Mino(), g.x, g.y)
    requires (ch == 'l' && lines == 0 && rows == 1) || (ch == 'r' && lines == 0 && rows == -1)
          || (ch == 'd' && lines == 1 && rows == 0)
    ensures FreeBy(g, lines, rows) ==> MovedBy(g, PressKey(g, ch), lines, rows)
    ensures !FreeBy(g, lines, rows) ==> PressKey(g, ch) == g
  {
    HitIffNotFree(g, lines, rows);
    if FreeBy(g, lines, rows) { MovedCovers(g, PressKey(g, ch), lines, rows); }
  }

  /** The place of a cell after the quarter turn: its row becomes the line, counted back. */
  function TurnedLine(g: Game, k: int): int {
    g.x + g.y + TurnColumns(g.kind, g.angle) - k
  }

  function TurnedRow(g: Game, l: int): int {
    l + g.y - g.x + TurnRows(g.kind, g.angle)
  }

  ghost predicate FreeTurned(g: Game)
    requires g.Typed()
  {
    forall l: int, k: int :: Covers(g, l, k) ==> IsFree(g.grid, TurnedLine(g, k), TurnedRow(g, l))
  }

  ghost predicate QuarterTurned(g: Game, next: Game)
    requires g.Typed()
  {
    && next == g.(angle := (g.angle + 1) % MINO_ANGLE_MAX)
    && forall l: int, k: int :: Covers(g, l, k) <==> Covers(next, TurnedLine(g, k), TurnedRow(g, l))
  }

  lemma TurnedAt(s: Mino, s': Mino, p: int, q: int, i: int, c: int, i': int, c': int)
    requires TurnedTo(s, s', p, q) && i' == c + p && c' == q - i
    ensures Occupied(s, i, c) <==> Occupied(s', i', c')
  {
  }

  lemma TurnedCell(g: Game, next: Game, l: int, k: int)
    requires g.Typed() && next == g.(angle := (g.angle + 1) % MINO_ANGLE_MAX)
    ensures Covers(g, l, k) <==> Covers(next, TurnedLine(g, k), TurnedRow(g, l))
  {
    NextAngleIsQuarterTurn(g.kind, g.angle);
    TurnedAt(Shape(g.kind, g.angle), Shape(next.kind, next.angle), TurnRows(g.kind, g.angle),
             TurnColumns(g.kind, g.angle), k - g.y, l - g.x, TurnedRow(g, l) - next.y, TurnedLine(g, k) - next.x);
  }

  lemma TurnedCovers(g: Game, next: Game)
    requires g.Typed() && next == g.(angle := (g.angle + 1) % MINO_ANGLE_MAX)
    ensures QuarterTurned(g, next)
  {
    forall l: int, k: int ensures Covers(g, l, k) <==> Covers(next, TurnedLine(g, k), TurnedRow(g, l)) {
      TurnedCell(g, next, l, k);
    }
  }

  lemma FreeIfFreeTurned(g: Game, next: Game)
    requires g.Typed() && next == g.(angle := (g.angle + 1) % MINO_ANGLE_MAX) && FreeTurned(g)
    ensures FreeBy(next, 0, 0)
  {
    forall l: int, k: int | Covers(next, l, k) ensures IsFree(next.grid, l + 0, k + 0) {
      var l', k' := k - g.y + g.x - TurnRows(g.kind, g.angle), g.x + g.y + TurnColumns(g.kind, g.angle) - l;
      assert TurnedLine(g, k') == l && TurnedRow(g, l') == k;
      TurnedCell(g, next, l', k');
    }
  }

  lemma FreeTurnedIfFree(g: Game, next: Game)
    requires g.Typed() && next == g.(angle := (g.angle + 1) % MINO_ANGLE_MAX) && FreeBy(next, 0, 0)
    ensures FreeTurned(g)
  {
    forall l: int, k: int | Covers(g, l, k) ensures IsFree(g.grid, TurnedLine(g, k), TurnedRow(g, l)) {
      TurnedCell(g, next, l, k);
      assert IsFree(next.grid, TurnedLine(g, k) + 0, TurnedRow(g, l) + 0);
    }
  }

  /** 'u' turns the mino by a quarter, exactly if all its cells are inside and free then;
      otherwise nothing changes. */
  lemma TurnKey(g: Game, ch: char)
    requires g.Typed() && InBounds(g.Mino(), g.x, g.y) && ch == 'u'
    ensures FreeTurned(g) ==> QuarterTurned(g, PressKey(g, ch))
    ensures !FreeTurned(g) ==> PressKey(g, ch) == g
  {
    var next := g.(angle := (g.angle + 1) % MINO_ANGLE_MAX);
    HitIffNotFree(next, 0, 0);
    if FreeTurned(g) {
      FreeIfFreeTurned(g, next);
      TurnedCovers(g, next);
    } else if FreeBy(next, 0, 0) {
      FreeTurnedIfFree(g, next);
    }
  }

  /** All places up to d lines on are free. */
  ghost predicate FreeThrough(g: Game, d: int)
    requires g.Typed()
  {
    forall j :: 0 < j <= d ==> FreeBy(g, j, 0)
  }

  /** As far as free places go: d lines on, and no further. */
  ghost predicate DroppedBy(g: Game, next: Game, d: int)
    requires g.Typed()
  {
    d >= 0 && MovedBy(g, next, d, 0) && FreeThrough(g, d) && !FreeBy(g, d + 1, 0)
  }

  lemma FreeAll(g: Game, d: nat)
    requires g.Typed() && Hit(g.grid, g.Mino(), g.x + d + 1, g.y)
    requires forall p :: g.x < p <= g.x + d ==> !Hit(g.grid, g.Mino(), p, g.y)
    ensures FreeThrough(g, d) && !FreeBy(g, d + 1, 0)
  {
    HitIffNotFree(g, d + 1, 0);
    forall j | 0 < j <= d ensures FreeBy(g, j, 0) {
      assert !Hit(g.grid, g.Mino(), g.x + j, g.y);
      HitIffNotFree(g, j, 0);
    }
  }

  lemma RestIsFree(g: Game, d: nat)
    requires g.Typed() && InBounds(g.Mino(), g.x, g.y) && g.x + d == Drop(g.grid, g.Mino(), g.x, g.y)
    ensures FreeThrough(g, d) && !FreeBy(g, d + 1, 0)
  {
    DropMeaning(g.grid, g.Mino(), g.x, g.y, g.x + d);
    FreeAll(g, d);
  }

  lemma Dropped(g: Game, next: Game, d: nat)
    requires g.Typed() && InBounds(g.Mino(), g.x, g.y)
    requires g.x + d == Drop(g.grid, g.Mino(), g.x, g.y) && next == g.(x := g.x + d)
    ensures DroppedBy(g, next, d)
  {
    RestIsFree(g, d);
    MovedCovers(g, next, d, 0);
  }

  /** 'f' moves the mino on by as many lines as it can go through free places. */
  lemma DropKey(g: Game, ch: char) returns (next: Game, d: nat)
    requires g.Typed() && InBounds(g.Mino(), g.x, g.y) && ch == 'f'
    ensures next == PressKey(g, ch)
    ensures DroppedBy(g, next, d)
  {
    d := Drop(g.grid, g.Mino(), g.x, g.y) - g.x;
    next := g.(x := g.x + d);
    Dropped(g, next, d);
  }

  lemma OtherKeys(g: Game, ch: char)
    requires g.Typed() && InBounds(g.Mino(), g.x, g.y) && ch !in {'l', 'r', 'd', 'u', 'f'}
    ensures PressKey(g, ch) == g
  {
  }

  // ----- ticks -----

  /** The cells of the mino are added to the field. */
  lemma LockedCells(g: Game, l: nat, k: nat)
    requires g.Typed() && l < LINES && k < ROWS
    ensures Locked(g)[l][k] <==> g.grid[l][k] || Covers(g, l, k)
  {
    assert Locked(g)[l] == LockLine(g.grid[l], g.Mino(), l - g.x, g.y);
  }

  /** A tick moves the mino one line on if all its cells are inside and free there. */
  lemma TickFalls(g: Game, kind: nat, angle: nat)
    requires g.Inv() && !g.over && FreeBy(g, 1, 0)
    ensures MovedBy(g, TimerTick(g, kind, angle), 1, 0)
  {
    HitIffNotFree(g, 1, 0);
    MovedCovers(g, TimerTick(g, kind, angle), 1, 0);
  }

  /** What is over, and what stands next. */
  ghost predicate LandedTo(g: Game, next: Game, kind: nat, angle: nat)
    requires g.Typed()
  {
    && next.grid == Clear(Locked(g))
    && if next.over then next == g.(grid := next.grid, interval := next.interval, over := true)
       else next.x == 0 && next.y == 3 && next.kind == kind && next.angle == angle
  }

  lemma Landed(g: Game, kind: nat, angle: nat)
    requires g.Typed() && !g.over && LocksNow(g)
    ensures LandedTo(g, TimerTick(g, kind, angle), kind, angle)
  {
  }

  lemma OverIff(g: Game, kind: nat, angle: nat)
    requires g.Inv() && !g.over && LocksNow(g)
    ensures TimerTick(g, kind, angle).over <==> (!FreeBy(g, 0, 0) || exists k :: 0 <= k < ROWS && Locked(g)[0][k])
  {
    HitIffNotFree(g, 0, 0);
    TickEndsGameIff(g, kind, angle);
  }

  /** Otherwise the mino lands: its cells stay in the field, full lines go, and the game is
      over exactly if the mino overlapped or something is left in the top line; if not, the
      next mino stands at line 0 and row 3 as it was drawn. */
  lemma TickLands(g: Game, kind: nat, angle: nat)
    requires g.Inv() && !g.over && !FreeBy(g, 1, 0)
    ensures LandedTo(g, TimerTick(g, kind, angle), kind, angle)
    ensures TimerTick(g, kind, angle).over <==> (!FreeBy(g, 0, 0) || exists k :: 0 <= k < ROWS && Locked(g)[0][k])
  {
    HitIffNotFree(g, 1, 0);
    Landed(g, kind, angle);
    OverIff(g, kind, angle);
  }
}
