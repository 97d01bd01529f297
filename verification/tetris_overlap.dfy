/** A game in which a mino appears over occupied cells and the game goes on. */
module OverlapGame {
  import opened MinoShapes
  import opened LineClear
  import opened TetrisRules

  const PILLAR: seq<bool> := [false, false, false, false, true, false, false, false]

  /** Row 4 is occupied from line top down, and nothing else is. */
  function Pillar(top: nat): (g: Grid)
    requires top <= LINES
    ensures forall l :: 0 <= l < LINES ==> g[l] == if l < top then EMPTY_LINE else PILLAR
  {
    Repeat(EMPTY_LINE, top) + Repeat(PILLAR, LINES - top)
  }

  lemma PillarIs(g: Grid, top: nat)
    requires top <= LINES && forall l :: 0 <= l < LINES ==> g[l] == if l < top then EMPTY_LINE else PILLAR
    ensures g == Pillar(top)
  {
  }

  /** The straight mino, standing. */
  ghost predicate IsStraight(s: Mino) {
    forall i, c :: Occupied(s, i, c) <==> i == 1 && 0 <= c < 4
  }

  /** The bent mino that hangs over by one row. */
  ghost predicate IsBent(s: Mino) {
    forall i, c :: Occupied(s, i, c) <==> (c == 1 && 0 <= i <= 1) || (c == 2 && 1 <= i <= 2)
  }

  /** The mino of one cell. */
  ghost predicate IsDot(s: Mino) {
    forall i, c :: Occupied(s, i, c) <==> i == 0 && c == 1
  }

  lemma TheseShapes()
    ensures IsStraight(Shape(0, 0)) && IsBent(Shape(3, 0)) && IsDot(Shape(7, 0))
  {
  }

  lemma StraightHitsIff(s: Mino, top: nat, p: nat)
    requires IsStraight(s) && top <= LINES
    ensures Hit(Pillar(top), s, p, 3) <==> p + 3 >= top
  {
    if p + 3 >= top {
      assert Occupied(s, 1, 3) && Blocked(Pillar(top), p + 3, 3 + 1);
    }
  }

  lemma StraightDrops(s: Mino, top: nat)
    requires IsStraight(s) && HasCells(s) && InBounds(s, 0, 3) && 4 <= top <= LINES
    ensures Drop(Pillar(top), s, 0, 3) == top - 4
  {
    StraightHitsIff(s, top, top - 3);
    forall p | 0 < p <= top - 4 ensures !Hit(Pillar(top), s, p, 3) { StraightHitsIff(s, top, p); }
    DropMeaning(Pillar(top), s, 0, 3, top - 4);
  }

  lemma StraightLocks(s: Mino, top: nat)
    requires IsStraight(s) && 4 <= top <= LINES
    ensures Lock(Pillar(top), s, top - 4, 3) == Pillar(top - 4)
  {
    var locked := Lock(Pillar(top), s, top - 4, 3);
    forall l | 0 <= l < LINES ensures locked[l] == if l < top - 4 then EMPTY_LINE else PILLAR {
      assert locked[l] == LockLine(Pillar(top)[l], s, l - (top - 4), 3);
    }
    PillarIs(locked, top - 4);
  }

  lemma NothingFull(g: Grid)
    requires forall l :: 0 <= l < LINES ==> !IsFull(g[l])
    ensures Clear(g) == g
  {
    NothingToClear(g, Flags(g));
  }

  lemma PillarIsOpen(top: nat)
    requires top <= LINES
    ensures Clear(Pillar(top)) == Pillar(top)
  {
    forall l | 0 <= l < LINES ensures !IsFull(Pillar(top)[l]) { assert !Pillar(top)[l][0]; }
    NothingFull(Pillar(top));
  }

  lemma RunOn(g: Game, events: seq<Event>, e: Event)
    requires g.Inv() && AllTyped(events) && e.Typed()
    ensures AllTyped(events + [e]) && Run(g, events + [e]) == Step(Run(g, events), e)
  {
    assert (events + [e])[..|events|] == events;
  }

  /** A mino of this kind has just appeared over a pillar. */
  ghost predicate Standing(g: Game, top: nat, kind: nat) {
    && g.Inv() && !g.over && top <= LINES && g.grid == Pillar(top)
    && g.x == 0 && g.y == 3 && g.kind == kind && g.angle == 0
  }

  lemma StraightKey(g: Game, top: nat, ch: char)
    requires Standing(g, top, 0) && 4 <= top && ch == 'f'
    ensures PressKey(g, ch) == g.(x := top - 4) && PressKey(g, ch).Inv()
  {
    TheseShapes();
    StraightDrops(g.Mino(), top);
    KeyKeepsInv(g, ch);
  }

  lemma StraightTick(g: Game, top: nat, kind: nat, angle: nat)
    requires g.Inv() && !g.over && 5 <= top <= LINES && g.grid == Pillar(top)
    requires g.x == top - 4 && g.y == 3 && g.kind == 0 && g.angle == 0
    requires kind < MINO_TYPE_MAX && angle == 0
    ensures Standing(TimerTick(g, kind, angle), top - 4, kind)
  {
    TheseShapes();
    StraightHitsIff(g.Mino(), top, top - 3);
    StraightHitsIff(g.Mino(), top, top - 4);
    StraightLocks(g.Mino(), top);
    PillarIsOpen(top - 4);
    assert Pillar(top - 4)[0] == EMPTY_LINE;
    TickKeepsInv(g, kind, angle);
  }

  /** One straight mino more makes the pillar four lines higher. */
  lemma PillarGrows(start: Game, events: seq<Event>, top: nat, kind: nat) returns (more: seq<Event>)
    requires start.Inv() && AllTyped(events) && Standing(Run(start, events), top, 0)
    requires 5 <= top && kind < MINO_TYPE_MAX
    ensures AllTyped(more) && Standing(Run(start, more), top - 4, kind)
  {
    var g := Run(start, events);
    var drop, tick := Key('f'), Tick(kind, 0);
    RunOn(start, events, drop);
    StraightKey(g, top, drop.ch);
    RunOn(start, events + [drop], tick);
    StraightTick(Run(start, events + [drop]), top, kind, 0);
    more := events + [drop] + [tick];
  }

  /** What the bent mino leaves behind: a cell in row 3 on line 1 and none below it. */
  ghost predicate Overhang(g: Game) {
    && g.Inv() && !g.over && g.x == 0 && g.y == 3 && g.kind == 7 && g.angle == 0
    && g.grid[1][3] && !g.grid[2][3]
  }

  lemma BentLock(s: Mino, g: Grid, locked: Grid)
    requires IsBent(s) && g == Pillar(3) && locked == Lock(g, s, 0, 3)
    ensures locked[1][3] && !locked[2][3] && IsEmpty(locked[0]) && Clear(locked) == locked
  {
    forall l | 0 <= l < LINES ensures locked[l] == LockLine(g[l], s, l, 3) && !IsFull(locked[l]) {
      assert locked[l] == LockLine(g[l], s, l - 0, 3);
      assert !locked[l][0];
    }
    assert g[0] == EMPTY_LINE && g[2] == EMPTY_LINE;
    NothingFull(locked);
  }

  lemma BentHits(s: Mino, g: Grid)
    requires IsBent(s) && g == Pillar(3)
    ensures Hit(g, s, 1, 3) && !Hit(g, s, 0, 3)
  {
    assert g[3] == PILLAR;
    assert Occupied(s, 1, 2) && Blocked(g, 1 + 2, 3 + 1);
    forall i, c | 0 <= i < MINO_HEIGHT && 0 <= c < MINO_COLUMNS && Occupied(s, i, c) ensures !Blocked(g, 0 + c, 3 + i) {
      assert g[c] == EMPTY_LINE;
    }
  }

  lemma BentTick(g: Game, kind: nat, angle: nat)
    requires Standing(g, 3, 3) && kind == 7 && angle == 0
    ensures Overhang(TimerTick(g, kind, angle))
  {
    TheseShapes();
    BentHits(g.Mino(), g.grid);
    BentLock(g.Mino(), g.grid, Locked(g));
    TickKeepsInv(g, kind, angle);
  }

  lemma DotOverlaps(g: Game, kind: nat, angle: nat)
    requires Overhang(g)
    ensures Hit(g.grid, g.Mino(), g.x, g.y) && !TimerTick(g, kind, angle).over
  {
    TheseShapes();
    var s := g.Mino();
    assert Occupied(s, 0, 1) && Blocked(g.grid, 0 + 1, 3 + 0);
    assert !Hit(g.grid, s, 1, 3) by {
      forall i, c | Occupied(s, i, c) ensures !Blocked(g.grid, 1 + c, 3 + i) { assert i == 0 && c == 1; }
    }
  }

  /** The mino overlaps occupied cells, and no tick ends the game here. */
  ghost predicate GoesOn(g: Game) {
    g.Inv() && !g.over && Hit(g.grid, g.Mino(), g.x, g.y)
    && forall kind: nat, angle: nat :: !TimerTick(g, kind, angle).over
  }

  lemma OverhangGoesOn(g: Game)
    requires Overhang(g)
    ensures GoesOn(g)
  {
    forall kind: nat, angle: nat
      ensures !TimerTick(g, kind, angle).over && Hit(g.grid, g.Mino(), g.x, g.y)
    {
      DotOverlaps(g, kind, angle);
    }
    DotOverlaps(g, 0, 0);
  }

  ghost predicate OverlapsAndGoesOn(start: Game, events: seq<Event>) {
    start.Inv() && AllTyped(events) && GoesOn(Run(start, events))
  }

  lemma OverlapFromPillar(start: Game, pillar: seq<Event>) returns (events: seq<Event>)
    requires start.Inv() && AllTyped(pillar) && Standing(Run(start, pillar), 3, 3)
    ensures OverlapsAndGoesOn(start, events)
  {
    var tick := Tick(7, 0);
    RunOn(start, pillar, tick);
    events := pillar + [tick];
    BentStep(Run(start, pillar), tick);
    OverhangGoesOn(Run(start, events));
  }

  lemma BentStep(g: Game, tick: Event)
    requires Standing(g, 3, 3) && tick == Tick(7, 0)
    ensures Overhang(Step(g, tick))
  {
    BentTick(g, 7, 0);
  }

  lemma OverlapFromStanding(start: Game) returns (events: seq<Event>)
    requires Standing(start, LINES, 0)
    ensures OverlapsAndGoesOn(start, events)
  {
    events := [];
    events := PillarGrows(start, events, LINES, 0);
    events := PillarGrows(start, events, LINES - 4, 0);
    events := PillarGrows(start, events, LINES - 8, 3);
    events := OverlapFromPillar(start, events);
  }

  lemma StartStands(start: Game, kind: nat, angle: nat)
    requires kind == 0 && angle == 0 && start == Start(kind, angle)
    ensures Standing(start, LINES, 0)
  {
    StartInv(kind, angle);
    PillarIs(start.grid, LINES);
  }

  /** A game played from the start: three straight minos stand on each other, a bent one
      comes to rest on them in the first lines, and the next mino appears over it.  The
      program notes the overlap, but forgets it when the mino does not lock. */
  lemma OverlapCanGoOn(start: Game, kind: nat, angle: nat) returns (events: seq<Event>)
    requires kind == 0 && angle == 0 && start == Start(kind, angle)
    ensures OverlapsAndGoesOn(start, events)
  {
    StartStands(start, kind, angle);
    events := OverlapFromStanding(start);
  }
}
