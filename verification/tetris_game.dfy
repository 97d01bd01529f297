/** The game as the program runs it: global variables updated in place, tied at every step
    to the state machine on cells. */
module TetrisGame {
  import opened MinoShapes
  import opened LineClear
  import opened TetrisRules
  import opened FieldClear
  import opened TetrisField

  const MOVE_X := 8
  const FIELD_WIDTH := 128

  datatype Variables =
    Variables(minoX: int, minoY: int, minoType: int, minoAngle: int, score: int, interval: int, over: bool)

  /** The variables of the program for a game: columns are counted in bytes. */
  function VariablesOf(g: Game): Variables {
    Variables(MOVE_X * g.x, g.y, g.kind, g.angle, g.score, g.interval, g.over)
  }

  class Tetris {
    const field: array2<bv8>
    var minoX: int
    var minoY: int
    var minoType: int
    var minoAngle: int
    var score: int
    var interval: int
    /** The program waits on the game over screen. */
    var over: bool

    /** The game on cells that the variables stand for. */
    ghost var game: Game

    ghost function Now(): Variables
      reads this
    {
      Variables(minoX, minoY, minoType, minoAngle, score, interval, over)
    }

    /** Holds whenever the program reads a key or looks at the clock. */
    ghost predicate Valid()
      reads this, field
    {
      Shown(field) == Picture(game.grid) && Now() == VariablesOf(game)
    }

    constructor (kind: nat, angle: nat)
      requires kind < MINO_TYPE_MAX && angle < MINO_ANGLE_MAX
      ensures Valid() && fresh(field) && game == Start(kind, angle)
    {
      field := new bv8[HEIGHT, WIDTH];
      minoX, minoY, minoType, minoAngle := 0, 3, kind, angle;
      score, interval, over := 0, 1000000, false;
      game := Start(kind, angle);
      new;
      ClearField(field);
    }

    method HandleKey(key: char)
      requires Valid() && game.Inv() && !over
      modifies this
      ensures Valid() && game == PressKey(old(game), key)
    {
      match key
      case 'l' => MoveSideways(1);
      case 'r' => MoveSideways(-1);
      case 'd' => MoveDown();
      case 'u' => TurnMino();
      case 'f' => HardDrop();
      case _ =>
    }

    /** The collision test for the mino turned to some angle, and moved by d lines and dy rows. */
    method HitAt(d: int, dy: int, angle: int) returns (hit: bool)
      requires Valid() && game.Inv() && !over && 0 <= angle < MINO_ANGLE_MAX
      ensures hit == Hit(game.grid, Shape(game.kind, angle), game.x + d, game.y + dy)
    {
      hit := IsHit(field, minoX + MOVE_X * d, minoY + dy, Shape(minoType, angle), game.x + d, game.grid);
    }

    /** The two tests of a tick: where the mino stands, and a line below. */
    method TickTests() returns (here: bool, below: bool)
      requires Valid() && game.Inv() && !over
      ensures here == Hit(game.grid, game.Mino(), game.x, game.y)
      ensures below == LocksNow(game)
    {
      assert minoAngle == game.angle;
      here := HitAt(0, 0, minoAngle);
      below := HitAt(1, 0, minoAngle);
    }

    method MoveSideways(dy: int)
      requires Valid() && game.Inv() && !over
      modifies this`minoY, this`game
      ensures Valid() && game == Slide(old(game), 0, dy)
    {
      var hit := HitAt(0, dy, minoAngle);
      ghost var next := Slide(game, 0, dy);
      if !hit {
        minoY := minoY + dy;
      }
      game := next;
    }

    method MoveDown()
      requires Valid() && game.Inv() && !over
      modifies this`minoX, this`game
      ensures Valid() && game == Slide(old(game), 1, 0)
    {
      var hit := HitAt(1, 0, minoAngle);
      if !hit {
        Fall(Slide(game, 1, 0));
      }
    }

    method TurnMino()
      requires Valid() && game.Inv() && !over
      modifies this`minoAngle, this`game
      ensures Valid() && game == Turn(old(game))
    {
      var turned := (minoAngle + 1) % MINO_ANGLE_MAX;
      var hit := HitAt(0, 0, turned);
      ghost var next := Turn(game);
      if !hit {
        minoAngle := turned;
      }
      game := next;
    }

    /** One round of the drop loop: down by a line, or at rest already. */
    method DropStep(ghost rest: nat)
      requires Valid() && game.Inv() && !over && rest == Drop(game.grid, game.Mino(), game.x, game.y)
      modifies this`minoX, this`game
      ensures Valid() && game.Inv() && !over && game == old(game).(x := game.x)
      ensures rest == Drop(game.grid, game.Mino(), game.x, game.y)
      ensures rest == game.x || game.x == old(game.x) + 1
    {
      SlideKeepsInv(game, 1, 0);
      MoveDown();
    }

    /** The loop takes at most 15 steps, which is enough from any line. */
    method HardDrop()
      requires Valid() && game.Inv() && !over
      modifies this`minoX, this`game
      ensures Valid() && game == PressKey(old(game), 'f')
    {
      ghost var start := game;
      ghost var rest := Drop(game.grid, game.Mino(), game.x, game.y);
      ghost var n := 0;
      var i := MOVE_X;
      while i < FIELD_WIDTH
        invariant i == MOVE_X * (n + 1) && n <= 15
        invariant Valid() && game.Inv() && !over && game == start.(x := game.x)
        invariant rest == Drop(game.grid, game.Mino(), game.x, game.y)
        invariant rest == game.x || game.x >= n
      {
        DropStep(rest);
        i := i + MOVE_X;
        n := n + 1;
      }
      DepthBound(start.Mino(), rest, start.y);
    }

    /** Draws the mino into the field and clears the full lines.  The extra round of the
        clear loop finds its line not full, whatever lies beyond the field. */
    method LockAndClear(beyond: bv8, ghost cleared: Grid) returns (filled: nat)
      requires Valid() && game.Inv() && !over && cleared == Clear(Locked(game))
      modifies this`interval, field
      ensures Shown(field) == Picture(cleared)
      ensures filled == Trues(Flags(Locked(game))) && interval == Faster(old(interval), filled)
    {
      LockMino(field, minoX, minoY, Shape(minoType, minoAngle), game.x, game.grid);
      filled, interval := ClearFullLines(field, interval, Locked(game));
      TopLineHasRoom(game);
      var sixteenth := SixteenthLineFull(field, beyond, cleared);
      assert !sixteenth;
    }

    /** A timer tick: next is what the rules make of the game. */
    method Tick(kind: nat, angle: nat, beyond: bv8, ghost next: Game)
      requires Valid() && game.Inv() && !over && kind < MINO_TYPE_MAX && angle < MINO_ANGLE_MAX
      requires next == TimerTick(game, kind, angle)
      modifies this, field
      ensures Valid() && game == next
    {
      var isGameOver, landed := TickTests();
      if landed {
        LandingFields(game, kind, angle);
        Land(isGameOver, kind, angle, beyond, Clear(Locked(game)), next);
      } else {
        Fall(next);
      }
    }

    method Fall(ghost next: Game)
      requires Valid() && next == game.(x := game.x + 1)
      modifies this`minoX, this`game
      ensures Valid() && game == next
    {
      minoX := minoX + MOVE_X;
      game := next;
    }

    method Land(hit: bool, kind: nat, angle: nat, beyond: bv8, ghost cleared: Grid, ghost next: Game)
      requires Valid() && game.Inv() && !over
      requires cleared == Clear(Locked(game))
      requires IsLanding(game, cleared, Trues(Flags(Locked(game))), hit || !IsEmpty(cleared[0]), kind, angle, next)
      modifies this, field
      ensures Valid() && game == next
    {
      var isGameOver := hit;
      var filled := LockAndClear(beyond, cleared);
      var touched := TopTouched(field, cleared);
      if touched {
        isGameOver := true;
      }
      Settle(isGameOver, filled, kind, angle, cleared, next);
    }

    /** The end of a landing: game over, or the next mino and the score. */
    method Settle(isGameOver: bool, filled: nat, kind: nat, angle: nat, ghost cleared: Grid, ghost next: Game)
      requires Shown(field) == Picture(cleared) && !game.over
      requires IsLanding(game, cleared, filled, isGameOver, kind, angle, next)
      requires Now() == VariablesOf(game).(interval := Faster(game.interval, filled))
      modifies this
      ensures Valid() && game == next
    {
      if isGameOver {
        over := true;
      } else {
        ResetMino(kind, angle);
        AddScore(filled);
      }
      game := next;
    }

    method HandleEvent(e: Event, beyond: bv8, ghost next: Game)
      requires Valid() && game.Inv() && !over && e.Typed() && next == Step(game, e)
      modifies this, field
      ensures Valid() && game == next
    {
      match e
      case Key(ch) => HandleKey(ch);
      case Tick(kind, angle) => Tick(kind, angle, beyond, next);
    }

    method PlayEvent(events: seq<Event>, i: nat, beyond: bv8, ghost start: Game)
      requires start.Inv() && AllTyped(events) && i < |events|
      requires Valid() && !over && game == Run(start, events[..i])
      modifies this, field
      ensures Valid() && game == Run(start, events[..i + 1])
    {
      RunStep(start, events, i);
      HandleEvent(events[i], beyond, Run(start, events[..i + 1]));
    }

    /** The game loop: keys and ticks in any order, with any minos, until they run out.  At
        each event any byte may lie beyond the field. */
    method Play(events: seq<Event>, beyond: seq<bv8>, ghost start: Game)
      requires Valid() && game == start && start.Inv() && AllTyped(events) && |beyond| == |events|
      modifies this, field
      ensures Valid() && game == Run(start, events)
    {
      var i := 0;
      while i < |events| && !over
        invariant 0 <= i <= |events| && Valid() && game == Run(start, events[..i])
      {
        PlayEvent(events, i, beyond[i], start);
        i := i + 1;
      }
      if over {
        OverStaysOver(start, events, i);
      } else {
        assert events[..i] == events;
      }
    }

    method AddScore(filled: nat)
      modifies this`score
      ensures score == old(score) + 10 + Bonus(filled)
    {
      score := score + 10;
      if filled == 1 {
        score := score + 90;
      } else if filled == 2 {
        score := score + 390;
      } else if filled == 3 {
        score := score + 690;
      } else if filled == 4 {
        score := score + 990;
      }
    }

    method ResetMino(kind: nat, angle: nat)
      modifies this`minoX, this`minoY, this`minoType, this`minoAngle
      ensures minoX == 0 && minoY == 3 && minoType == kind && minoAngle == angle
    {
      minoX := 0;
      minoY := 3;
      minoType := kind;
      minoAngle := angle;
    }
  }
}
