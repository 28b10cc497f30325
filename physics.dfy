/** One tick of an agent's movement (`Player.move`) on values: the
    specification that the `Player` class is proved against. */
module Physics {
  import opened Genes
  import opened Wrappers
  import opened Geometry

  /** `Player.max_vel`: the upper bound of each velocity component. */
  const MaxVel: int := 5

  /** What `move` receives from the game: grid bounds, cell size in pixels,
      the walls in list order and the goal cell. */
  datatype World = World(width: int, height: int, offset: int, walls: seq<Rect>, goal: Cell)

  /** Every field of a `Player` that `move` may change (`vel` is split into
      `vx`, `vy`). */
  datatype PlayerState = PlayerState(x: int, y: int, vx: int, vy: int,
                                     index: int, numSteps: int, alive: bool, fitness: real)

  function Min(a: int, b: int): int {
    if a <= b then a else b
  }

  function Abs(v: int): nat {
    if v < 0 then -v else v
  }

  /** Python's `n ** 2`. */
  function Square(n: int): (r: nat)
    ensures n != 0 ==> r > 0
  {
    n * n
  }

  /** Velocity after adding an acceleration: clamped from above only, so
      the result is the smaller of `v` and `MaxVel`. */
  function Clamp(v: int): (r: int)
    ensures r <= MaxVel && r <= v && (r == v || r == MaxVel)
  {
    if v > MaxVel then MaxVel else v
  }

  /** The coordinate an axis snaps to after hitting a wall that spans
      [lo, lo + extent) pixels on that axis. Python's `//` floors; with a
      positive divisor Dafny's `/` floors as well. */
  function Snap(lo: int, extent: int, v: int, offset: int): int
    requires offset > 0
  {
    if v > 0 then lo / offset else (lo + extent) / offset - offset
  }

  /** Moving forward snaps to the column whose pixels hold the wall's first
      pixel `lo`; otherwise to `offset` columns before the column holding
      the pixel just past the wall, `lo + extent`. */
  lemma SnapColumn(lo: int, extent: int, v: int, offset: int)
    requires offset > 0
    ensures var r := Snap(lo, extent, v, offset);
      (v > 0 ==> r * offset <= lo < (r + 1) * offset) &&
      (v <= 0 ==> (r + offset) * offset <= lo + extent < (r + offset + 1) * offset)
  {
    var q := if v > 0 then lo else lo + extent;
    assert q / offset * offset <= q < (q / offset + 1) * offset;
  }

  /** The x phase: apply `vx`, then snap to the first wall hit, if any. */
  function MoveX(x: int, y: int, vx: int, walls: seq<Rect>, offset: int): int {
    match GetCollision(walls, x + vx, y, offset)
    case None => x + vx
    case Some(h) => Snap(h.x, h.width, vx, offset)
  }

  /** The y phase, taken from the x already moved. */
  function MoveY(x: int, y: int, vy: int, walls: seq<Rect>, offset: int): int {
    match GetCollision(walls, x, y + vy, offset)
    case None => y + vy
    case Some(h) => Snap(h.y, h.height, vy, offset)
  }

  predicate AtGoal(x: int, y: int, goal: Cell) {
    x == goal.x && y == goal.y
  }

  /** Manhattan distance from (x, y) to the goal. */
  function Distance(x: int, y: int, goal: Cell): nat {
    Abs(x - goal.x) + Abs(y - goal.y)
  }

  /** The fitness assigned on death: a distance term, plus a bonus for
      reaching the goal that shrinks with the number of steps taken. It lies
      in (0, 2]; reaching the goal scores above 1, any other death at most
      1/2. */
  function Fitness(x: int, y: int, goal: Cell, numSteps: int): (r: real)
    requires numSteps != 0
    ensures 0.0 < r <= 2.0
    ensures AtGoal(x, y, goal) ==> r > 1.0
    ensures !AtGoal(x, y, goal) ==> r <= 0.5
  {
    var d := Distance(x, y, goal);
    Reciprocal(1 + Square(d));
    Reciprocal(Square(numSteps));
    assert !AtGoal(x, y, goal) ==> d >= 1 && Square(d) >= 1;
    var base := 1.0 / ((1 + Square(d)) as real);
    if AtGoal(x, y, goal) then base + 1.0 / (Square(numSteps) as real) else base
  }

  /** The death test `move` applies after moving. A player that passes it
      has a gene left, is on the board, in no wall and at least one cell
      from the goal. */
  predicate Dies(s: PlayerState, size: int, w: World)
    ensures !Dies(s, size, w) ==>
      s.index < size && 0 <= s.x < w.width && 0 <= s.y < w.height &&
      Distance(s.x, s.y, w.goal) >= 1 &&
      forall j :: 0 <= j < |w.walls| ==> !Collide(w.walls[j], CellRect(s.x, s.y, w.offset))
  {
    s.index >= size ||
    GetCollision(w.walls, s.x, s.y, w.offset).Some? ||
    s.x < 0 || s.y < 0 || s.x >= w.width || s.y >= w.height ||
    AtGoal(s.x, s.y, w.goal)
  }

  /** Lines 27-33 of `move`: add the gene to the velocity, clamping each
      component from above. */
  function Accelerate(s: PlayerState, a: Accel): PlayerState {
    s.(vx := Clamp(s.vx + a.dx), vy := Clamp(s.vy + a.dy))
  }

  /** Lines 34-47: the x phase, then the y phase from the new x. */
  function Travel(s: PlayerState, walls: seq<Rect>, offset: int): PlayerState {
    var x := MoveX(s.x, s.y, s.vx, walls, offset);
    s.(x := x, y := MoveY(x, s.y, s.vy, walls, offset))
  }

  /** Lines 48-49: both counters advance. */
  function Advance(s: PlayerState): PlayerState {
    s.(index := s.index + 1, numSteps := s.numSteps + 1)
  }

  /** Lines 50-54: the death test, and the fitness computed on death. */
  function Judge(s: PlayerState, size: int, w: World): PlayerState
    requires s.numSteps != 0
  {
    if Dies(s, size, w) then s.(alive := false, fitness := Fitness(s.x, s.y, w.goal, s.numSteps))
    else s
  }

  /** `Player.move` on a state. */
  function Step(s: PlayerState, brain: seq<Accel>, size: int, w: World): PlayerState
    requires s.alive ==> 0 <= s.index < |brain| && s.numSteps >= 0
  {
    if !s.alive then s
    else Judge(Advance(Travel(Accelerate(s, brain[s.index]), w.walls, w.offset)), size, w)
  }

  /** What one move does: nothing to a dead player; to a live one, it
      advances both counters by one, clamps each velocity component from
      above only, moves x then y, kills the player exactly when the death
      test holds (computing its fitness then) and otherwise keeps fitness. */
  lemma StepFacts(s: PlayerState, brain: seq<Accel>, size: int, w: World)
    requires s.alive ==> 0 <= s.index < |brain| && s.numSteps >= 0
    ensures !s.alive ==> Step(s, brain, size, w) == s
    ensures s.alive ==>
      var r := Step(s, brain, size, w);
      r.index == s.index + 1 && r.numSteps == s.numSteps + 1 &&
      r.vx == Min(s.vx + brain[s.index].dx, MaxVel) &&
      r.vy == Min(s.vy + brain[s.index].dy, MaxVel) &&
      r.x == MoveX(s.x, s.y, r.vx, w.walls, w.offset) &&
      r.y == MoveY(r.x, s.y, r.vy, w.walls, w.offset) &&
      (!r.alive <==> Dies(r, size, w)) &&
      (!r.alive ==> r.fitness == Fitness(r.x, r.y, w.goal, r.numSteps)) &&
      (r.alive ==> r.fitness == s.fitness)
  {
  }

  /** The relation between a player's fields that every `move` and every
      reset keeps: the brain is `size` long, index and step counter agree,
      a live player still has a gene to read, fitness is not negative. */
  predicate Consistent(s: PlayerState, brain: seq<Accel>, size: int) {
    |brain| == size && 0 <= s.index <= size && s.numSteps == s.index &&
    (s.alive ==> s.index < size) && s.fitness >= 0.0
  }

  lemma Reciprocal(q: int)
    requires q >= 1
    ensures 0.0 < 1.0 / (q as real) <= 1.0
    ensures q >= 2 ==> 1.0 / (q as real) <= 0.5
  {
  }

  /** A player reached from this state by any move is again consistent. */
  lemma StepKeepsConsistent(s: PlayerState, brain: seq<Accel>, size: int, w: World)
    requires Consistent(s, brain, size)
    ensures Consistent(Step(s, brain, size, w), brain, size)
  {
  }

  /** The state after `n` moves. */
  function Run(s: PlayerState, brain: seq<Accel>, size: int, w: World, n: nat): (r: PlayerState)
    requires Consistent(s, brain, size)
    ensures Consistent(r, brain, size)
  {
    if n == 0 then s
    else
      var before := Run(s, brain, size, w, n - 1);
      StepKeepsConsistent(before, brain, size, w);
      Step(before, brain, size, w)
  }

  /** A player's grid cell. */
  function Position(s: PlayerState): Cell {
    Cell(s.x, s.y)
  }

  /** The cells a player occupies before each of its first `n` moves. */
  function Trace(s: PlayerState, brain: seq<Accel>, size: int, w: World, n: nat): (r: seq<Cell>)
    requires Consistent(s, brain, size)
    ensures |r| == n
  {
    if n == 0 then [] else Trace(s, brain, size, w, n - 1) + [Position(Run(s, brain, size, w, n - 1))]
  }

  /** Entry `t` of the trace is the cell after `t` moves. */
  lemma {:induction false} TraceAt(s: PlayerState, brain: seq<Accel>, size: int, w: World, n: nat, t: nat)
    requires Consistent(s, brain, size) && t < n
    ensures Trace(s, brain, size, w, n)[t] == Position(Run(s, brain, size, w, t))
  {
    if t < n - 1 {
      TraceAt(s, brain, size, w, n - 1, t);
    }
  }

  /** While a player lives, every move advances index and step counter by one. */
  lemma {:induction false} RunCounts(s: PlayerState, brain: seq<Accel>, size: int, w: World, n: nat)
    requires Consistent(s, brain, size)
    ensures Run(s, brain, size, w, n).alive ==>
              s.alive && Run(s, brain, size, w, n).index == s.index + n
  {
    if n > 0 {
      RunCounts(s, brain, size, w, n - 1);
    }
  }

  /** Once dead, a player stays exactly as it died: its fitness is computed once. */
  lemma {:induction false} RunStaysDead(s: PlayerState, brain: seq<Accel>, size: int, w: World, j: nat, n: nat)
    requires Consistent(s, brain, size)
    requires j <= n && !Run(s, brain, size, w, j).alive
    ensures Run(s, brain, size, w, n) == Run(s, brain, size, w, j)
  {
    if n > j {
      RunStaysDead(s, brain, size, w, j, n - 1);
    }
  }

  /** A consistent player is dead after at most `size - index` further moves;
      in particular, a freshly reset player survives at most `size` moves. */
  lemma SurvivesAtMostSize(s: PlayerState, brain: seq<Accel>, size: int, w: World, n: nat)
    requires Consistent(s, brain, size)
    requires n >= size - s.index
    ensures !Run(s, brain, size, w, n).alive
  {
    RunCounts(s, brain, size, w, n);
  }

  /** The player is alive now and after each of its next `n` moves,
      followed one move at a time from `s`. */
  predicate AliveThrough(s: PlayerState, brain: seq<Accel>, size: int, w: World, n: nat)
    requires Consistent(s, brain, size)
    decreases n
  {
    s.alive &&
    (n == 0 ||
     (StepKeepsConsistent(s, brain, size, w);
      AliveThrough(Step(s, brain, size, w), brain, size, w, n - 1)))
  }

  /** `n + 1` moves from `s` are one move followed by `n` moves. */
  lemma {:induction false} RunShift(s: PlayerState, brain: seq<Accel>, size: int, w: World, n: nat)
    requires Consistent(s, brain, size)
    ensures Consistent(Step(s, brain, size, w), brain, size) &&
            Run(s, brain, size, w, n + 1) == Run(Step(s, brain, size, w), brain, size, w, n)
  {
    StepKeepsConsistent(s, brain, size, w);
    if n > 0 {
      RunShift(s, brain, size, w, n - 1);
    }
  }

  /** Living through `n` moves is being alive after them, since a dead
      player stays dead. */
  lemma {:induction false} AliveThroughRun(s: PlayerState, brain: seq<Accel>, size: int, w: World, n: nat)
    requires Consistent(s, brain, size)
    decreases n
    ensures AliveThrough(s, brain, size, w, n) == Run(s, brain, size, w, n).alive
  {
    if n > 0 {
      StepKeepsConsistent(s, brain, size, w);
      AliveThroughRun(Step(s, brain, size, w), brain, size, w, n - 1);
      RunShift(s, brain, size, w, n - 1);
      if !s.alive {
        RunStaysDead(s, brain, size, w, 0, n);
      }
    }
  }

  /** The two phases of a move: with no wall hit an axis simply adds its
      velocity; on a hit, a positive velocity snaps to `lo // offset` of the
      wall and any other to `(lo + extent) // offset - offset`. The y phase
      tests the x already moved. */
  lemma SnapFormulas(x: int, y: int, vx: int, vy: int, walls: seq<Rect>, offset: int)
    ensures match GetCollision(walls, x + vx, y, offset)
      case None => MoveX(x, y, vx, walls, offset) == x + vx
      case Some(h) => (offset > 0 && Collide(h, CellRect(x + vx, y, offset)) &&
                       MoveX(x, y, vx, walls, offset) ==
                         if vx > 0 then h.x / offset else (h.x + h.width) / offset - offset)
    ensures match GetCollision(walls, x, y + vy, offset)
      case None => MoveY(x, y, vy, walls, offset) == y + vy
      case Some(h) => (offset > 0 && Collide(h, CellRect(x, y + vy, offset)) &&
                       MoveY(x, y, vy, walls, offset) ==
                         if vy > 0 then h.y / offset else (h.y + h.height) / offset - offset)
  {
  }

  /** Reaching the goal beats every other death, whatever the step counts. */
  lemma GoalBeatsMiss(goal: Cell, n: int, x: int, y: int, m: int)
    requires n >= 1 && m >= 1
    requires !AtGoal(x, y, goal)
    ensures Fitness(goal.x, goal.y, goal, n) > Fitness(x, y, goal, m)
  {
  }

  /** Snapping right after an x-hit puts the agent on the wall's first
      column, `w.x // offset`, whose cell still overlaps the wall. */
  lemma SnapRightStaysInWall(h: Rect, x: int, y: int, offset: int)
    requires Collide(h, CellRect(x, y, offset))
    ensures offset > 0 && Collide(h, CellRect(h.x / offset, y, offset))
  {
    var q := h.x / offset;
    assert q * offset <= h.x < q * offset + offset;
  }

  /** No lower clamp: on the game's default level (100 x 100 cells of 5
      pixels, one wall, start (50, 10), goal (50, 90)), six genes of -1 on x
      leave the player alive with x velocity -6, below -MaxVel. */
  lemma VelocityUnboundedBelow(brain: seq<Accel>, w: World, start: PlayerState)
    requires brain == seq(200, _ => Accel(-1, 0))
    requires w == World(100, 100, 5, [Rect(0, 250, 375, 50)], Cell(50, 90))
    requires start == PlayerState(50, 10, 0, 0, 0, 0, true, 0.0)
    ensures Consistent(start, brain, 200)
    ensures var r := Run(start, brain, 200, w, 6);
            r.alive && r.vx == -6 < -MaxVel && r.x == 29
  {
    var s := start;
    for k := 1 to 7
      invariant s == PlayerState(LeftwardXs[k - 1], 10, 1 - k, 0, k - 1, k - 1, true, 0.0)
      invariant Consistent(s, brain, 200) && s == Run(start, brain, 200, w, k - 1)
    {
      LeftwardStep(brain, w, s, k);
      s := Step(s, brain, 200, w);
    }
  }

  /** One move of the example above: velocity and x drop, y, the row of
      cells the wall does not reach, is kept. */
  lemma LeftwardStep(brain: seq<Accel>, w: World, s: PlayerState, k: int)
    requires brain == seq(200, _ => Accel(-1, 0))
    requires w == World(100, 100, 5, [Rect(0, 250, 375, 50)], Cell(50, 90))
    requires 1 <= k <= 6 && s == PlayerState(LeftwardXs[k - 1], 10, 1 - k, 0, k - 1, k - 1, true, 0.0)
    ensures Step(s, brain, 200, w) == PlayerState(LeftwardXs[k], 10, -k, 0, k, k, true, 0.0)
  {
  }

  /** The x positions of the example above, one per move. */
  const LeftwardXs: seq<int> := [50, 49, 47, 44, 40, 35, 29]

  /** A wall that exactly covers the goal cell does not keep players from
      the goal bonus: landing in it from above snaps y onto the goal row,
      and the death test then finds the player on the goal. */
  lemma WallOnGoalStillScoresGoal()
    ensures var brain := [Accel(0, 1), Accel(0, 1), Accel(0, 1)];
            var w := World(10, 10, 1, [Rect(5, 8, 1, 1)], Cell(5, 8));
            var start := PlayerState(5, 5, 0, 0, 0, 0, true, 0.0);
            Consistent(start, brain, 3) &&
            var r := Run(start, brain, 3, w, 2);
            !r.alive && AtGoal(r.x, r.y, w.goal) && r.fitness == 1.25
  {
    var brain := [Accel(0, 1), Accel(0, 1), Accel(0, 1)];
    var w := World(10, 10, 1, [Rect(5, 8, 1, 1)], Cell(5, 8));
    var start := PlayerState(5, 5, 0, 0, 0, 0, true, 0.0);
    var one := PlayerState(5, 6, 0, 1, 1, 1, true, 0.0);
    assert Run(start, brain, 3, w, 1) == one;
    LandOnWalledGoal(one, brain, w);
  }

  lemma LandOnWalledGoal(one: PlayerState, brain: seq<Accel>, w: World)
    requires brain == [Accel(0, 1), Accel(0, 1), Accel(0, 1)]
    requires w == World(10, 10, 1, [Rect(5, 8, 1, 1)], Cell(5, 8))
    requires one == PlayerState(5, 6, 0, 1, 1, 1, true, 0.0)
    ensures Step(one, brain, 3, w) == PlayerState(5, 8, 0, 2, 2, 2, false, 1.25)
  {
    assert MoveX(5, 6, 0, w.walls, w.offset) == 5;
    assert MoveY(5, 6, 2, w.walls, w.offset) == 8;
    assert Square(2) == 4;
    assert Fitness(5, 8, w.goal, 2) == 1.25;
  }
}
