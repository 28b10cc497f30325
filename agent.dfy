/** The `Player` class: an agent whose fields `move` updates in place. */
module Agent {
  import opened Genes
  import opened Wrappers
  import opened Geometry
  import opened Physics

  class Player {
    var brain: seq<Accel>
    var x: int
    var y: int
    // the two components of the list `vel`
    var vx: int
    var vy: int
    var size: int
    var index: int
    var alive: bool
    var fitness: real
    var numSteps: int

    /** The fields `move` may change, as a value. */
    function State(): PlayerState
      reads this`x, this`y, this`vx, this`vy, this`index, this`numSteps, this`alive, this`fitness
    {
      PlayerState(x, y, vx, vy, index, numSteps, alive, fitness)
    }

    ghost predicate Valid()
      reads this
    {
      Consistent(State(), brain, size)
    }

    /** `Player(x, y, size)`; `rolls` are the `randint(-1, 1)` draws of
        `create_brain`. */
    constructor (x0: int, y0: int, size0: nat, rolls: seq<int>)
      requires |rolls| == 2 * size0
      requires forall i :: 0 <= i < |rolls| ==> IsRoll(rolls[i])
      ensures brain == CreateBrain(size0, rolls) && size == size0
      ensures State() == PlayerState(x0, y0, 0, 0, 0, 0, true, 0.0)
      ensures Valid() <==> size0 > 0
    {
      brain := CreateBrain(size0, rolls);
      x := x0;
      y := y0;
      vx, vy := 0, 0;
      size := size0;
      index := 0;
      alive := true;
      fitness := 0.0;
      numSteps := 0;
    }

    /** `copy.deepcopy(p)`: a new player with the same field values. */
    constructor Copy(p: Player)
      ensures brain == p.brain && size == p.size && State() == p.State()
    {
      brain := p.brain;
      x, y := p.x, p.y;
      vx, vy := p.vx, p.vy;
      size := p.size;
      index := p.index;
      alive := p.alive;
      fitness := p.fitness;
      numSteps := p.numSteps;
    }

    /** `move(width, height, offset, walls, goal)`. */
    method Move(width: int, height: int, offset: int, walls: seq<Rect>, goal: Cell)
      requires alive ==> 0 <= index < |brain| && numSteps >= 0
      modifies this
      ensures State() == Step(old(State()), old(brain), old(size), World(width, height, offset, walls, goal))
      ensures brain == old(brain) && size == old(size)
    {
      if !alive {
        return;
      }
      Fly(offset, walls);
      CheckDeath(width, height, offset, walls, goal);
    }

    /** Lines 27-49 of `move` for a live player: accelerate by the current
        gene, move along x then y, and advance both counters. */
    method Fly(offset: int, walls: seq<Rect>)
      requires 0 <= index < |brain|
      modifies this`vx, this`vy, this`x, this`y, this`index, this`numSteps
      ensures State() == Advance(Travel(Accelerate(old(State()), old(brain[index])), walls, offset))
    {
      ghost var s0 := State();
      var a := brain[index];
      Thrust(a);
      assert State() == Accelerate(s0, a);
      ghost var s1 := State();
      MoveAlongX(offset, walls);
      MoveAlongY(offset, walls);
      assert State() == Travel(s1, walls, offset);
      index := index + 1;
      numSteps := numSteps + 1;
    }

    /** Lines 28-33 of `move`: add the gene to `vel`, each component capped
        from above at `MAX_VEL`. */
    method Thrust(a: Accel)
      modifies this`vx, this`vy
      ensures vx == Clamp(old(vx) + a.dx) && vy == Clamp(old(vy) + a.dy)
    {
      vx := vx + a.dx;
      if vx > MaxVel {
        vx := MaxVel;
      }
      vy := vy + a.dy;
      if vy > MaxVel {
        vy := MaxVel;
      }
    }

    /** The x phase of `move`: apply `vel[0]`, then snap on a hit. */
    method MoveAlongX(offset: int, walls: seq<Rect>)
      modifies this`x
      ensures x == MoveX(old(x), y, vx, walls, offset)
    {
      x := x + vx;
      var w := GetCollision(walls, x, y, offset);
      if w.Some? {
        if vx > 0 {
          x := w.value.x / offset;
        } else {
          x := (w.value.x + w.value.width) / offset - offset;
        }
      }
    }

    /** The y phase of `move`, from the x already moved. */
    method MoveAlongY(offset: int, walls: seq<Rect>)
      modifies this`y
      ensures y == MoveY(x, old(y), vy, walls, offset)
    {
      y := y + vy;
      var w := GetCollision(walls, x, y, offset);
      if w.Some? {
        if vy > 0 {
          y := w.value.y / offset;
        } else {
          y := (w.value.y + w.value.height) / offset - offset;
        }
      }
    }

    /** The death test at the end of `move`, with the one-time fitness. */
    method CheckDeath(width: int, height: int, offset: int, walls: seq<Rect>, goal: Cell)
      requires numSteps >= 1
      modifies this`alive, this`fitness
      ensures var dies := Dies(old(State()), size, World(width, height, offset, walls, goal));
              alive == (old(alive) && !dies) &&
              fitness == if dies then Fitness(x, y, goal, numSteps) else old(fitness)
    {
      if index >= size || GetCollision(walls, x, y, offset).Some? ||
         x < 0 || y < 0 || x >= width || y >= height || (x == goal.x && y == goal.y)
      {
        alive := false;
        var d := Abs(x - goal.x) + Abs(y - goal.y);
        fitness := 1.0 / ((1 + Square(d)) as real);
        if x == goal.x && y == goal.y {
          fitness := fitness + 1.0 / (Square(numSteps) as real);
        }
      }
    }
  }
}
