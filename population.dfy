/** The `Game` class: a population of players, the genetic operators and
    the bookkeeping of one generation. Every random draw is a parameter. */
module Population {
  import opened Genes
  import opened Wrappers
  import opened Geometry
  import opened Physics
  import opened Agent
  import opened Evolution

  /** The loop of `check_alive` from position `k`: some player there on is
      alive. */
  function AliveFrom(ps: seq<Player>, k: nat): (r: bool)
    reads ps
    decreases |ps| - k
    ensures r <==> exists i :: k <= i < |ps| && ps[i].alive
  {
    if k >= |ps| then false
    else if ps[k].alive then true
    else AliveFrom(ps, k + 1)
  }

  /** The players' fitnesses, in order. */
  function Fitnesses(ps: seq<Player>): (r: seq<real>)
    reads ps
    ensures |r| == |ps| && forall i {:trigger r[i]} :: 0 <= i < |ps| ==> r[i] == ps[i].fitness
  {
    if ps == [] then [] else [ps[0].fitness] + Fitnesses(ps[1..])
  }

  /** The players' brains, in order. */
  function Brains(ps: seq<Player>): (r: seq<seq<Accel>>)
    reads ps
    ensures |r| == |ps| && forall i {:trigger r[i]} :: 0 <= i < |ps| ==> r[i] == ps[i].brain
  {
    if ps == [] then [] else [ps[0].brain] + Brains(ps[1..])
  }

  /** The players' states, in order. */
  function States(ps: seq<Player>): (r: seq<PlayerState>)
    reads ps`x, ps`y, ps`vx, ps`vy, ps`index, ps`numSteps, ps`alive, ps`fitness
    ensures |r| == |ps| && forall i {:trigger r[i]} :: 0 <= i < |ps| ==> r[i] == ps[i].State()
  {
    if ps == [] then [] else [ps[0].State()] + States(ps[1..])
  }

  /** A player as the game keeps it: a brain of the game's length, genes in
      {-1, 0, 1}, and a state that `Step` keeps consistent. */
  ghost predicate Healthy(p: Player)
    reads p
  {
    p.size == BrainSize && IsBrain(p.brain) && p.Valid()
  }

  /** `c` is a deep copy of `p`. */
  ghost predicate CopyOf(c: Player, p: Player)
    reads c, p
  {
    c.brain == p.brain && c.size == p.size && c.State() == p.State()
  }

  /** No player object appears twice. */
  ghost predicate Distinct(ps: seq<Player>) {
    forall i, j :: 0 <= i < j < |ps| ==> ps[i] != ps[j]
  }

  lemma DistinctAppend(ps: seq<Player>, c: Player)
    requires Distinct(ps) && c !in ps
    ensures Distinct(ps + [c])
  {
  }

  /** A population made of the players of `olds` at `sel`, the first one
      itself and the others as deep copies, is healthy and holds their
      brains and states in that order. */
  lemma PickedPlayers(newPop: seq<Player>, olds: seq<Player>, sel: seq<nat>)
    requires |newPop| == |sel| > 0 && forall j :: 0 <= j < |sel| ==> sel[j] < |olds|
    requires newPop[0] == olds[sel[0]]
    requires forall j :: 1 <= j < |newPop| ==> CopyOf(newPop[j], olds[sel[j]])
    requires forall i :: 0 <= i < |olds| ==> Healthy(olds[i])
    ensures forall k :: 0 <= k < |newPop| ==> Healthy(newPop[k])
    ensures Brains(newPop) == Pick(Brains(olds), sel)
    ensures States(newPop) == Pick(States(olds), sel)
  {
    forall k | 0 <= k < |newPop|
      ensures Healthy(newPop[k]) && newPop[k].brain == olds[sel[k]].brain
      ensures newPop[k].State() == olds[sel[k]].State()
    {
      assert Healthy(olds[sel[k]]);
    }
  }

  class Game {
    const width: int
    const height: int
    const offset: int
    const start: Cell
    const goal: Cell
    const walls: seq<Rect>
    var players: seq<Player>
    var bestPath: seq<Cell>
    var generation: int

    /** The board every `move` call is given. */
    function Board(): World {
      World(width, height, offset, walls, goal)
    }

    /** The state `reset` gives every player. */
    function Initial(): PlayerState {
      PlayerState(start.x, start.y, 0, 0, 0, 0, true, 0.0)
    }

    ghost predicate Valid()
      reads this`players, players
    {
      |players| == PopulationSize && Distinct(players) &&
      forall i :: 0 <= i < |players| ==> Healthy(players[i])
    }

    /** Every player is where `reset` leaves it and the path is empty. */
    ghost predicate AtStart()
      reads this`players, this`bestPath, players
    {
      bestPath == [] && forall i :: 0 <= i < |players| ==> players[i].State() == Initial()
    }

    /** `Game(width, height, offset, start, goal)`; `rolls[i]` are the
        `randint(-1, 1)` draws of player `i`'s brain. */
    constructor (width0: int, height0: int, offset0: int, start0: Cell, goal0: Cell, rolls: seq<seq<int>>)
      requires |rolls| == PopulationSize
      requires forall i :: 0 <= i < |rolls| ==>
        |rolls[i]| == 2 * BrainSize && forall k :: 0 <= k < |rolls[i]| ==> IsRoll(rolls[i][k])
      ensures width == width0 && height == height0 && offset == offset0
      ensures start == start0 && goal == goal0 && generation == 0
      ensures walls == [Rect(0, 50 * offset0, 75 * offset0, 10 * offset0)]
      ensures Valid() && AtStart()
      ensures forall i :: 0 <= i < |players| ==> fresh(players[i]) && players[i].brain == CreateBrain(BrainSize, rolls[i])
    {
      width, height, offset := width0, height0, offset0;
      start, goal := start0, goal0;
      walls := [Rect(0, 50 * offset0, 75 * offset0, 10 * offset0)];
      generation := 0;
      bestPath := [];
      var ps: seq<Player> := [];
      for i := 0 to PopulationSize
        invariant |ps| == i && Distinct(ps)
        invariant forall j :: 0 <= j < i ==>
          fresh(ps[j]) && Healthy(ps[j]) &&
          ps[j].State() == PlayerState(start0.x, start0.y, 0, 0, 0, 0, true, 0.0) &&
          ps[j].brain == CreateBrain(BrainSize, rolls[j])
      {
        var p := new Player(start0.x, start0.y, BrainSize, rolls[i]);
        ps := ps + [p];
      }
      players := ps;
      new;
      Reset();
    }

    /** `reset`: every player back at `start` with its brain kept, and
        `best_path` emptied. */
    method Reset()
      modifies this`bestPath, players
      ensures old(Valid()) ==> Valid()
      ensures players == old(players) && generation == old(generation)
      ensures bestPath == []
      ensures forall i :: 0 <= i < |players| ==>
        players[i].State() == Initial() &&
        players[i].brain == old(players[i].brain) && players[i].size == old(players[i].size)
    {
      for i := 0 to |players|
        invariant forall j :: 0 <= j < i ==> players[j].State() == Initial()
        invariant forall j :: 0 <= j < |players| ==>
          players[j].brain == old(players[j].brain) && players[j].size == old(players[j].size)
      {
        var p := players[i];
        p.x := start.x;
        p.y := start.y;
        p.fitness := 0.0;
        p.index := 0;
        p.alive := true;
        p.numSteps := 0;
        p.vx, p.vy := 0, 0;
      }
      bestPath := [];
    }

    /** `check_alive`: some player is alive. */
    function CheckAlive(): (r: bool)
      reads this`players, players
      ensures r <==> exists i :: 0 <= i < |players| && players[i].alive
    {
      AliveFrom(players, 0)
    }

    /** `selectBestPlayer`: the first player of greatest fitness, not a copy. */
    method SelectBestPlayer(ghost fs: seq<real>) returns (best: Player)
      requires |players| > 0
      requires |fs| == |players| && forall i :: 0 <= i < |players| ==> players[i].fitness == fs[i]
      ensures best == players[BestIndex(fs)]
    {
      best := players[0];
      ghost var b := 0;
      for i := 0 to |players|
        invariant b < |players| && best == players[b] && (b < i || b == 0)
        invariant forall j :: 0 <= j < i ==> fs[j] <= fs[b]
        invariant forall j :: 0 <= j < b ==> fs[j] < fs[b]
        invariant BestFrom(fs, i, b) == BestIndex(fs)
      {
        if players[i].fitness > best.fitness {
          best := players[i];
          b := i;
        }
      }
    }

    /** `selection`: the elite, uncopied, then one copy per successful pass
        of the roulette walk; positions are those of `Selected`. */
    method Selection(ghost fs: seq<real>) returns (newPop: seq<Player>)
      requires |players| > 0
      requires |fs| == |players| && forall i :: 0 <= i < |players| ==> players[i].fitness == fs[i]
      ensures var sel := Selected(fs);
        |newPop| == |sel| && newPop[0] == players[sel[0]] &&
        forall j :: 1 <= j < |newPop| ==> fresh(newPop[j]) && CopyOf(newPop[j], players[sel[j]])
      ensures Distinct(newPop)
    {
      var fitSum := TotalFitness(fs);
      newPop := [];
      var best := SelectBestPlayer(fs);
      newPop := newPop + [best];
      ghost var sel;
      newPop, sel := Roulette(fs, fitSum, |players| - 1, newPop, BestIndex(fs));
    }

    /** The first loop of `selection`: the sum of all fitnesses, left to right. */
    method TotalFitness(ghost fs: seq<real>) returns (sum: real)
      requires |fs| == |players| && forall i :: 0 <= i < |players| ==> players[i].fitness == fs[i]
      ensures sum == Prefix(fs, |fs|)
    {
      sum := 0.0;
      for i := 0 to |players|
        invariant sum == Prefix(fs, i)
      {
        sum := sum + players[i].fitness;
      }
    }

    /** The `n` passes of the roulette walk of `selection`, sharing the
        running total `sum`: a copy of each player picked is appended to
        `pop`, whose one player sits at position `head`. */
    method Roulette(ghost fs: seq<real>, sum: real, n: nat, pop: seq<Player>, ghost head: nat)
        returns (newPop: seq<Player>, ghost sel: seq<nat>)
      requires |fs| == |players| && forall i :: 0 <= i < |players| ==> players[i].fitness == fs[i]
      requires |pop| == 1 && head < |players| && pop[0] == players[head]
      ensures sel == [head] + Spins(fs, sum, n).0 && |newPop| == |sel| && newPop[0] == pop[0]
      ensures forall j :: 1 <= j < |newPop| ==> fresh(newPop[j]) && CopyOf(newPop[j], players[sel[j]])
      ensures Distinct(newPop)
    {
      var fitSum := sum;
      newPop := pop;
      sel := [head];
      for draw := 0 to n
        invariant sel == [head] + Spins(fs, sum, draw).0 && fitSum == Spins(fs, sum, draw).1
        invariant |newPop| == |sel| && newPop[0] == pop[0] && Distinct(newPop)
        invariant forall j :: 0 <= j < |sel| ==> sel[j] < |players|
        invariant forall j :: 1 <= j < |newPop| ==> fresh(newPop[j]) && CopyOf(newPop[j], players[sel[j]])
      {
        var c, left, pick := SelectionPass(fs, fitSum);
        assert Spins(fs, sum, draw + 1).0 == Spins(fs, sum, draw).0 + (if pick.Some? then [pick.value] else []);
        assert Spins(fs, sum, draw + 1).1 == left;
        if c != null {
          DistinctAppend(newPop, c);
          newPop := newPop + [c];
          sel := sel + [pick.value];
        }
        fitSum := left;
      }
    }

    /** One pass of the inner loop of `selection`: subtract fitnesses from
        the running total until it drops to 0 or below, and copy the player
        reached there. */
    method SelectionPass(ghost fs: seq<real>, sum: real) returns (c: Player?, left: real, ghost pick: Option<nat>)
      requires |fs| == |players| && forall i :: 0 <= i < |players| ==> players[i].fitness == fs[i]
      ensures (pick, left) == Spin(fs, sum, 0)
      ensures pick.None? <==> c == null
      ensures pick.Some? ==> pick.value < |players| && c != null && fresh(c) && CopyOf(c, players[pick.value])
    {
      left := sum;
      c := null;
      pick := None;
      var k := 0;
      while k < |players|
        invariant 0 <= k <= |players| && pick == None && c == null
        invariant Spin(fs, sum, 0) == Spin(fs, left, k)
      {
        left := left - players[k].fitness;
        if left <= 0.0 {
          c := new Player.Copy(players[k]);
          pick := Some(k);
          break;
        }
        k := k + 1;
      }
    }

    /** `mutate(c)`: gene `i` becomes `genes[i]` when `coins[i]` is at most
        the mutation rate. */
    method Mutate(c: Player, coins: seq<real>, genes: seq<Accel>)
      requires |c.brain| >= BrainSize && |coins| == BrainSize && |genes| == BrainSize
      modifies c`brain
      ensures c.brain == Mutated(old(c.brain), coins, genes, MutationRate, BrainSize)
    {
      for i := 0 to BrainSize
        invariant c.brain == Mutated(old(c.brain), coins, genes, MutationRate, i)
      {
        if coins[i] <= MutationRate {
          c.brain := c.brain[i := genes[i]];
        }
      }
    }

    /** `crossover(c1, c2)` with the cut `randint(0, c1.size)` drawn as `cut`. */
    method Crossover(c1: Player, c2: Player, cut: nat)
      requires cut <= c1.size
      modifies c1`brain, c2`brain
      ensures c1 != c2 ==> (c1.brain, c2.brain) == Cross(old(c1.brain), old(c2.brain), cut)
      ensures c1 == c2 ==> c1.brain == Cross(old(c1.brain), old(c1.brain), cut).1
    {
      var b1 := Take(c1.brain, cut) + Drop(c2.brain, cut);
      var b2 := Take(c2.brain, cut) + Drop(c1.brain, cut);
      c1.brain := b1;
      c2.brain := b2;
    }

    /** Every player has made `t` moves from the state `reset` gives. */
    ghost predicate Played(t: nat)
      reads this`players, players
    {
      Valid() && PlayedFrom(0, t)
    }

    /** Every player from position `k` on has made `t` moves from the state
        `reset` gives. */
    ghost predicate PlayedFrom(k: nat, t: nat)
      reads this`players, players
      decreases |players| - k
    {
      k >= |players| ||
      (Consistent(Initial(), players[k].brain, BrainSize) &&
       players[k].State() == Run(Initial(), players[k].brain, BrainSize, Board(), t) &&
       PlayedFrom(k + 1, t))
    }

    lemma {:induction false} PlayedFromAt(k: nat, t: nat, i: nat)
      requires PlayedFrom(k, t) && k <= i < |players|
      decreases i - k
      ensures Consistent(Initial(), players[i].brain, BrainSize)
      ensures players[i].State() == Run(Initial(), players[i].brain, BrainSize, Board(), t)
    {
      if k < i {
        PlayedFromAt(k + 1, t, i);
      }
    }

    lemma {:induction false} PlayedFromAll(k: nat, t: nat)
      requires forall i :: k <= i < |players| ==>
        Consistent(Initial(), players[i].brain, BrainSize) &&
        players[i].State() == Run(Initial(), players[i].brain, BrainSize, Board(), t)
      decreases |players| - k
      ensures PlayedFrom(k, t)
    {
      if k < |players| {
        PlayedFromAll(k + 1, t);
      }
    }

    /** `best_path` holds the cells of `players[0]` before each of its moves. */
    ghost predicate Traced()
      reads this`players, this`bestPath, players
      requires Valid()
    {
      bestPath == Trace(Initial(), players[0].brain, BrainSize, Board(), |bestPath|)
    }

    /** One tick of the inner loop of `run` (lines 107-109): record
        `players[0]`'s cell in `best_path`, then move every player. A tick
        extends both the moves made and the trace by one. */
    method Tick()
      requires Valid()
      modifies this`bestPath, players
      ensures Valid()
      ensures bestPath == old(bestPath) + [Position(old(players[0].State()))]
      ensures forall i :: 0 <= i < |players| ==>
        players[i].brain == old(players[i].brain) &&
        players[i].State() == Step(old(players[i].State()), players[i].brain, BrainSize, Board())
      ensures old(Played(|bestPath|)) ==> Played(|bestPath|)
      ensures old(Played(|bestPath|) && Traced()) ==> Traced()
    {
      ghost var t := |bestPath|;
      ghost var wasPlayed := Played(t);
      if wasPlayed {
        forall i | 0 <= i < |players|
          ensures players[i].State() == Run(Initial(), players[i].brain, BrainSize, Board(), t)
        {
          PlayedFromAt(0, t, i);
        }
      }
      bestPath := bestPath + [Cell(players[0].x, players[0].y)];
      MoveAll();
      if wasPlayed {
        PlayedFromAll(0, t + 1);
      }
    }

    /** The loop `for p in players: p.move(...)`. */
    method MoveAll()
      requires Valid()
      modifies players
      ensures Valid()
      ensures forall i :: 0 <= i < |players| ==>
        players[i].brain == old(players[i].brain) &&
        players[i].State() == Step(old(players[i].State()), players[i].brain, BrainSize, Board())
    {
      for i := 0 to |players|
        invariant Valid()
        invariant forall j :: 0 <= j < |players| ==> players[j].brain == old(players[j].brain)
        invariant forall j :: 0 <= j < i ==>
          players[j].State() == Step(old(players[j].State()), players[j].brain, BrainSize, Board())
        invariant forall j :: i <= j < |players| ==> players[j].State() == old(players[j].State())
      {
        var p := players[i];
        ghost var s := p.State();
        p.Move(width, height, offset, walls, goal);
        StepKeepsConsistent(s, p.brain, BrainSize, Board());
      }
    }

    /** The inner loop of `run` (lines 98-110, without drawing): tick while
        some player is alive. It stops within `BrainSize` ticks, every player
        has then made as many moves as there were ticks, and `best_path` is
        the trace of `players[0]`. */
    method PlayGeneration()
      requires Valid() && AtStart()
      modifies this`bestPath, players
      ensures players == old(players) && generation == old(generation)
      ensures Played(|bestPath|) && Traced() && |bestPath| <= BrainSize
      ensures forall i :: 0 <= i < |players| ==> players[i].brain == old(players[i].brain)
      ensures !CheckAlive()
      ensures |bestPath| == Ticks(old(Brains(players)), 0)
    {
      ghost var bs := Brains(players);
      assert FullLength(bs);
      ghost var last := Ticks(bs, 0);
      PlayedFromAll(0, 0);
      while true
        invariant Played(|bestPath|) && Traced() && |bestPath| <= last <= BrainSize
        invariant forall i :: 0 <= i < |players| ==> players[i].brain == old(players[i].brain)
        decreases last - |bestPath|
      {
        if !CheckAlive() {
          break;
        }
        ghost var i :| 0 <= i < |players| && players[i].alive;
        PlayedFromAt(0, |bestPath|, i);
        AliveBeforeTicks(bs, |bestPath|, i);
        Tick();
      }
      PlayedAllDead(bs, |bestPath|);
    }

    /** Some brain of `bs` is still alive after `u` moves from the state
        `reset` gives: `check_alive` holds after `u` ticks. */
    ghost predicate SomeAlive(bs: seq<seq<Accel>>, u: nat) {
      SomeAliveFrom(bs, u, 0)
    }

    /** `SomeAlive` for the brains from position `k` on. */
    ghost predicate SomeAliveFrom(bs: seq<seq<Accel>>, u: nat, k: nat)
      decreases |bs| - k
    {
      k < |bs| &&
      ((|bs[k]| == BrainSize && AliveThrough(Initial(), bs[k], BrainSize, Board(), u)) ||
       SomeAliveFrom(bs, u, k + 1))
    }

    /** The number of ticks the inner loop of `run` (lines 98-110) makes
        when `t` ticks have been made: it goes on while some brain is alive
        and, as the brains run out after `BrainSize` moves, at most that
        long. */
    ghost function Ticks(bs: seq<seq<Accel>>, t: nat): (r: nat)
      decreases BrainSize - t
      ensures t <= r && (t <= BrainSize ==> r <= BrainSize)
    {
      if t < BrainSize && SomeAlive(bs, t) then Ticks(bs, t + 1) else t
    }

    /** A brain alive after `u` moves makes `SomeAliveFrom` hold at every
        position up to its own. */
    lemma {:induction false} SomeAliveAt(bs: seq<seq<Accel>>, u: nat, k: nat, i: nat)
      requires k <= i < |bs| && |bs[i]| == BrainSize
      requires Run(Initial(), bs[i], BrainSize, Board(), u).alive
      decreases i - k
      ensures SomeAliveFrom(bs, u, k)
    {
      AliveThroughRun(Initial(), bs[i], BrainSize, Board(), u);
      if k < i {
        SomeAliveAt(bs, u, k + 1, i);
      }
    }

    /** Up to the end of play, some brain is alive exactly while play has
        not yet made all its ticks. */
    lemma AliveUntilTicks(bs: seq<seq<Accel>>, u: nat)
      requires FullLength(bs) && u <= Ticks(bs, 0)
      ensures SomeAlive(bs, u) <==> u < Ticks(bs, 0)
    {
      TicksFrom(bs, 0);
    }

    /** A tick made while brain `i` is alive is not play's last. */
    lemma AliveBeforeTicks(bs: seq<seq<Accel>>, u: nat, i: nat)
      requires FullLength(bs) && i < |bs| && u <= Ticks(bs, 0)
      requires Run(Initial(), bs[i], BrainSize, Board(), u).alive
      ensures u < Ticks(bs, 0)
    {
      SomeAliveAt(bs, u, 0, i);
      AliveUntilTicks(bs, u);
    }

    /** A position whose brain is alive after `u` moves, when there is one. */
    lemma {:induction false} AliveWitness(bs: seq<seq<Accel>>, u: nat, k: nat) returns (i: nat)
      requires SomeAliveFrom(bs, u, k)
      decreases |bs| - k
      ensures k <= i < |bs| && |bs[i]| == BrainSize && Run(Initial(), bs[i], BrainSize, Board(), u).alive
    {
      if |bs[k]| == BrainSize && AliveThrough(Initial(), bs[k], BrainSize, Board(), u) {
        AliveThroughRun(Initial(), bs[k], BrainSize, Board(), u);
        i := k;
      } else {
        i := AliveWitness(bs, u, k + 1);
      }
    }

    /** Play lasts exactly until the first count after which no brain is
        alive: every brain is dead after `Ticks(bs, 0)` moves, and after
        every smaller count some brain is still alive. */
    lemma FirstAllDead(bs: seq<seq<Accel>>)
      requires FullLength(bs)
      ensures forall i :: 0 <= i < |bs| ==> !Run(Initial(), bs[i], BrainSize, Board(), Ticks(bs, 0)).alive
      ensures forall u: nat :: u < Ticks(bs, 0) ==> SomeAlive(bs, u)
    {
      TicksFrom(bs, 0);
      forall i | 0 <= i < |bs|
        ensures !Run(Initial(), bs[i], BrainSize, Board(), Ticks(bs, 0)).alive
      {
        if Run(Initial(), bs[i], BrainSize, Board(), Ticks(bs, 0)).alive {
          SomeAliveAt(bs, Ticks(bs, 0), 0, i);
        }
      }
    }

    /** `FirstAllDead` from `t` ticks on. */
    lemma {:induction false} TicksFrom(bs: seq<seq<Accel>>, t: nat)
      requires FullLength(bs)
      decreases BrainSize - t
      ensures !SomeAlive(bs, Ticks(bs, t))
      ensures forall u :: t <= u < Ticks(bs, t) ==> SomeAlive(bs, u)
    {
      if t < BrainSize && SomeAlive(bs, t) {
        assert Ticks(bs, t) == Ticks(bs, t + 1);
        TicksFrom(bs, t + 1);
      } else if SomeAlive(bs, t) {
        var i := AliveWitness(bs, t, 0);
        SurvivesAtMostSize(Initial(), bs[i], BrainSize, Board(), t);
        assert false;
      } else {
        assert Ticks(bs, t) == t;
      }
    }

    /** When play stops after `t` ticks, no brain is alive after `t` moves. */
    lemma PlayedAllDead(bs: seq<seq<Accel>>, t: nat)
      requires Played(t) && Brains(players) == bs && !CheckAlive()
      ensures !SomeAlive(bs, t)
      ensures t <= Ticks(bs, 0) ==> t == Ticks(bs, 0)
    {
      forall i | 0 <= i < |bs| && |bs[i]| == BrainSize
        ensures !Run(Initial(), bs[i], BrainSize, Board(), t).alive
      {
        PlayedFromAt(0, t, i);
      }
      if SomeAlive(bs, t) {
        var i := AliveWitness(bs, t, 0);
        assert false;
      }
      if t <= Ticks(bs, 0) {
        AliveUntilTicks(bs, t);
      }
    }

    /** Every player is dead when play stops and stays so, so the fitnesses
        play reaches are those of the brains run to their end. */
    lemma PlayedToTheEnd(bs: seq<seq<Accel>>)
      requires FullLength(bs)
      ensures PlayedFitnesses(bs, Ticks(bs, 0)) == PlayedFitnesses(bs, BrainSize)
    {
      FirstAllDead(bs);
      forall i | 0 <= i < |bs|
        ensures PlayedFitnesses(bs, Ticks(bs, 0))[i] == PlayedFitnesses(bs, BrainSize)[i]
      {
        RunStaysDead(Initial(), bs[i], BrainSize, Board(), Ticks(bs, 0), BrainSize);
      }
    }

    /** After `t` moves from the start, the fitnesses are those of the
        brains run for `t` moves. */
    lemma PlayedFitnessesHold(bs: seq<seq<Accel>>, t: nat)
      requires Played(t) && Brains(players) == bs && FullLength(bs)
      ensures Fitnesses(players) == PlayedFitnesses(bs, t)
    {
      forall i | 0 <= i < |players|
        ensures Fitnesses(players)[i] == PlayedFitnesses(bs, t)[i]
      {
        PlayedFromAt(0, t, i);
      }
    }

    /** One pair of the breeding loop of `run` (lines 114-117): the players at
        `i` and `i + 1` are crossed when the draw allows it, then both are
        mutated; no other brain and no player's state changes. */
    method BreedAt(i: nat, d: BreedDraws, c1: Player, c2: Player)
      requires Valid() && DrawsFor(d, |players|) && i + 1 < |players|
      requires c1 == players[i] && c2 == players[i + 1]
      modifies c1`brain, c2`brain
      ensures Valid()
      ensures (c1.brain, c2.brain) == BreedPair(old(c1.brain), old(c2.brain), i, d)
      ensures forall k :: 0 <= k < |players| && k != i && k != i + 1 ==> players[k].brain == old(players[k].brain)
    {
      ghost var b1, b2 := c1.brain, c2.brain;
      assert Healthy(c1) && Healthy(c2);
      ghost var p := BreedPair(b1, b2, i, d);
      assert IsBrain(p.0) && IsBrain(p.1);
      if d.crossCoins[i] <= CrossoverRate {
        Crossover(c1, c2, d.cuts[i]);
        CrossChildren(b1, b2, d.cuts[i]);
      }
      Mutate(c1, d.mutCoins[i], d.mutGenes[i]);
      Mutate(c2, d.mutCoins[i + 1], d.mutGenes[i + 1]);
      assert c1.brain == p.0 && c2.brain == p.1;
      assert Healthy(c1) && Healthy(c2);
    }

    /** The evolve step of `run` (lines 112-117): selection, then the
        breeding pass over the pairs (1, 2), (3, 4), ... The elite keeps
        position 0 and the brains are those `NextBrains` computes. */
    method Evolve(d: BreedDraws) returns (ghost sel: seq<nat>)
      requires Valid() && DrawsFor(d, PopulationSize)
      modifies this`players, players`brain
      ensures Valid() && generation == old(generation)
      ensures sel == Selected(old(Fitnesses(players))) && |sel| == |players|
      ensures players[0] == old(players[BestIndex(Fitnesses(players))])
      ensures forall k :: 0 <= k < |players| ==>
        players[k].brain == NextBrains(old(Brains(players)), old(Fitnesses(players)), d)[k]
      ensures States(players) == Pick(old(States(players)), sel)
      ensures players[0] in old(players) && forall j :: 1 <= j < |players| ==> fresh(players[j])
    {
      ghost var g := generation;
      ghost var fs := Fitnesses(players);
      ghost var bs := Brains(players);
      ghost var st := States(players);
      ghost var elite := players[BestIndex(fs)];
      assert |bs| == |fs| > 0 && FullLength(bs) && NonNegative(fs);
      ghost var bred;
      bred, sel := Reselect();
      assert players[0] == elite && States(players) == Pick(st, sel);
      assert generation == g;
      BreedAll(d, bred);
      assert generation == g && players[0] == elite && States(players) == Pick(st, sel);
      assert BreedFrom(bred, 1, d) == NextBrains(bs, fs, d);
    }

    /** Line 112 of `run`: the population becomes the result of `selection`,
        the players picked at the positions `sel`, the elite itself and the
        others as copies; `bred` are its brains. */
    method Reselect() returns (ghost bred: seq<seq<Accel>>, ghost sel: seq<nat>)
      requires Valid()
      modifies this`players
      ensures Valid()
      ensures sel == Selected(old(Fitnesses(players))) && |sel| == |players|
      ensures bred == Pick(old(Brains(players)), sel)
      ensures |bred| == |players| && forall k :: 0 <= k < |players| ==> players[k].brain == bred[k]
      ensures States(players) == Pick(old(States(players)), sel)
      ensures players[0] == old(players[BestIndex(Fitnesses(players))])
      ensures players[0] in old(players) && forall j :: 1 <= j < |players| ==> fresh(players[j])
    {
      ghost var fs := Fitnesses(players);
      ghost var bs := Brains(players);
      sel := Selected(fs);
      ghost var olds := players;
      assert NonNegative(fs);
      SelectedShape(fs);
      var newPop := Selection(fs);
      bred := Pick(bs, sel);
      players := newPop;
      PickedPlayers(newPop, olds, sel);
    }

    /** The loop `for i in range(1, len(players) - 1, 2)` of `run`: breed
        the pairs (1, 2), (3, 4), ... of the population in place. */
    method BreedAll(d: BreedDraws, ghost bred: seq<seq<Accel>>)
      requires Valid() && DrawsFor(d, |players|)
      requires |bred| == |players| && forall k :: 0 <= k < |players| ==> players[k].brain == bred[k]
      modifies players`brain
      ensures Valid()
      ensures forall k :: 0 <= k < |players| ==> players[k].brain == BreedFrom(bred, 1, d)[k]
      ensures States(players) == old(States(players))
    {
      ghost var cur := bred;
      var i := 1;
      while i < |players| - 1
        invariant i % 2 == 1 && i <= |players| && Valid()
        invariant |cur| == |players| && forall k :: 0 <= k < |players| ==> players[k].brain == cur[k]
        invariant FullLength(cur)
        invariant BreedFrom(bred, 1, d) == BreedFrom(cur, i, d)
      {
        ghost var p := BreedPair(cur[i], cur[i + 1], i, d);
        BreedAt(i, d, players[i], players[i + 1]);
        cur := cur[i := p.0][i + 1 := p.1];
        i := i + 2;
      }
    }

    /** `run` without drawing: generations until `MAX_GENERATIONS`, each a
        played generation and an evolve step; `draws[k]` are the draws of
        the `k`-th evolve step. */
    method RunGenerations(draws: seq<BreedDraws>)
      requires Valid() && AtStart()
      requires |draws| >= MaxGenerations - generation
      requires forall k :: 0 <= k < |draws| ==> DrawsFor(draws[k], PopulationSize)
      modifies this, players
      ensures Valid() && AtStart()
      ensures generation == if old(generation) < MaxGenerations then MaxGenerations else old(generation)
    {
      var k := 0;
      while generation < MaxGenerations
        invariant Valid() && AtStart()
        invariant generation == old(generation) + k && k >= 0
        invariant old(generation) < MaxGenerations ==> generation <= MaxGenerations
        invariant old(generation) >= MaxGenerations ==> k == 0
        invariant forall j :: 0 <= j < |players| ==> players[j] in old(players) || fresh(players[j])
      {
        ghost var t := Generation(draws[k]);
        k := k + 1;
      }
    }

    /** The fitnesses of players with brains `bs` after `t` moves from the
        state `reset` gives. */
    ghost function PlayedFitnesses(bs: seq<seq<Accel>>, t: nat): (r: seq<real>)
      requires FullLength(bs)
      ensures |r| == |bs| && NonNegative(r)
    {
      seq(|bs|, i requires 0 <= i < |bs| => Run(Initial(), bs[i], BrainSize, Board(), t).fitness)
    }

    /** One iteration of the outer loop of `run` (lines 98-119): play a
        generation for `t` ticks, then move on to the next one. The new
        brains are those `NextBrains` computes from the old brains and the
        fitnesses the players reached, and the elite comes first. */
    method Generation(d: BreedDraws) returns (ghost t: nat)
      requires Valid() && AtStart() && DrawsFor(d, PopulationSize)
      modifies this, players
      ensures Valid() && AtStart() && generation == old(generation) + 1
      ensures t <= BrainSize && FullLength(old(Brains(players)))
      ensures t == Ticks(old(Brains(players)), 0)
      ensures forall i :: 0 <= i < |old(players)| ==>
        !Run(Initial(), old(Brains(players))[i], BrainSize, Board(), t).alive
      ensures players[0] == old(players)[BestIndex(PlayedFitnesses(old(Brains(players)), t))]
      ensures forall k :: 0 <= k < |players| ==>
        players[k].brain == NextBrains(old(Brains(players)), PlayedFitnesses(old(Brains(players)), t), d)[k]
      ensures players[0] in old(players) && forall j :: 1 <= j < |players| ==> fresh(players[j])
    {
      ghost var bs := Brains(players);
      assert FullLength(bs);
      PlayGeneration();
      t := |bestPath|;
      assert Brains(players) == bs;
      PlayedFitnessesHold(bs, t);
      ghost var fs := Fitnesses(players);
      ghost var next := NextBrains(bs, fs, d);
      ghost var elite := players[BestIndex(fs)];
      NextGeneration(d);
      assert players[0] == elite;
      assert forall k :: 0 <= k < |players| ==> players[k].brain == next[k];
      FirstAllDead(bs);
    }

    /** Lines 112-119 of `run`: evolve the population, count the generation
        and `reset`, so that the next generation starts from the start cell
        with an empty best path. The elite comes first and the brains are
        those `NextBrains` computes. */
    method NextGeneration(d: BreedDraws)
      requires Valid() && DrawsFor(d, PopulationSize)
      modifies this, players
      ensures Valid() && AtStart() && generation == old(generation) + 1
      ensures players[0] == old(players[BestIndex(Fitnesses(players))])
      ensures forall k :: 0 <= k < |players| ==>
        players[k].brain == NextBrains(old(Brains(players)), old(Fitnesses(players)), d)[k]
      ensures players[0] in old(players) && forall j :: 1 <= j < |players| ==> fresh(players[j])
    {
      ghost var fs := Fitnesses(players);
      ghost var bs := Brains(players);
      ghost var elite := players[BestIndex(fs)];
      ghost var next := NextBrains(bs, fs, d);
      ghost var sel := Evolve(d);
      assert players[0] == elite;
      assert forall k :: 0 <= k < |players| ==> players[k].brain == next[k];
      Restart();
    }

    /** Lines 118-119 of `run`: count the generation and `reset`. The
        players and their brains are kept. */
    method Restart()
      requires Valid()
      modifies this`generation, this`bestPath, players
      ensures Valid() && AtStart() && generation == old(generation) + 1 && players == old(players)
      ensures forall k :: 0 <= k < |players| ==> players[k].brain == old(players[k].brain)
    {
      generation := generation + 1;
      Reset();
    }
  }
}
