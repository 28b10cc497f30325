# DotMaze: a verified model of the maze-solving genetic algorithm

DotMaze evolves a population of grid agents ("players"). Each player carries a
"brain": a fixed-length list of acceleration genes, each component in
{-1, 0, 1}. On every tick, a player reads its next gene and adds it to its
velocity. The velocity is clamped from above only. The player then moves along
x and then along y, and it snaps to a wall when the move collides with one. It
dies when it runs out of genes, hits a wall, leaves the board or reaches the
goal. On death it scores a fitness that depends on its distance to the goal,
plus a bonus if it reached the goal. Between generations, the `Game` keeps the
fittest player (the elite), refills the population by a roulette walk whose
running total is never reset, crosses adjacent pairs at a random cut, mutates
genes and resets everyone to the start cell.

The project models `dot_maze.py` in seven modules:

- `Wrappers` (wrappers.dfy): the optional value the searches return.
- `Genes` (genes.dfy): acceleration genes and `create_brain`.
- `Geometry` (geometry.dfy): rectangles, `colliderect` as an integer predicate, and `get_collision`.
- `Physics` (physics.dfy): one `move` on a value (`Step`) and on many ticks (`Run`, `Trace`), with lemmas about the counters, termination, the velocity clamp, fitness and the snap formulas.
- `Agent` (agent.dfy): the `Player` class, whose `Move` updates its fields in place and is proved equal to `Step`.
- `Evolution` (evolution.dfy): crossover, mutation, the elite scan, the roulette walk and the breeding pass, all as functions with lemmas.
- `Population` (population.dfy): the `Game` class, with `reset`, `check_alive`, `selection`, `selectBestPlayer`, `crossover`, `mutate` and the non-drawing tick and evolve steps of `run`. Each is proved against a functional specification, mostly from `Evolution` and `Physics`.

Every random draw is a parameter:

- the `randint(-1, 1)` rolls of `create_brain`;
- the crossover coin and the cut of each pair;
- the per-gene mutation coins and the replacement genes.

The value `n = random.uniform(0, fit_sum)` drawn in `selection` is never used,
so the model does not take it.

Fitness and `fit_sum` are Python floats; the model uses exact `real`. A
`pygame.Rect` is a record of four integers. `colliderect` holds when both
rectangles have positive width and height and their interiors overlap, so
rectangles that only share an edge do not collide. A hit therefore implies
`offset > 0`, and at the snap Dafny's `/` equals Python's `//`.

Some consequences of the code as written, each proved:

- There is no lower velocity clamp. Six `-1` genes on the default level take the x velocity to -6 while the player stays alive (`VelocityUnboundedBelow`).
- Snapping right after an x-hit lands on the wall's first column, which still overlaps the wall (`SnapRightStaysInWall`). So a snap does not in general clear the collision.
- A wall exactly covering the goal cell does not prevent the goal bonus. Falling into it from above snaps y onto the goal row, and the death test then sees the goal (`WallOnGoalStillScoresGoal`).
- `mutate` replaces a gene when its draw is `<= MUTATION_RATE`. `random.uniform(0, 1)` can return 0.0, so even a rate of 0.0 may mutate. `MutatedExtremes` states a condition under which nothing changes.
- Because `fit_sum` is never reset, the first draw picks the first player whose prefix sum reaches the total. Every later draw copies `players[0]` (`SpinsShape`, `SelectedShape`).
- For an even population of at least 4, the pairs (1, 2), (3, 4), … never reach the last player. That slot keeps an unbred copy of the old `players[0]` (`BreedSkipsLastWhenEven`, `NextBrains`).

## Model

| member | source | states |
|---|---|---|
| `Genes.CreateBrain` | dot_maze.py:21-22 | the brain has `size` genes, each component in {-1, 0, 1}, and gene k is built from the 2k-th and (2k+1)-th rolls |
| `Geometry.CollideSharesPixel` | dot_maze.py:58 | `Collide` (`colliderect`) holds iff some pixel lies `Inside` both rectangles, and it is symmetric |
| `Geometry.FirstCollision` | dot_maze.py:57-59 | the index found is the first wall at or after k that collides with the cell; none means no wall from k on collides |
| `Geometry.GetCollision` | dot_maze.py:56-59 | returns none iff no wall overlaps the agent's `offset × offset` pixel cell; otherwise a colliding wall with no colliding wall before it in list order |
| `Physics.StepFacts` | dot_maze.py:24-54 | `Step`: a dead player is unchanged; a live one gains exactly 1 in `index` and `num_steps`, each velocity component becomes `min(old + gene, max_vel)`, x then y move by the axis phases, it dies iff the death test holds, fitness is computed on death and untouched otherwise |
| `Physics.SnapFormulas` | dot_maze.py:34-47 | `MoveX`, `MoveY`: without a hit an axis adds its velocity; on a hit (which implies `offset > 0`) a positive velocity snaps to `w.x // offset` (`w.y // offset`), any other to `(w.x + w.width) // offset - offset` (y likewise), the y test using the new x |
| `Physics.Fitness` | dot_maze.py:52-54 | the death fitness lies in (0, 2]; at the goal it is above 1, elsewhere at most 1/2 |
| `Physics.Clamp` | dot_maze.py:28-33 | a velocity component after adding a gene is the smaller of the sum and `max_vel`: clamped from above, never from below |
| `Physics.Dies` | dot_maze.py:50 | a player that survives the death test has a gene left, is on the board, overlaps no wall and is at least one cell from the goal |
| `Physics.SnapColumn` | dot_maze.py:37-47 | `Snap`: a forward hit snaps to the column holding the wall's first pixel; any other hit snaps to `offset` columns before the column holding the first pixel past the wall |
| `Physics.GoalBeatsMiss` | dot_maze.py:50-54 | a goal-reaching death scores more than any other death, whatever the step counts |
| `Physics.StepKeepsConsistent` | dot_maze.py:24-54 | a move keeps brain length, `index == num_steps <= size`, "live implies a gene is left" and non-negative fitness |
| `Physics.Run` | dot_maze.py:24-54 | any number of moves from a consistent state gives a consistent state |
| `Physics.Trace` | dot_maze.py:107 | the trail of n ticks has n entries |
| `Physics.TraceAt` | dot_maze.py:107-109 | entry t of the trail is the player's cell after t moves |
| `Physics.RunCounts` | dot_maze.py:48-51 | a player still alive after n moves was alive at the start and has advanced `index` by exactly n |
| `Physics.RunStaysDead` | dot_maze.py:25-26 | once dead, further moves change nothing, so fitness is computed once |
| `Physics.RunShift` | dot_maze.py:24-54 | n + 1 moves are one move followed by n moves, and that move keeps the state consistent |
| `Physics.AliveThroughRun` | dot_maze.py:25-26 | a player is alive after each of its next n moves iff it is alive after the n-th, because a dead player stays dead |
| `Physics.SurvivesAtMostSize` | dot_maze.py:48-51 | a consistent player is dead after `size - index` more moves; after `reset`, after at most `size` moves |
| `Physics.SnapRightStaysInWall` | dot_maze.py:37-38 | after an x-hit, the cell at `w.x // offset` still overlaps the wall |
| `Physics.VelocityUnboundedBelow` | dot_maze.py:27-33 | on the default level six -1 genes leave the player alive with x velocity -6, below `-max_vel` |
| `Physics.LeftwardStep` | dot_maze.py:24-54 | one move of that example, state by state |
| `Physics.WallOnGoalStillScoresGoal` | dot_maze.py:41-54 | with a wall exactly on the goal cell, a player falling onto it from above dies at the goal with fitness 1 + 1/4 |
| `Physics.LandOnWalledGoal` | dot_maze.py:41-54 | the second move of that example: y snaps onto the goal row and the player dies with the bonus |
| `Agent.Player.constructor` | dot_maze.py:9-19 | a new player has the created brain, `size`, the given position, zero velocity, index and step count 0, alive and fitness 0 |
| `Agent.Player.Copy` | dot_maze.py:164 | `copy.deepcopy`: a new player with the same brain, size and state |
| `Agent.Player.Move` | dot_maze.py:24-54 | the new state is `Step` of the old one; brain and size are unchanged |
| `Agent.Player.Fly` | dot_maze.py:27-49 | the state after accelerating by the current gene, moving x then y, and advancing both counters |
| `Agent.Player.Thrust` | dot_maze.py:28-33 | each velocity component is the old one plus the gene, clamped from above only |
| `Agent.Player.MoveAlongX` | dot_maze.py:34-40 | x after the x phase, snapped on a hit |
| `Agent.Player.MoveAlongY` | dot_maze.py:41-47 | y after the y phase from the moved x, snapped on a hit |
| `Agent.Player.CheckDeath` | dot_maze.py:50-54 | the player dies iff the death test holds, and fitness is set to the death fitness exactly then |
| `Evolution.CrossKeepsGenes` | dot_maze.py:146-151 | `Cross` at any cut: the two children together hold exactly the parents' genes, as a multiset |
| `Evolution.CrossChildren` | dot_maze.py:146-151 | `Cross`: for a cut in `[0, size]` both children have the parents' length; child 1 is `b1[:i] + b2[i:]`, child 2 is `b2[:i] + b1[i:]`, position by position |
| `Evolution.CrossPairs` | dot_maze.py:146-151 | at every position the children hold the same two genes as the parents |
| `Evolution.CrossKeepsBrains` | dot_maze.py:146-151 | crossing writes only genes with components in {-1, 0, 1} |
| `Evolution.CrossEnds` | dot_maze.py:146-151 | cut 0 swaps the brains; cut `size` leaves them as they were |
| `Evolution.Mutated` | dot_maze.py:141-144 | mutation keeps the brain length |
| `Evolution.MutatedGenes` | dot_maze.py:141-144 | a gene whose draw is above the rate is unchanged, a changed gene is its replacement, and valid replacements keep the brain valid |
| `Evolution.MutatedExtremes` | dot_maze.py:141-144 | if every draw is above the rate nothing changes; if every draw is at most the rate every gene is replaced |
| `Evolution.PrefixMonotone` | dot_maze.py:154-156 | `Prefix`: with non-negative fitnesses the left-to-right sums start at 0 and grow, so the total bounds each prefix and each fitness |
| `Evolution.BestFrom` | dot_maze.py:170-173 | the scan from k returns a maximum of all fitnesses with every earlier fitness strictly smaller |
| `Evolution.BestIndex` | dot_maze.py:168-173 | `selectBestPlayer` picks the first position of maximal fitness: ties go to the earliest |
| `Evolution.Spin` | dot_maze.py:161-165 | one pass picks the first position where the running total drops to 0 or below and returns the total left; with no pick, every partial total stayed positive |
| `Evolution.Spins` | dot_maze.py:159-165 | n passes sharing one running total pick at most n positions, all inside the population |
| `Evolution.FirstSpinReachesTotal` | dot_maze.py:154-165 | starting from the total of non-negative fitnesses, the first pass always picks: the first position whose prefix sum reaches the total |
| `Evolution.DrainedSpinPicksFirst` | dot_maze.py:161-165 | once the total is at or below 0, a pass picks position 0 and the total stays at or below 0 |
| `Evolution.SpinsShape` | dot_maze.py:159-165 | n passes from the total pick exactly n positions: the first pass's pick, then position 0 every time |
| `Evolution.Selected` | dot_maze.py:153-166 | the positions selected are at least 1 and at most the population size, all inside the population |
| `Evolution.SelectedShape` | dot_maze.py:153-166 | with non-negative fitness, selection has exactly `len(players)` entries: the best first, then the first pass's pick, then position 0 |
| `Evolution.BreedFrom` | dot_maze.py:113-117 | the breeding pass keeps the population size and the brain length, and never touches positions below its start, so never the elite |
| `Evolution.BreedPair` | dot_maze.py:114-117 | crossing (when the coin allows) then mutating a pair keeps both brains `BRAIN_SIZE` long and writes only valid genes |
| `Evolution.BreedPairGenes` | dot_maze.py:114-117 | at a position neither mutation draw touches, the bred pair holds the same two genes as before, crossed or not |
| `Evolution.BreedKeepsBrains` | dot_maze.py:113-117 | the whole breeding pass writes only valid genes |
| `Evolution.BreedSkipsLastWhenEven` | dot_maze.py:113 | for an even population the last position is never crossed or mutated |
| `Evolution.BreedQuiet` | dot_maze.py:113-117 | when no crossover or mutation draw succeeds, breeding changes no brain |
| `Evolution.Pick` | dot_maze.py:158-164 | the entries (brains or states) of the selected players, in selection order |
| `Evolution.NextBrains` | dot_maze.py:112-117 | the next generation has as many brains, each of full length; the elite's brain is first and, for an even population of at least 4, the last brain is old `players[0]`'s |
| `Evolution.NextBrainsKeepBrains` | dot_maze.py:112-117 | an evolve step keeps every gene in {-1, 0, 1} |
| `Population.AliveFrom` | dot_maze.py:136-139 | true iff some player from position k on is alive |
| `Population.Fitnesses` | dot_maze.py:155-156 | the players' fitnesses, position by position |
| `Population.Brains` | dot_maze.py:148-149 | the players' brains, position by position |
| `Population.States` | dot_maze.py:24-54 | the players' states (the fields `move` changes), position by position |
| `Population.PickedPlayers` | dot_maze.py:158-164 | a population of the picked players, the elite itself and the rest deep copies, is healthy and holds the picked brains and states in order |
| `Population.DistinctAppend` | dot_maze.py:164 | appending a fresh copy keeps the new population free of duplicate objects |
| `Population.Game.constructor` | dot_maze.py:63-94 | the game stores its configuration and the one default wall, creates `POPULATION_SIZE` fresh players from their rolls, and leaves them reset at generation 0 |
| `Population.Game.Reset` | dot_maze.py:175-184 | every player is back at `start` with zero velocity, index and steps 0, fitness 0 and alive; brains, the player list and the generation are unchanged; `best_path` is empty |
| `Population.Game.CheckAlive` | dot_maze.py:135-139 | true iff some player is alive |
| `Population.Game.SelectBestPlayer` | dot_maze.py:168-173 | returns the player object at the first position of maximal fitness |
| `Population.Game.Selection` | dot_maze.py:153-166 | the new population follows `Selected`: the elite uncopied first, then fresh deep copies of the picked players, with no object twice |
| `Population.Game.TotalFitness` | dot_maze.py:154-156 | the left-to-right sum of all fitnesses |
| `Population.Game.Roulette` | dot_maze.py:159-165 | the draws append one fresh copy per pick of `Spins`, after the elite |
| `Population.Game.SelectionPass` | dot_maze.py:161-165 | one inner pass: the pick and the total left are those of `Spin`, and the pick is a fresh copy |
| `Population.Game.Mutate` | dot_maze.py:141-144 | the brain becomes `Mutated` of the old brain under the given draws and genes |
| `Population.Game.Crossover` | dot_maze.py:146-151 | the two brains become the two children of the cut; for the same player twice, the second assignment wins |
| `Population.Game.PlayedFromAt` | dot_maze.py:108-109 | a player from position k on has made t moves from the reset state |
| `Population.Game.PlayedFromAll` | dot_maze.py:108-109 | if every player from k on has made t moves, the recursive record says so |
| `Population.Game.Tick` | dot_maze.py:107-109 | one tick appends exactly `players[0]`'s cell to `best_path` and moves every player by `Step`; it keeps the "t moves made" and trail invariants |
| `Population.Game.MoveAll` | dot_maze.py:108-109 | every player takes one `Step`, brains unchanged |
| `Population.Game.PlayGeneration` | dot_maze.py:98-110 | the tick loop stops with no player alive, after exactly `Ticks` of the brains ticks, so at the first tick count with nobody alive and within `BRAIN_SIZE`; every player has made one move per tick, brains unchanged, and `best_path` is `players[0]`'s trail |
| `Population.Game.Ticks` | dot_maze.py:98-110 | the number of ticks the inner loop (which breaks once `check_alive` fails) makes from t ticks: at least t and, from t ≤ `BRAIN_SIZE`, at most `BRAIN_SIZE` |
| `Population.Game.TicksFrom` | dot_maze.py:98-110 | counting from t, nobody is alive after `Ticks` ticks and somebody is alive after every count from t up to it |
| `Population.Game.FirstAllDead` | dot_maze.py:98-110 | every brain is dead after `Ticks` moves from the start, and after every smaller count some brain is alive: play stops at the first count with nobody alive |
| `Population.Game.AliveUntilTicks` | dot_maze.py:105-106 | up to the end of play, `check_alive` holds after u ticks iff u is below the tick count |
| `Population.Game.AliveBeforeTicks` | dot_maze.py:105-106 | a tick count after which some player is alive is not the last one |
| `Population.Game.SomeAliveAt` | dot_maze.py:136-139 | one brain alive after u moves makes `check_alive` hold from every earlier position |
| `Population.Game.AliveWitness` | dot_maze.py:136-139 | when `check_alive` holds after u moves, it names a position whose brain is alive then |
| `Population.Game.PlayedAllDead` | dot_maze.py:98-110 | when the loop exits after t ticks, no brain is alive after t moves, and t is the tick count if it is not past it |
| `Population.Game.PlayedToTheEnd` | dot_maze.py:98-110 | the fitnesses play ends with are those of the brains run for `BRAIN_SIZE` moves, since nobody moves after dying |
| `Population.Game.BreedAt` | dot_maze.py:114-117 | the pair at i and i + 1 gets the brains `BreedPair` gives; no other brain and no state changes |
| `Population.Game.Evolve` | dot_maze.py:112-117 | the population follows `Selected` of the old fitnesses: the elite object first, fresh copies after it, each player with the state of the player it was picked from (`States` is `Pick` of the old states), and the brains `NextBrains` of the old brains and fitnesses; `generation` is unchanged |
| `Population.Game.Reselect` | dot_maze.py:112 | the population becomes the selection result: positions `Selected` of the old fitnesses, elite object first and fresh copies after it, with the picked players' brains and states |
| `Population.Game.BreedAll` | dot_maze.py:113-117 | the brains become the breeding pass of the selected brains; every player's state is unchanged |
| `Population.Game.RunGenerations` | dot_maze.py:96-119 | `run` stops with `generation == MAX_GENERATIONS` (or unchanged if already past), with the players reset |
| `Population.Game.Generation` | dot_maze.py:97-119 | one generation of exactly t = `Ticks` ≤ `BRAIN_SIZE` ticks, after which every old brain is dead: the elite of the fitnesses the old brains reach in t moves comes first, the brains are `NextBrains` of those brains and fitnesses, the others are fresh, then generation + 1 and reset |
| `Population.Game.PlayedFitnessesHold` | dot_maze.py:105-109 | after t ticks from the start, the fitnesses are those of the brains run for t moves (`PlayedFitnesses`) |
| `Population.Game.NextGeneration` | dot_maze.py:112-119 | evolve, increase `generation` by exactly 1 and reset: the elite object first, brains `NextBrains` of the old brains and fitnesses, everyone at the start with an empty `best_path` |
| `Population.Game.Restart` | dot_maze.py:118-119 | `generation` goes up by exactly 1 and everyone is reset; the players and their brains are kept |

## Left out

- Display and driver: `pygame` setup, `draw`, event polling, `time.sleep`, `exit` and `main` (dot_maze.py:87-92, 99-104, 110, 121-133, 187-199). These are I/O and pacing. `draw` is called on every tick even without a screen; the tick is modelled without it.
- `pygame.Rect`: modelled as a positive-area rectangle overlap with strict inequalities. Rectangles of zero or negative size never collide here.
- Python's `random`: every draw is a parameter (brain rolls, crossover coins and cuts, mutation coins and genes). The unused `n = random.uniform(0, fit_sum)` is dropped. The ranges of the integer draws are stated as preconditions: `IsRoll` for the `randint(-1, 1)` rolls, and `DrawsFor` for the cuts (`<= BRAIN_SIZE`) and the replacement genes (`IsBrain`). The `uniform(0, 1)` coins (`crossCoins`, `mutCoins`, and the `coins` of `Game.Mutate`) are left unconstrained, so the model covers any real draw.
- Floating point: fitness and `fit_sum` are exact reals. Rounding that could keep `fit_sum` from reaching 0 and so shrink the population is not modelled.
- Snap non-overlap: the model gives only the exact snap formulas. The code does not keep the agent out of the wall, and `SnapRightStaysInWall` shows one such case.
- `copy.deepcopy`: a fresh `Player` with equal fields. No aliasing is modelled beyond the elite being the same object.
- `Agent.Player.Move`: it requires a live player to have a gene left and a non-negative step count. In Python, reading past the brain raises `IndexError`. Every player the game holds satisfies this (`Consistent`).
- `Population.Game.Mutate`: it requires the brain to be at least `BRAIN_SIZE` long. On a shorter brain, Python raises `IndexError` as soon as a draw at a position past the brain's end succeeds, and otherwise mutates only the genes it has. Every brain the game holds is `BRAIN_SIZE` long.
- `Population.Game.Evolve`, `Population.Game.RunGenerations`: they assume a population of exactly `POPULATION_SIZE` players, as the constructor creates.
- `Population.Game.RunGenerations`: it states the generation count, validity and the reset, not the brains after several generations. An iterated `NextBrains` (roulette selection, breeding and the played fitnesses together) is beyond the verifier's resource budget. `Population.Game.Generation` states the elite and the brains of each single generation.
- `Population.Game.SelectBestPlayer`, `Population.Game.Selection`, `Evolution.BestIndex`, `Evolution.Selected`: they require a non-empty population. Python raises `IndexError` at `self.players[0]` (dot_maze.py:169) on an empty one, and the game never has one (`POPULATION_SIZE` players).
