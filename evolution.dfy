/** The genetic operators of `Game` on values: crossover, mutation, the
    elite pick and the roulette walk, and the pairwise breeding pass. */
module Evolution {
  import opened Genes
  import opened Wrappers

  const MutationRate: real := 0.1
  const CrossoverRate: real := 0.3
  const BrainSize: nat := 200
  const PopulationSize: nat := 100
  const MaxGenerations: nat := 100

  /** Python's `s[:i]` for a non-negative `i`. */
  function Take<T>(s: seq<T>, i: nat): seq<T> {
    if i <= |s| then s[..i] else s
  }

  /** Python's `s[i:]` for a non-negative `i`. */
  function Drop<T>(s: seq<T>, i: nat): seq<T> {
    if i <= |s| then s[i..] else []
  }

  // ---------------------------------------------------------------- crossover

  /** `crossover`: both children of a single-point cut at `i`. */
  function Cross(b1: seq<Accel>, b2: seq<Accel>, i: nat): (seq<Accel>, seq<Accel>) {
    (Take(b1, i) + Drop(b2, i), Take(b2, i) + Drop(b1, i))
  }

  /** Whatever the cut, crossing loses no gene and makes none up: the
      children hold exactly the parents' genes between them. */
  lemma CrossKeepsGenes(b1: seq<Accel>, b2: seq<Accel>, i: nat)
    ensures var r := Cross(b1, b2, i);
      |r.0| + |r.1| == |b1| + |b2| &&
      multiset(r.0) + multiset(r.1) == multiset(b1) + multiset(b2)
  {
    var h1, t1, h2, t2 := Take(b1, i), Drop(b1, i), Take(b2, i), Drop(b2, i);
    assert h1 + t1 == b1 && h2 + t2 == b2;
    assert multiset(b1) == multiset(h1) + multiset(t1);
    assert multiset(b2) == multiset(h2) + multiset(t2);
    assert multiset(h1 + t2) == multiset(h1) + multiset(t2);
    assert multiset(h2 + t1) == multiset(h2) + multiset(t1);
  }

  /** For parents of one length and a cut inside them, each child is as long
      as its parents and takes its head from one parent and its tail from the
      other. */
  lemma CrossChildren(b1: seq<Accel>, b2: seq<Accel>, i: nat)
    requires |b1| == |b2| && i <= |b1|
    ensures var r := Cross(b1, b2, i);
      |r.0| == |b1| && |r.1| == |b1| &&
      (forall k :: 0 <= k < |b1| ==> r.0[k] == (if k < i then b1[k] else b2[k])) &&
      (forall k :: 0 <= k < |b1| ==> r.1[k] == (if k < i then b2[k] else b1[k]))
  {
    assert Cross(b1, b2, i) == (b1[..i] + b2[i..], b2[..i] + b1[i..]);
  }

  /** At every position the two children hold the two parents' genes
      between them. */
  lemma CrossPairs(b1: seq<Accel>, b2: seq<Accel>, i: nat)
    requires |b1| == |b2| && i <= |b1|
    ensures var r := Cross(b1, b2, i);
      forall k :: 0 <= k < |b1| ==> multiset{r.0[k], r.1[k]} == multiset{b1[k], b2[k]}
  {
    CrossChildren(b1, b2, i);
    var r := Cross(b1, b2, i);
    forall k | 0 <= k < |b1|
      ensures multiset{r.0[k], r.1[k]} == multiset{b1[k], b2[k]}
    {
      if k >= i {
        assert r.0[k] == b2[k] && r.1[k] == b1[k];
      }
    }
  }

  /** Crossing keeps every gene in {-1, 0, 1}. */
  lemma CrossKeepsBrains(b1: seq<Accel>, b2: seq<Accel>, i: nat)
    requires |b1| == |b2| && i <= |b1| && IsBrain(b1) && IsBrain(b2)
    ensures IsBrain(Cross(b1, b2, i).0) && IsBrain(Cross(b1, b2, i).1)
  {
    CrossChildren(b1, b2, i);
  }

  /** Cut 0 swaps the parents; the full cut keeps them. */
  lemma CrossEnds(b1: seq<Accel>, b2: seq<Accel>, i: nat)
    requires |b1| == |b2| && i <= |b1|
    ensures i == 0 ==> Cross(b1, b2, i) == (b2, b1)
    ensures i == |b1| ==> Cross(b1, b2, i) == (b1, b2)
  {
    CrossChildren(b1, b2, i);
    var r := Cross(b1, b2, i);
    if i == 0 {
      assert r.0 == b2;
      assert r.1 == b1;
    }
    if i == |b1| {
      assert r.0 == b1;
      assert r.1 == b2;
    }
  }

  // ----------------------------------------------------------------- mutation

  /** `mutate` over the first `n` genes: gene `k` becomes `genes[k]` exactly
      when its draw `coins[k]` is at most `rate`. */
  function Mutated(brain: seq<Accel>, coins: seq<real>, genes: seq<Accel>, rate: real, n: nat): (r: seq<Accel>)
    requires n <= |brain| && n <= |coins| && n <= |genes|
    ensures |r| == |brain|
  {
    seq(|brain|, k requires 0 <= k < |brain| => if k < n && coins[k] <= rate then genes[k] else brain[k])
  }

  /** Mutation keeps the length, leaves every gene whose draw failed as it
      was, and writes only genes taken from `genes`. */
  lemma MutatedGenes(brain: seq<Accel>, coins: seq<real>, genes: seq<Accel>, rate: real, n: nat)
    requires n <= |brain| && n <= |coins| && n <= |genes|
    ensures var r := Mutated(brain, coins, genes, rate, n);
      |r| == |brain| &&
      (forall k :: 0 <= k < |brain| && (n <= k || coins[k] > rate) ==> r[k] == brain[k]) &&
      (forall k :: 0 <= k < |brain| && r[k] != brain[k] ==> r[k] == genes[k])
    ensures IsBrain(brain) && IsBrain(genes) ==> IsBrain(Mutated(brain, coins, genes, rate, n))
  {
  }

  /** When no draw is at most the rate nothing changes; when every draw is,
      every one of the first `n` genes is replaced. */
  lemma MutatedExtremes(brain: seq<Accel>, coins: seq<real>, genes: seq<Accel>, rate: real, n: nat)
    requires n <= |brain| && n <= |coins| && n <= |genes|
    ensures (forall k :: 0 <= k < n ==> coins[k] > rate) ==> Mutated(brain, coins, genes, rate, n) == brain
    ensures (forall k :: 0 <= k < n ==> coins[k] <= rate) ==>
              Mutated(brain, coins, genes, rate, n) == genes[..n] + brain[n..]
  {
  }

  // ---------------------------------------------------------- the elite pick

  /** The scan of `selectBestPlayer` from position `k`, with the best so far. */
  function BestFrom(fs: seq<real>, k: nat, best: nat): (r: nat)
    requires best < |fs| && k <= |fs| && (best < k || best == 0)
    requires forall j :: 0 <= j < k ==> fs[j] <= fs[best]
    requires forall j :: 0 <= j < best ==> fs[j] < fs[best]
    decreases |fs| - k
    ensures r < |fs|
    ensures forall j :: 0 <= j < |fs| ==> fs[j] <= fs[r]
    ensures forall j :: 0 <= j < r ==> fs[j] < fs[r]
  {
    if k == |fs| then best
    else BestFrom(fs, k + 1, if fs[k] > fs[best] then k else best)
  }

  /** `selectBestPlayer` on the fitness list: the first position of a maximum. */
  function BestIndex(fs: seq<real>): (r: nat)
    requires |fs| > 0
    ensures r < |fs|
    ensures forall j :: 0 <= j < |fs| ==> fs[j] <= fs[r]
    ensures forall j :: 0 <= j < r ==> fs[j] < fs[r]
  {
    BestFrom(fs, 0, 0)
  }

  // --------------------------------------------------------- the roulette walk

  /** `fs[0] + ... + fs[n-1]`, summed left to right as `selection` does. */
  function Prefix(fs: seq<real>, n: nat): real
    requires n <= |fs|
  {
    if n == 0 then 0.0 else Prefix(fs, n - 1) + fs[n - 1]
  }

  /** With no negative fitness, the prefix sums grow with `n` from 0, so
      the total bounds every prefix and every single fitness. */
  lemma {:induction false} PrefixMonotone(fs: seq<real>, m: nat, n: nat)
    requires NonNegative(fs) && m <= n <= |fs|
    ensures 0.0 <= Prefix(fs, m) <= Prefix(fs, n)
    ensures m < n ==> fs[m] <= Prefix(fs, n)
  {
    if m < n {
      PrefixMonotone(fs, m, n - 1);
    } else if m > 0 {
      PrefixMonotone(fs, m - 1, m);
    }
  }

  predicate NonNegative(fs: seq<real>) {
    forall k :: 0 <= k < |fs| ==> fs[k] >= 0.0
  }

  /** The running total once the fitnesses at positions `k` to `j - 1`
      have been subtracted from `sum`. */
  function Left(fs: seq<real>, sum: real, k: nat, j: nat): real
    requires k <= j <= |fs|
  {
    sum - (Prefix(fs, j) - Prefix(fs, k))
  }

  /** One pass of the inner loop of `selection`, from position `k` with the
      running total at `sum`: subtract each fitness in turn and stop at the
      first position where the total drops to 0 or below. Returns that
      position, if any, and the running total left. */
  function Spin(fs: seq<real>, sum: real, k: nat): (r: (Option<nat>, real))
    requires k <= |fs|
    decreases |fs| - k
    ensures r.0.Some? ==>
      k <= r.0.value < |fs| && Left(fs, sum, k, r.0.value + 1) <= 0.0 &&
      r.1 == Left(fs, sum, k, r.0.value + 1)
    ensures r.0.Some? ==> forall j :: k < j <= r.0.value ==> Left(fs, sum, k, j) > 0.0
    ensures r.0.None? ==>
      (forall j :: k < j <= |fs| ==> Left(fs, sum, k, j) > 0.0) && r.1 == Left(fs, sum, k, |fs|)
  {
    if k == |fs| then (None, sum)
    else if sum - fs[k] <= 0.0 then (Some(k), sum - fs[k])
    else
      var r := Spin(fs, sum - fs[k], k + 1);
      assert Prefix(fs, k + 1) == Prefix(fs, k) + fs[k];
      assert forall j :: k + 1 <= j <= |fs| ==> Left(fs, sum - fs[k], k + 1, j) == Left(fs, sum, k, j);
      r
  }

  /** `n` passes of the inner loop sharing one running total, which is never
      reset: the positions picked, in order, and the total left. A pass that
      reaches the end without a pick adds nothing. */
  function Spins(fs: seq<real>, sum: real, n: nat): (r: (seq<nat>, real))
    ensures |r.0| <= n
    ensures forall j :: 0 <= j < |r.0| ==> r.0[j] < |fs|
  {
    if n == 0 then ([], sum)
    else
      var before := Spins(fs, sum, n - 1);
      var spin := Spin(fs, before.1, 0);
      (before.0 + (if spin.0.Some? then [spin.0.value] else []), spin.1)
  }

  /** The first pass starts from the total of all fitnesses: with no
      negative fitness it always picks, namely the first position whose
      prefix sum reaches the total, and leaves the running total at 0 or
      below. */
  lemma FirstSpinReachesTotal(fs: seq<real>)
    requires |fs| > 0 && NonNegative(fs)
    ensures var r := Spin(fs, Prefix(fs, |fs|), 0);
      r.0.Some? && r.1 <= 0.0 &&
      Prefix(fs, r.0.value + 1) >= Prefix(fs, |fs|) &&
      forall j :: 0 < j <= r.0.value ==> Prefix(fs, j) < Prefix(fs, |fs|)
  {
    var total := Prefix(fs, |fs|);
    var r := Spin(fs, total, 0);
    assert Left(fs, total, 0, |fs|) == 0.0;
    forall j | 0 < j <= |fs|
      ensures Left(fs, total, 0, j) == total - Prefix(fs, j)
    {
    }
  }

  /** Once the running total is 0 or below, a pass picks position 0 at
      once and the total stays at 0 or below. */
  lemma DrainedSpinPicksFirst(fs: seq<real>, sum: real)
    requires |fs| > 0 && NonNegative(fs) && sum <= 0.0
    ensures Spin(fs, sum, 0) == (Some(0), sum - fs[0]) && sum - fs[0] <= 0.0
  {
  }

  /** Because the running total is never reset, `n >= 1` passes started from
      the total pick `n` positions: the first pass's pick, then position 0
      every time after. */
  lemma {:induction false} SpinsShape(fs: seq<real>, n: nat)
    requires |fs| > 0 && NonNegative(fs) && n >= 1
    ensures var r := Spins(fs, Prefix(fs, |fs|), n);
      |r.0| == n && r.1 <= 0.0 &&
      r.0[0] == Spin(fs, Prefix(fs, |fs|), 0).0.value &&
      forall j :: 1 <= j < n ==> r.0[j] == 0
  {
    var total := Prefix(fs, |fs|);
    FirstSpinReachesTotal(fs);
    if n > 1 {
      SpinsShape(fs, n - 1);
      var before := Spins(fs, total, n - 1);
      DrainedSpinPicksFirst(fs, before.1);
      assert Spins(fs, total, n).0 == before.0 + [0];
    }
  }

  /** `selection` as positions into the old population: the elite first,
      then one pick per further draw. */
  function Selected(fs: seq<real>): (r: seq<nat>)
    requires |fs| > 0
    ensures 1 <= |r| <= |fs|
    ensures forall j :: 0 <= j < |r| ==> r[j] < |fs|
  {
    [BestIndex(fs)] + Spins(fs, Prefix(fs, |fs|), |fs| - 1).0
  }

  /** With no negative fitness, `selection` returns as many players as it
      was given: the best first, then the first pass's pick, then copies of
      the player at position 0. */
  lemma SelectedShape(fs: seq<real>)
    requires |fs| > 0 && NonNegative(fs)
    ensures var r := Selected(fs);
      |r| == |fs| && r[0] == BestIndex(fs) &&
      (|fs| > 1 ==> r[1] == Spin(fs, Prefix(fs, |fs|), 0).0.value) &&
      forall j :: 2 <= j < |r| ==> r[j] == 0
  {
    if |fs| > 1 {
      SpinsShape(fs, |fs| - 1);
    }
  }

  // ------------------------------------------------------- the breeding pass

  /** The random draws of one breeding pass, by player position: the
      crossover draw (`uniform(0, 1)`) and cut (`randint(0, size)`) for the
      pair starting there, and the per-gene mutation draws and replacement
      genes. A cut whose crossover draw failed is never used. */
  datatype BreedDraws = BreedDraws(crossCoins: seq<real>, cuts: seq<nat>,
                                   mutCoins: seq<seq<real>>, mutGenes: seq<seq<Accel>>)

  /** Draws for a population of `n`: cuts within `[0, BrainSize]` and valid
      replacement genes; the coins may be any real. */
  predicate DrawsFor(d: BreedDraws, n: nat) {
    |d.crossCoins| == n && |d.cuts| == n && |d.mutCoins| == n && |d.mutGenes| == n &&
    (forall i :: 0 <= i < n ==> d.cuts[i] <= BrainSize) &&
    (forall i :: 0 <= i < n ==> |d.mutCoins[i]| == BrainSize) &&
    (forall i :: 0 <= i < n ==> |d.mutGenes[i]| == BrainSize && IsBrain(d.mutGenes[i]))
  }

  /** Every brain has the game's brain length. */
  predicate FullLength(bs: seq<seq<Accel>>) {
    forall k :: 0 <= k < |bs| ==> |bs[k]| == BrainSize
  }

  /** The pair (i, i + 1) of the loop in `run`: cross it when the draw is at
      most the crossover rate, then mutate both. Both brains keep their
      length and stay valid. */
  function BreedPair(b1: seq<Accel>, b2: seq<Accel>, i: nat, d: BreedDraws): (r: (seq<Accel>, seq<Accel>))
    requires |b1| == BrainSize && |b2| == BrainSize
    requires i + 1 < |d.crossCoins| && DrawsFor(d, |d.crossCoins|)
    ensures |r.0| == BrainSize && |r.1| == BrainSize
    ensures IsBrain(b1) && IsBrain(b2) ==> IsBrain(r.0) && IsBrain(r.1)
  {
    var c := if d.crossCoins[i] <= CrossoverRate then Cross(b1, b2, d.cuts[i]) else (b1, b2);
    CrossChildren(b1, b2, d.cuts[i]);
    assert IsBrain(b1) && IsBrain(b2) ==> IsBrain(c.0) && IsBrain(c.1) by {
      if IsBrain(b1) && IsBrain(b2) {
        CrossKeepsBrains(b1, b2, d.cuts[i]);
      }
    }
    MutatedGenes(c.0, d.mutCoins[i], d.mutGenes[i], MutationRate, BrainSize);
    MutatedGenes(c.1, d.mutCoins[i + 1], d.mutGenes[i + 1], MutationRate, BrainSize);
    (Mutated(c.0, d.mutCoins[i], d.mutGenes[i], MutationRate, BrainSize),
     Mutated(c.1, d.mutCoins[i + 1], d.mutGenes[i + 1], MutationRate, BrainSize))
  }

  /** The loop `for i in range(1, len(players) - 1, 2)` of `run`, from `i`
      on: positions below `i` are never touched. */
  function BreedFrom(bs: seq<seq<Accel>>, i: nat, d: BreedDraws): (r: seq<seq<Accel>>)
    requires FullLength(bs) && DrawsFor(d, |bs|)
    decreases |bs| - i
    ensures |r| == |bs| && FullLength(r)
    ensures forall k :: 0 <= k < i && k < |bs| ==> r[k] == bs[k]
  {
    if i + 1 >= |bs| then bs
    else
      var p := BreedPair(bs[i], bs[i + 1], i, d);
      BreedFrom(bs[i := p.0][i + 1 := p.1], i + 2, d)
  }

  /** Wherever neither mutation draw of a pair succeeds, the bred pair
      holds the same two genes as before, whether or not it was crossed. */
  lemma BreedPairGenes(b1: seq<Accel>, b2: seq<Accel>, i: nat, d: BreedDraws, k: nat)
    requires |b1| == BrainSize && |b2| == BrainSize
    requires i + 1 < |d.crossCoins| && DrawsFor(d, |d.crossCoins|)
    requires k < BrainSize && d.mutCoins[i][k] > MutationRate && d.mutCoins[i + 1][k] > MutationRate
    ensures var r := BreedPair(b1, b2, i, d);
      multiset{r.0[k], r.1[k]} == multiset{b1[k], b2[k]}
  {
    var c := if d.crossCoins[i] <= CrossoverRate then Cross(b1, b2, d.cuts[i]) else (b1, b2);
    CrossChildren(b1, b2, d.cuts[i]);
    CrossPairs(b1, b2, d.cuts[i]);
    MutatedGenes(c.0, d.mutCoins[i], d.mutGenes[i], MutationRate, BrainSize);
    MutatedGenes(c.1, d.mutCoins[i + 1], d.mutGenes[i + 1], MutationRate, BrainSize);
  }

  /** Breeding writes only genes in {-1, 0, 1}. */
  lemma {:induction false} BreedKeepsBrains(bs: seq<seq<Accel>>, i: nat, d: BreedDraws)
    requires FullLength(bs) && DrawsFor(d, |bs|)
    requires forall k :: 0 <= k < |bs| ==> IsBrain(bs[k])
    decreases |bs| - i
    ensures forall k :: 0 <= k < |bs| ==> IsBrain(BreedFrom(bs, i, d)[k])
  {
    if i + 1 < |bs| {
      var p := BreedPair(bs[i], bs[i + 1], i, d);
      var next := bs[i := p.0][i + 1 := p.1];
      assert forall k :: 0 <= k < |next| ==> IsBrain(next[k]);
      assert BreedFrom(bs, i, d) == BreedFrom(next, i + 2, d);
      BreedKeepsBrains(next, i + 2, d);
    }
  }

  /** Started at an odd position, the pass pairs (i, i + 1), (i + 2, i + 3),
      ... below the last position: for an even population the last player
      is never crossed or mutated. */
  lemma {:induction false} BreedSkipsLastWhenEven(bs: seq<seq<Accel>>, i: nat, d: BreedDraws)
    requires FullLength(bs) && DrawsFor(d, |bs|)
    requires i % 2 == 1 && |bs| % 2 == 0 && |bs| > 0
    decreases |bs| - i
    ensures BreedFrom(bs, i, d)[|bs| - 1] == bs[|bs| - 1]
  {
    if i + 1 < |bs| {
      assert i + 1 < |bs| - 1;
      var p := BreedPair(bs[i], bs[i + 1], i, d);
      BreedSkipsLastWhenEven(bs[i := p.0][i + 1 := p.1], i + 2, d);
    }
  }

  /** No crossover draw and no mutation draw succeeds. */
  predicate Quiet(d: BreedDraws) {
    (forall i :: 0 <= i < |d.crossCoins| ==> d.crossCoins[i] > CrossoverRate) &&
    (forall i, k :: 0 <= i < |d.mutCoins| && 0 <= k < |d.mutCoins[i]| ==> d.mutCoins[i][k] > MutationRate)
  }

  /** When no draw succeeds, breeding changes no brain. */
  lemma {:induction false} BreedQuiet(bs: seq<seq<Accel>>, i: nat, d: BreedDraws)
    requires FullLength(bs) && DrawsFor(d, |bs|) && Quiet(d)
    decreases |bs| - i
    ensures BreedFrom(bs, i, d) == bs
  {
    if i + 1 < |bs| {
      MutatedExtremes(bs[i], d.mutCoins[i], d.mutGenes[i], MutationRate, BrainSize);
      MutatedExtremes(bs[i + 1], d.mutCoins[i + 1], d.mutGenes[i + 1], MutationRate, BrainSize);
      assert BreedPair(bs[i], bs[i + 1], i, d) == (bs[i], bs[i + 1]);
      assert bs[i := bs[i]][i + 1 := bs[i + 1]] == bs;
      BreedQuiet(bs, i + 2, d);
    }
  }

  /** The entries of `xs` at `picks`, in that order: the brains (or the
      states) of the selected players. */
  function Pick<T>(xs: seq<T>, picks: seq<nat>): (r: seq<T>)
    requires forall j :: 0 <= j < |picks| ==> picks[j] < |xs|
    ensures |r| == |picks| && forall j {:trigger r[j]} :: 0 <= j < |picks| ==> r[j] == xs[picks[j]]
  {
    if picks == [] then [] else [xs[picks[0]]] + Pick(xs, picks[1..])
  }

  /** The brains after one evolve step, by position: the selected brains,
      bred from position 1 on. The elite's brain survives at position 0
      and, for an even population of at least 4, the last position holds
      an unbred copy of the brain at position 0 of the old population. */
  function NextBrains(bs: seq<seq<Accel>>, fs: seq<real>, d: BreedDraws): (r: seq<seq<Accel>>)
    requires |bs| == |fs| > 0 && FullLength(bs) && NonNegative(fs) && DrawsFor(d, |fs|)
    ensures |r| == |bs| && FullLength(r)
    ensures r[0] == bs[BestIndex(fs)]
    ensures |bs| % 2 == 0 && |bs| >= 4 ==> r[|bs| - 1] == bs[0]
  {
    SelectedShape(fs);
    var picked := Pick(bs, Selected(fs));
    var r := BreedFrom(picked, 1, d);
    assert |bs| % 2 == 0 && |bs| >= 4 ==> r[|bs| - 1] == bs[0] by {
      if |bs| % 2 == 0 && |bs| >= 4 {
        BreedSkipsLastWhenEven(picked, 1, d);
      }
    }
    r
  }

  /** An evolve step writes only genes in {-1, 0, 1}. */
  lemma NextBrainsKeepBrains(bs: seq<seq<Accel>>, fs: seq<real>, d: BreedDraws)
    requires |bs| == |fs| > 0 && FullLength(bs) && NonNegative(fs) && DrawsFor(d, |fs|)
    requires forall k :: 0 <= k < |bs| ==> IsBrain(bs[k])
    ensures forall k :: 0 <= k < |bs| ==> IsBrain(NextBrains(bs, fs, d)[k])
  {
    SelectedShape(fs);
    BreedKeepsBrains(Pick(bs, Selected(fs)), 1, d);
  }
}
