/** Genomes ("brains"): fixed-length sequences of acceleration commands. */
module Genes {

  /** One gene: an acceleration applied to the velocity on one tick. */
  datatype Accel = Accel(dx: int, dy: int)

  /** `random.randint(-1, 1)` yields one of -1, 0, 1. */
  predicate IsRoll(v: int) {
    -1 <= v <= 1
  }

  /** A gene whose two components were each drawn by `randint(-1, 1)`. */
  predicate IsGene(g: Accel) {
    IsRoll(g.dx) && IsRoll(g.dy)
  }

  /** Every gene of the brain has components in {-1, 0, 1}. */
  predicate IsBrain(b: seq<Accel>) {
    forall k :: 0 <= k < |b| ==> IsGene(b[k])
  }

  /** `create_brain(size)`: the comprehension draws `randint` twice per gene,
      x component first; `rolls` is that stream of draws, in call order. */
  function CreateBrain(size: nat, rolls: seq<int>): (b: seq<Accel>)
    requires |rolls| == 2 * size
    requires forall i :: 0 <= i < |rolls| ==> IsRoll(rolls[i])
    ensures |b| == size
    ensures IsBrain(b)
    ensures forall k :: 0 <= k < size ==> b[k].dx == rolls[2 * k] && b[k].dy == rolls[2 * k + 1]
  {
    seq(size, k requires 0 <= k < size => Accel(rolls[2 * k], rolls[2 * k + 1]))
  }
}
