/**
 * The lower-bound heuristic of the search, as a specification over peg
 * sequences. For every pair of corresponding pegs, the lowest disc of the
 * current peg that is absent from the target peg must move, and so must
 * every disc stacked above it; the estimate adds up those counts.
 */
module Heuristic {
  import opened Pegs

  function Min(x: int, y: int): int
  {
    if x <= y then x else y
  }

  /** Every disc of `p` also lies on `target`. */
  predicate AllPresent(p: Peg, target: Peg)
  {
    forall k :: 0 <= k < p.NumDiscs() ==> target.Contains(p.discs[k])
  }

  /**
   * The height of the lowest disc of `p`, at height `from` or above,
   * that is absent from `target`; the number of discs if there is none.
   */
  function FirstAbsent(p: Peg, target: Peg, from: nat): (h: nat)
    requires from <= p.NumDiscs()
    ensures from <= h <= p.NumDiscs()
    ensures forall k :: from <= k < h ==> target.Contains(p.discs[k])
    ensures h < p.NumDiscs() ==> !target.Contains(p.discs[h])
    decreases p.NumDiscs() - from
  {
    if from == p.NumDiscs() || !target.Contains(p.discs[from]) then from
    else FirstAbsent(p, target, from + 1)
  }

  /** What one peg contributes: its disc count minus the height found above. */
  function PegCost(p: Peg, target: Peg): (cost: nat)
    ensures cost <= p.NumDiscs()
    ensures cost == 0 <==> AllPresent(p, target)
  {
    var h := FirstAbsent(p, target, 0);
    assert h < p.NumDiscs() ==> !target.Contains(p.discs[h]);
    p.NumDiscs() - h
  }

  /**
   * The contributions of the first `k` pairs of pegs, never more than the
   * number of discs on them.
   */
  function CostUpTo(a: seq<Peg>, b: seq<Peg>, k: nat): (r: nat)
    requires k <= |a| && k <= |b|
    ensures r <= |AllDiscs(a[..k])|
  {
    if k == 0 then 0
    else
      AllDiscsSnoc(a, k);
      CostUpTo(a, b, k - 1) + PegCost(a[k - 1], b[k - 1])
  }

  /**
   * The heuristic: pegs are paired position by position, as `zip` does.
   * It never exceeds the number of discs.
   */
  function LowerBoundOf(a: seq<Peg>, b: seq<Peg>): (r: nat)
    ensures r <= |AllDiscs(a)|
  {
    var m := Min(|a|, |b|);
    PrefixDiscs(a, m);
    SubMultisetSize(AllDiscs(a[..m]), AllDiscs(a));
    CostUpTo(a, b, m)
  }

  lemma {:induction false} PrefixDiscs(a: seq<Peg>, k: nat)
    requires k <= |a|
    ensures AllDiscs(a[..k]) <= AllDiscs(a)
  {
    if k < |a| {
      PrefixDiscs(a[..|a| - 1], k);
      assert a[..|a| - 1][..k] == a[..k];
    } else {
      assert a[..k] == a;
    }
  }

  lemma {:induction false} CostUpToZeroIff(a: seq<Peg>, b: seq<Peg>, k: nat)
    requires k <= |a| && k <= |b|
    ensures CostUpTo(a, b, k) == 0 <==> forall i :: 0 <= i < k ==> AllPresent(a[i], b[i])
  {
    if k > 0 {
      CostUpToZeroIff(a, b, k - 1);
    }
  }

  /**
   * The estimate is zero exactly when every disc of every current peg
   * already lies on the corresponding target peg.
   */
  lemma LowerBoundZeroIff(a: seq<Peg>, b: seq<Peg>)
    ensures LowerBoundOf(a, b) == 0 <==>
              forall i :: 0 <= i < Min(|a|, |b|) ==> AllPresent(a[i], b[i])
  {
    CostUpToZeroIff(a, b, Min(|a|, |b|));
  }

  /** The estimate from an arrangement to itself is zero. */
  lemma LowerBoundSelf(a: seq<Peg>)
    ensures LowerBoundOf(a, a) == 0
  {
    LowerBoundZeroIff(a, a);
  }
}
