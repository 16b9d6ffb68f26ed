/**
 * Sequences of moves replayed from a configuration, and the proof that
 * the lower-bound heuristic never exceeds the length of any legal move
 * sequence that reaches the target arrangement.
 */
module Paths {
  import opened Pegs
  import opened Heuristic
  import opened Configurations

  /** Every move of `ms` passes the generation test when it is applied. */
  predicate LegalPath(c: Configuration, ms: seq<Move>)
    decreases |ms|
  {
    |ms| == 0 || (c.IsValidMove(ms[0].frm, ms[0].to) && LegalPath(c.AfterMove(ms[0]), ms[1..]))
  }

  /** The configuration reached by applying the moves of `ms` in order. */
  function Replay(c: Configuration, ms: seq<Move>): (r: Configuration)
    requires LegalPath(c, ms)
    ensures |r.pegs| == |c.pegs|
    ensures r.dist == c.dist + |ms|
    decreases |ms|
  {
    if |ms| == 0 then c else Replay(c.AfterMove(ms[0]), ms[1..])
  }

  /** The disc each move of `ms` carries, in order. */
  function MovedDiscs(c: Configuration, ms: seq<Move>): (r: seq<int>)
    requires LegalPath(c, ms)
    ensures |r| == |ms|
    decreases |ms|
  {
    if |ms| == 0 then [] else [c.pegs[ms[0].frm].TopDisc()] + MovedDiscs(c.AfterMove(ms[0]), ms[1..])
  }

  /**
   * Legality and the arrangement reached depend only on the pegs one
   * starts from, not on the path metadata.
   */
  lemma {:induction false} ReplayOnPegs(a: Configuration, b: Configuration, ms: seq<Move>)
    requires a.pegs == b.pegs
    ensures LegalPath(a, ms) <==> LegalPath(b, ms)
    ensures LegalPath(a, ms) ==> Replay(a, ms).pegs == Replay(b, ms).pegs
    decreases |ms|
  {
    if |ms| > 0 && a.IsValidMove(ms[0].frm, ms[0].to) {
      ReplayOnPegs(a.AfterMove(ms[0]), b.AfterMove(ms[0]), ms[1..]);
    }
  }

  /** Extending a legal path by one move legal at its end. */
  lemma {:induction false} ReplayAppend(c: Configuration, ms: seq<Move>, m: Move)
    requires LegalPath(c, ms)
    requires Replay(c, ms).IsValidMove(m.frm, m.to)
    ensures LegalPath(c, ms + [m])
    ensures Replay(c, ms + [m]) == Replay(c, ms).AfterMove(m)
    decreases |ms|
  {
    if |ms| > 0 {
      assert (ms + [m])[1..] == ms[1..] + [m];
      ReplayAppend(c.AfterMove(ms[0]), ms[1..], m);
    }
  }

  /**
   * A disc that no move carries keeps its place: the part of its peg from
   * the bottom up to it is still the bottom of that peg at the end.
   */
  lemma {:induction false} PrefixKept(c: Configuration, ms: seq<Move>, i: nat, q: nat)
    requires LegalPath(c, ms)
    requires i < |c.pegs| && q < c.pegs[i].NumDiscs()
    requires c.pegs[i].discs[q] !in MovedDiscs(c, ms)
    ensures q < Replay(c, ms).pegs[i].NumDiscs()
    ensures c.pegs[i].discs[..q + 1] <= Replay(c, ms).pegs[i].discs
    decreases |ms|
  {
    if |ms| > 0 {
      var m := ms[0];
      var next := c.AfterMove(m);
      assert MovedDiscs(c, ms) == [c.pegs[m.frm].TopDisc()] + MovedDiscs(next, ms[1..]);
      StepKeepsPrefix(c, m, i, q);
      assert next.pegs[i].discs[q] == c.pegs[i].discs[q];
      PrefixKept(next, ms[1..], i, q);
    }
  }

  /** One valid move that does not carry the disc at height `q` keeps the bottom of that peg up to it. */
  lemma StepKeepsPrefix(c: Configuration, m: Move, i: nat, q: nat)
    requires c.IsValidMove(m.frm, m.to)
    requires i < |c.pegs| && q < c.pegs[i].NumDiscs()
    requires c.pegs[i].discs[q] != c.pegs[m.frm].TopDisc()
    ensures q < c.AfterMove(m).pegs[i].NumDiscs()
    ensures c.AfterMove(m).pegs[i].discs[..q + 1] == c.pegs[i].discs[..q + 1]
  {
    var before := c.pegs[i].discs;
    var now := c.AfterMove(m).pegs[i].discs;
    if i == m.to {
      assert now == before + [c.pegs[m.frm].TopDisc()];
    } else if i == m.frm {
      assert now == before[..|before| - 1];
    } else {
      assert now == before;
    }
  }

  /** A disc at height `q` is carried, or every disc below it stays on its peg. */
  lemma KeptOrMoved(c: Configuration, ms: seq<Move>, i: nat, h: nat, q: nat)
    requires LegalPath(c, ms)
    requires i < |c.pegs| && h <= q < c.pegs[i].NumDiscs()
    ensures c.pegs[i].discs[q] in MovedDiscs(c, ms) || Replay(c, ms).pegs[i].Contains(c.pegs[i].discs[h])
  {
    if c.pegs[i].discs[q] !in MovedDiscs(c, ms) {
      PrefixKept(c, ms, i, q);
      assert c.pegs[i].discs[..q + 1][h] == c.pegs[i].discs[h];
    }
  }

  /** The discs the heuristic counts: on each peg, the lowest misplaced one and those above. */
  function Misplaced(a: seq<Peg>, b: seq<Peg>, k: nat): seq<int>
    requires k <= |a| && k <= |b|
  {
    if k == 0 then []
    else Misplaced(a, b, k - 1) + a[k - 1].discs[FirstAbsent(a[k - 1], b[k - 1], 0)..]
  }

  /** As many discs are counted as the heuristic's value. */
  lemma {:induction false} MisplacedCount(a: seq<Peg>, b: seq<Peg>, k: nat)
    requires k <= |a| && k <= |b|
    ensures |Misplaced(a, b, k)| == CostUpTo(a, b, k)
  {
    if k > 0 {
      MisplacedCount(a, b, k - 1);
      var h := FirstAbsent(a[k - 1], b[k - 1], 0);
      assert |a[k - 1].discs[h..]| == PegCost(a[k - 1], b[k - 1]);
    }
  }

  /** The counted discs are discs of the first `k` pegs, each counted at most as often as it occurs. */
  lemma {:induction false} MisplacedAreDiscs(a: seq<Peg>, b: seq<Peg>, k: nat)
    requires k <= |a| && k <= |b|
    ensures multiset(Misplaced(a, b, k)) <= AllDiscs(a[..k])
  {
    if k > 0 {
      MisplacedAreDiscs(a, b, k - 1);
      var s := a[k - 1].discs;
      var h := FirstAbsent(a[k - 1], b[k - 1], 0);
      var before := Misplaced(a, b, k - 1);
      assert multiset(Misplaced(a, b, k)) == multiset(before) + multiset(s[h..]);
      SuffixWithin(s, h);
      AllDiscsSnoc(a, k);
      SumWithin(multiset(before), AllDiscs(a[..k - 1]), multiset(s[h..]), multiset(s));
    }
  }

  lemma SuffixWithin(s: seq<int>, h: nat)
    requires h <= |s|
    ensures multiset(s[h..]) <= multiset(s)
  {
    assert s == s[..h] + s[h..];
  }

  lemma SumWithin(x: multiset<int>, big: multiset<int>, y: multiset<int>, other: multiset<int>)
    requires x <= big && y <= other
    ensures x + y <= big + other
  {
  }

  lemma {:induction false} MisplacedAreMoved(c: Configuration, goal: Configuration, ms: seq<Move>, k: nat)
    requires |goal.pegs| == |c.pegs| && k <= |c.pegs|
    requires LegalPath(c, ms) && Replay(c, ms).pegs == goal.pegs
    ensures forall x :: x in Misplaced(c.pegs, goal.pegs, k) ==> x in MovedDiscs(c, ms)
  {
    if k > 0 {
      MisplacedAreMoved(c, goal, ms, k - 1);
      var i := k - 1;
      var p := c.pegs[i];
      var h := FirstAbsent(p, goal.pegs[i], 0);
      forall q | h <= q < p.NumDiscs()
        ensures p.discs[q] in MovedDiscs(c, ms)
      {
        KeptOrMoved(c, ms, i, h, q);
      }
      forall x | x in p.discs[h..]
        ensures x in MovedDiscs(c, ms)
      {
        var t :| 0 <= t < |p.discs[h..]| && p.discs[h..][t] == x;
        assert p.discs[h + t] == x;
      }
    }
  }

  /**
   * Admissibility: from a configuration with distinct discs, every legal
   * move sequence that reaches the arrangement of `goal` is at least as
   * long as the heuristic's estimate. The discs the estimate counts are
   * distinct and each of them must be carried by some move.
   */
  lemma {:induction false} LowerBoundAdmissible(c: Configuration, goal: Configuration, ms: seq<Move>)
    requires DistinctDiscs(c)
    requires |goal.pegs| == |c.pegs|
    requires LegalPath(c, ms) && Replay(c, ms).SameArrangement(goal)
    ensures LowerBoundOf(c.pegs, goal.pegs) <= |ms|
  {
    var n := |c.pegs|;
    var counted := Misplaced(c.pegs, goal.pegs, n);
    var moved := MovedDiscs(c, ms);
    MisplacedCount(c.pegs, goal.pegs, n);
    MisplacedAreDiscs(c.pegs, goal.pegs, n);
    MisplacedAreMoved(c, goal, ms, n);
    assert c.pegs[..n] == c.pegs;
    DistinctCovered(counted, moved, AllDiscs(c.pegs));
  }

  /** Distinct values all occurring in `ys` are no more than `|ys|`. */
  lemma DistinctCovered(xs: seq<int>, ys: seq<int>, all: multiset<int>)
    requires multiset(xs) <= all && forall d :: all[d] <= 1
    requires forall x :: x in xs ==> x in ys
    ensures |xs| <= |ys|
  {
    forall x
      ensures multiset(xs)[x] <= multiset(ys)[x]
    {
      if x in xs {
        assert multiset(xs)[x] <= all[x] <= 1;
        assert x in ys;
      }
    }
    SubMultisetSize(multiset(xs), multiset(ys));
  }
}
