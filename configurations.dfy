/**
 * Configurations of the puzzle and the moves between them. A
 * configuration is the list of pegs plus path metadata: the number of
 * moves taken from the start of the search, and the move that produced
 * it. A move names a source and a destination peg by index and points
 * back to the configuration it was generated from.
 */
module Configurations {
  import opened Wrappers
  import opened Pegs
  import opened Heuristic

  datatype Move = Move(cfg: Configuration, frm: nat, to: nat)

  datatype Configuration = Configuration(pegs: seq<Peg>, dist: int, parentMove: Option<Move>) {

    /**
     * The test move generation applies to the pair (fi, ti): distinct pegs,
     * a non-empty source, and a destination that is empty or whose top is
     * at least as large as the source's top. The comparison is `<=`.
     */
    predicate IsValidMove(fi: nat, ti: nat)
    {
      && fi < |pegs| && ti < |pegs|
      && fi != ti
      && pegs[fi].NumDiscs() != 0
      && (pegs[ti].NumDiscs() == 0 || pegs[fi].TopDisc() <= pegs[ti].TopDisc())
    }

    /** Moves from peg `fi` to the pegs below index `ti`, in index order. */
    function RowMoves(fi: nat, ti: nat): (r: seq<Move>)
      requires fi < |pegs| && ti <= |pegs|
      ensures forall k :: 0 <= k < |r| ==>
                r[k].cfg == this && r[k].frm == fi && r[k].to < ti && IsValidMove(fi, r[k].to)
    {
      if ti == 0 then []
      else RowMoves(fi, ti - 1) + (if IsValidMove(fi, ti - 1) then [Move(this, fi, ti - 1)] else [])
    }

    /** Moves from the pegs below index `fi`, source-major order. */
    function MovesBefore(fi: nat): (r: seq<Move>)
      requires fi <= |pegs|
      ensures forall k :: 0 <= k < |r| ==> r[k].cfg == this && r[k].frm < fi && IsValidMove(r[k].frm, r[k].to)
    {
      if fi == 0 then [] else MovesBefore(fi - 1) + RowMoves(fi - 1, |pegs|)
    }

    /**
     * The moves generated for this configuration, in generation order;
     * each points back to this configuration and passes the test.
     */
    function ValidMoves(): (r: seq<Move>)
      ensures forall k :: 0 <= k < |r| ==> r[k].cfg == this && IsValidMove(r[k].frm, r[k].to)
    {
      MovesBefore(|pegs|)
    }

    /** The nested-loop move generator. */
    method GetValidMoves() returns (moves: seq<Move>)
      ensures moves == ValidMoves()
    {
      moves := [];
      var fi := 0;
      while fi < |pegs|
        invariant fi <= |pegs|
        invariant moves == MovesBefore(fi)
      {
        var ti := 0;
        while ti < |pegs|
          invariant ti <= |pegs|
          invariant moves == MovesBefore(fi) + RowMoves(fi, ti)
        {
          ghost var row := RowMoves(fi, ti);
          if fi == ti || pegs[fi].NumDiscs() == 0 {
            // skipped, as the source's `continue`
            assert RowMoves(fi, ti + 1) == row + [];
          } else if pegs[ti].NumDiscs() == 0 || pegs[fi].TopDisc() <= pegs[ti].TopDisc() {
            var m := Move(this, fi, ti);
            assert RowMoves(fi, ti + 1) == row + [m];
            assert MovesBefore(fi) + (row + [m]) == MovesBefore(fi) + row + [m];
            moves := moves + [m];
          } else {
            assert RowMoves(fi, ti + 1) == row + [];
          }
          ti := ti + 1;
        }
        assert MovesBefore(fi + 1) == MovesBefore(fi) + RowMoves(fi, |pegs|);
        fi := fi + 1;
      }
    }

    /** What applying `m` needs so as not to fail: indices in range, a source disc. */
    predicate CanApply(m: Move)
    {
      m.frm < |pegs| && m.to < |pegs| && pegs[m.frm].NumDiscs() > 0
    }

    /**
     * The configuration after `m`, peg by peg: the destination gets the
     * source's top disc on top, the source loses it, every other peg is
     * kept. The source assigns the destination last, so when both indices
     * coincide that peg ends up with its top disc doubled.
     */
    function AfterMove(m: Move): (r: Configuration)
      requires CanApply(m)
      ensures |r.pegs| == |pegs|
      ensures r.dist == dist + 1 && r.parentMove == Some(m)
      ensures forall i :: 0 <= i < |pegs| && i != m.frm && i != m.to ==> r.pegs[i] == pegs[i]
    {
      var disc := pegs[m.frm].TopDisc();
      Configuration(
        seq(|pegs|, i requires 0 <= i < |pegs| =>
          if i == m.to then pegs[i].PutTop(disc)
          else if i == m.frm then pegs[i].RemoveTop()
          else pegs[i]),
        dist + 1, Some(m))
    }

    /**
     * `move`: copies the peg list and assigns the two changed pegs into it.
     * The move is not checked for legality, as in the source.
     */
    method MakeMove(m: Move) returns (r: Configuration)
      requires CanApply(m)
      ensures r == AfterMove(m)
    {
      var oldFrom := pegs[m.frm];
      var oldTo := pegs[m.to];
      var disc := oldFrom.TopDisc();
      var newFrom := oldFrom.RemoveTop();
      var newTo := oldTo.PutTop(disc);
      var newPegs := pegs;
      newPegs := newPegs[m.frm := newFrom];
      newPegs := newPegs[m.to := newTo];
      r := Configuration(newPegs, dist + 1, Some(m));
    }

    /**
     * `lower_bound`: for each pair of pegs, scan bottom-up for the first
     * disc missing from the other configuration's peg, add the number of
     * discs from there to the top, and go on with the next peg.
     */
    method LowerBound(other: Configuration) returns (cost: int)
      ensures cost == LowerBoundOf(pegs, other.pegs)
    {
      cost := 0;
      var n := Min(|pegs|, |other.pegs|);
      var i := 0;
      while i < n
        invariant i <= n
        invariant cost == CostUpTo(pegs, other.pegs, i)
      {
        var peg := pegs[i];
        var otherPeg := other.pegs[i];
        var height := 0;
        while height < peg.NumDiscs()
          invariant height <= peg.NumDiscs()
          invariant FirstAbsent(peg, otherPeg, height) == FirstAbsent(peg, otherPeg, 0)
          invariant cost == CostUpTo(pegs, other.pegs, i)
        {
          if !otherPeg.Contains(peg.discs[height]) {
            cost := cost + (peg.NumDiscs() - height);
            break;
          }
          height := height + 1;
        }
        i := i + 1;
      }
    }

    /**
     * `__eq__`: pegs compared pairwise. Only the arrangement counts, never
     * `dist` or `parentMove`. The source pairs pegs with `zip`, which
     * stops at the shorter list, so pegs beyond it are not compared.
     */
    predicate SameArrangement(other: Configuration)
      ensures SameArrangement(other) <==>
                pegs[..Min(|pegs|, |other.pegs|)] == other.pegs[..Min(|pegs|, |other.pegs|)]
      ensures |pegs| == |other.pegs| ==> (SameArrangement(other) <==> pegs == other.pegs)
    {
      forall i :: 0 <= i < |pegs| && i < |other.pegs| ==> pegs[i] == other.pegs[i]
    }
  }

  /** Equality ignores everything except the pegs. */
  lemma SameArrangementOnPegs(a: Configuration, b: Configuration, g: Configuration)
    requires a.pegs == b.pegs
    ensures a.SameArrangement(g) <==> b.SameArrangement(g)
  {
  }

  /**
   * Two configurations with the same number of pegs that both equal `g`,
   * which has at least as many pegs, have the same pegs. With fewer pegs
   * in `g`, `zip` would leave their last pegs uncompared.
   */
  lemma SameArrangementAgree(a: Configuration, b: Configuration, g: Configuration)
    requires |a.pegs| == |b.pegs| <= |g.pegs|
    requires a.SameArrangement(g) && b.SameArrangement(g)
    ensures a.pegs == b.pegs
  {
    assert forall i :: 0 <= i < |a.pegs| ==> a.pegs[i] == g.pegs[i] == b.pegs[i];
  }

  /** Every peg is strictly decreasing bottom-up. */
  predicate Stacked(c: Configuration)
  {
    forall i :: 0 <= i < |c.pegs| ==> c.pegs[i].Stacked()
  }

  /** No disc size occurs twice in the configuration. */
  ghost predicate DistinctDiscs(c: Configuration)
  {
    forall d :: AllDiscs(c.pegs)[d] <= 1
  }

  /** `a` is generated before `b`: source index first, then destination. */
  predicate Precedes(a: Move, b: Move)
  {
    a.frm < b.frm || (a.frm == b.frm && a.to < b.to)
  }

  predicate InGenerationOrder(ms: seq<Move>)
  {
    forall i, j :: 0 <= i < j < |ms| ==> Precedes(ms[i], ms[j])
  }

  lemma {:induction false} RowMovesMembers(c: Configuration, fi: nat, ti: nat, m: Move)
    requires fi < |c.pegs| && ti <= |c.pegs|
    ensures m in c.RowMoves(fi, ti) <==> m.cfg == c && m.frm == fi && m.to < ti && c.IsValidMove(m.frm, m.to)
  {
    if ti > 0 {
      RowMovesMembers(c, fi, ti - 1, m);
    }
  }

  lemma {:induction false} MovesBeforeMembers(c: Configuration, fi: nat, m: Move)
    requires fi <= |c.pegs|
    ensures m in c.MovesBefore(fi) <==> m.cfg == c && m.frm < fi && c.IsValidMove(m.frm, m.to)
  {
    if fi > 0 {
      MovesBeforeMembers(c, fi - 1, m);
      RowMovesMembers(c, fi - 1, |c.pegs|, m);
    }
  }

  /**
   * Move generation yields exactly the pairs that pass the test: a move
   * is generated if and only if it points back to this configuration and
   * its pair of pegs is valid.
   */
  lemma ValidMovesExactly(c: Configuration, m: Move)
    ensures m in c.ValidMoves() <==> m.cfg == c && c.IsValidMove(m.frm, m.to)
  {
    MovesBeforeMembers(c, |c.pegs|, m);
  }

  lemma ConcatInOrder(xs: seq<Move>, ys: seq<Move>)
    requires InGenerationOrder(xs) && InGenerationOrder(ys)
    requires forall i, j :: 0 <= i < |xs| && 0 <= j < |ys| ==> Precedes(xs[i], ys[j])
    ensures InGenerationOrder(xs + ys)
  {
    var zs := xs + ys;
    forall i, j | 0 <= i < j < |zs|
      ensures Precedes(zs[i], zs[j])
    {
      if j < |xs| {
        assert zs[i] == xs[i] && zs[j] == xs[j];
      } else if i >= |xs| {
        assert zs[i] == ys[i - |xs|] && zs[j] == ys[j - |xs|];
      } else {
        assert zs[i] == xs[i] && zs[j] == ys[j - |xs|];
      }
    }
  }

  lemma {:induction false} RowMovesInOrder(c: Configuration, fi: nat, ti: nat)
    requires fi < |c.pegs| && ti <= |c.pegs|
    ensures InGenerationOrder(c.RowMoves(fi, ti))
    ensures forall k :: 0 <= k < |c.RowMoves(fi, ti)| ==>
              c.RowMoves(fi, ti)[k].frm == fi && c.RowMoves(fi, ti)[k].to < ti
  {
    if ti > 0 {
      RowMovesInOrder(c, fi, ti - 1);
      var step := if c.IsValidMove(fi, ti - 1) then [Move(c, fi, ti - 1)] else [];
      ConcatInOrder(c.RowMoves(fi, ti - 1), step);
    }
  }

  lemma {:induction false} MovesBeforeInOrder(c: Configuration, fi: nat)
    requires fi <= |c.pegs|
    ensures InGenerationOrder(c.MovesBefore(fi))
    ensures forall k :: 0 <= k < |c.MovesBefore(fi)| ==> c.MovesBefore(fi)[k].frm < fi
  {
    if fi > 0 {
      MovesBeforeInOrder(c, fi - 1);
      RowMovesInOrder(c, fi - 1, |c.pegs|);
      ConcatInOrder(c.MovesBefore(fi - 1), c.RowMoves(fi - 1, |c.pegs|));
    }
  }

  /**
   * Moves are generated with the source index ascending and, for one
   * source, the destination index ascending; in particular no pair twice.
   */
  lemma ValidMovesInOrder(c: Configuration)
    ensures InGenerationOrder(c.ValidMoves())
  {
    MovesBeforeInOrder(c, |c.pegs|);
  }

  lemma {:induction false} MovesBeforeCount(c: Configuration, fi: nat)
    requires fi <= |c.pegs|
    ensures |c.MovesBefore(fi)| <= fi * |c.pegs|
  {
    if fi > 0 {
      MovesBeforeCount(c, fi - 1);
      RowMovesCount(c, fi - 1, |c.pegs|);
      assert (fi - 1) * |c.pegs| + |c.pegs| == fi * |c.pegs|;
    }
  }

  lemma {:induction false} RowMovesCount(c: Configuration, fi: nat, ti: nat)
    requires fi < |c.pegs| && ti <= |c.pegs|
    ensures |c.RowMoves(fi, ti)| <= ti
  {
    if ti > 0 {
      RowMovesCount(c, fi, ti - 1);
    }
  }

  /** At most one move per ordered pair of pegs. */
  lemma ValidMovesCount(c: Configuration)
    ensures |c.ValidMoves()| <= |c.pegs| * |c.pegs|
  {
    MovesBeforeCount(c, |c.pegs|);
  }

  /**
   * With every disc distinct the `<=` of the test is in fact `<`: the two
   * tops lie on different pegs, so they cannot be the same size.
   */
  lemma ValidMoveIsStrict(c: Configuration, m: Move)
    requires DistinctDiscs(c)
    requires m in c.ValidMoves()
    ensures c.pegs[m.to].NumDiscs() == 0 || c.pegs[m.frm].TopDisc() < c.pegs[m.to].TopDisc()
  {
    ValidMovesExactly(c, m);
    if c.pegs[m.to].NumDiscs() != 0 {
      var d := c.pegs[m.frm].TopDisc();
      var e := c.pegs[m.to].TopDisc();
      TwoPegsInAllDiscs(c.pegs, m.frm, m.to);
      assert multiset(c.pegs[m.frm].discs)[d] >= 1 && multiset(c.pegs[m.to].discs)[e] >= 1;
      assert AllDiscs(c.pegs)[d] <= 1;
      assert d != e;
    }
  }

  /**
   * What `move` does, said in peg operations: the old top of the source
   * is taken off (putting it back restores the old source), it becomes
   * the top of the destination (removing it restores the old destination),
   * and no other peg changes.
   */
  lemma MoveEffect(c: Configuration, m: Move)
    requires c.CanApply(m) && m.frm != m.to
    ensures c.AfterMove(m).pegs[m.frm].PutTop(c.pegs[m.frm].TopDisc()) == c.pegs[m.frm]
    ensures c.AfterMove(m).pegs[m.to].TopDisc() == c.pegs[m.frm].TopDisc()
    ensures c.AfterMove(m).pegs[m.to].RemoveTop() == c.pegs[m.to]
    ensures forall i :: 0 <= i < |c.pegs| && i != m.frm && i != m.to ==> c.AfterMove(m).pegs[i] == c.pegs[i]
  {
    PutThenRemove(c.pegs[m.to], c.pegs[m.frm].TopDisc());
  }

  /** A move whose two indices coincide doubles that peg's top disc. */
  lemma MoveOntoItself(c: Configuration, m: Move)
    requires c.CanApply(m) && m.frm == m.to
    ensures c.AfterMove(m).pegs[m.to] == c.pegs[m.to].PutTop(c.pegs[m.to].TopDisc())
    ensures AllDiscs(c.AfterMove(m).pegs) == AllDiscs(c.pegs) + multiset{c.pegs[m.to].TopDisc()}
  {
    var top := c.pegs[m.to].TopDisc();
    assert c.AfterMove(m).pegs == c.pegs[m.to := c.pegs[m.to].PutTop(top)];
    AllDiscsUpdate(c.pegs, m.to, c.pegs[m.to].PutTop(top));
    forall x
      ensures AllDiscs(c.AfterMove(m).pegs)[x] == (AllDiscs(c.pegs) + multiset{top})[x]
    {
      assert (AllDiscs(c.AfterMove(m).pegs) + multiset(c.pegs[m.to].discs))[x] ==
             (AllDiscs(c.pegs) + multiset(c.pegs[m.to].discs) + multiset{top})[x];
    }
  }

  /** The peg-by-peg definition is the source's two index assignments. */
  lemma AfterMoveAsUpdates(c: Configuration, m: Move)
    requires c.CanApply(m)
    ensures c.AfterMove(m).pegs ==
              c.pegs[m.frm := c.pegs[m.frm].RemoveTop()][m.to := c.pegs[m.to].PutTop(c.pegs[m.frm].TopDisc())]
  {
  }

  /** A move between two different pegs keeps the multiset of all discs. */
  lemma MoveConservesDiscs(c: Configuration, m: Move)
    requires c.CanApply(m) && m.frm != m.to
    ensures AllDiscs(c.AfterMove(m).pegs) == AllDiscs(c.pegs)
  {
    var d := c.pegs[m.frm].TopDisc();
    var newFrom := c.pegs[m.frm].RemoveTop();
    var newTo := c.pegs[m.to].PutTop(d);
    AfterMoveAsUpdates(c, m);
    assert newFrom.PutTop(d) == c.pegs[m.frm];
    AllDiscsTwoUpdates(c.pegs, m.frm, m.to, newFrom, newTo);
  }

  /**
   * The Hanoi stacking invariant: a generated move, applied to a
   * configuration whose pegs are strictly decreasing and whose discs are
   * distinct, leaves every peg strictly decreasing and the discs distinct.
   */
  lemma MovePreservesStacking(c: Configuration, m: Move)
    requires Stacked(c) && DistinctDiscs(c)
    requires m in c.ValidMoves()
    ensures Stacked(c.AfterMove(m)) && DistinctDiscs(c.AfterMove(m))
  {
    ValidMovesExactly(c, m);
    ValidMoveIsStrict(c, m);
    MoveConservesDiscs(c, m);
    var r := c.AfterMove(m);
    RemoveTopKeepsStacked(c.pegs[m.frm]);
    PutTopKeepsStacked(c.pegs[m.to], c.pegs[m.frm].TopDisc());
    assert r.pegs[m.frm] == c.pegs[m.frm].RemoveTop();
    assert r.pegs[m.to] == c.pegs[m.to].PutTop(c.pegs[m.frm].TopDisc());
  }
}
