/**
 * A peg of the generalised Tower of Hanoi: an immutable stack of disc
 * sizes listed bottom-up, so that the last element is the top disc.
 * Every operation returns a new peg and leaves the receiver as it was,
 * which a value type gives for free.
 */
module Pegs {

  datatype Peg = Peg(discs: seq<int>) {

    /** Number of discs on the peg. */
    function NumDiscs(): nat
    {
      |discs|
    }

    /** The top disc; the source raises an index error on an empty peg. */
    function TopDisc(): (d: int)
      requires NumDiscs() > 0
      ensures d in discs
    {
      discs[|discs| - 1]
    }

    /** Whether a disc of size `d` lies anywhere on the peg. */
    predicate Contains(d: int)
    {
      d in discs
    }

    /**
     * The peg without its top disc. Slicing off the last element of an
     * empty list gives the empty list, so an empty peg stays empty.
     */
    function RemoveTop(): (r: Peg)
      ensures NumDiscs() > 0 ==> r.NumDiscs() == NumDiscs() - 1
      ensures NumDiscs() > 0 ==> r.PutTop(TopDisc()) == this
      ensures NumDiscs() == 0 ==> r == this
      ensures r.discs <= discs
    {
      if |discs| == 0 then this else Peg(discs[..|discs| - 1])
    }

    /** The peg with `d` placed on top; no ordering is checked here. */
    function PutTop(d: int): (r: Peg)
      ensures r.NumDiscs() == NumDiscs() + 1
      ensures r.TopDisc() == d
      ensures discs <= r.discs
      ensures multiset(r.discs) == multiset(discs) + multiset{d}
    {
      Peg(discs + [d])
    }

    /** Bottom-up strictly decreasing sizes: the Hanoi stacking order. */
    predicate Stacked()
    {
      forall i, j :: 0 <= i < j < |discs| ==> discs[i] > discs[j]
    }
  }

  /** Removing the disc that was just put on top gives back the same peg. */
  lemma PutThenRemove(p: Peg, d: int)
    ensures p.PutTop(d).RemoveTop() == p
    ensures p.PutTop(d).RemoveTop().NumDiscs() == p.NumDiscs()
  {
    assert (p.discs + [d])[..|p.discs|] == p.discs;
  }

  /** Removing the top disc of a stacked peg keeps it stacked. */
  lemma RemoveTopKeepsStacked(p: Peg)
    requires p.Stacked()
    ensures p.RemoveTop().Stacked()
  {
  }

  /** A disc smaller than the top of a stacked peg may go on top of it. */
  lemma PutTopKeepsStacked(p: Peg, d: int)
    requires p.Stacked()
    requires p.NumDiscs() == 0 || d < p.TopDisc()
    ensures p.PutTop(d).Stacked()
  {
    var r := p.PutTop(d).discs;
    forall i, j | 0 <= i < j < |r|
      ensures r[i] > r[j]
    {
      if j == |r| - 1 && i < j {
        assert r[i] == p.discs[i];
        assert i == |p.discs| - 1 || p.discs[i] > p.discs[|p.discs| - 1];
      }
    }
  }

  /** The multiset of all discs over a sequence of pegs. */
  function AllDiscs(pegs: seq<Peg>): multiset<int>
  {
    if |pegs| == 0 then multiset{}
    else AllDiscs(pegs[..|pegs| - 1]) + multiset(pegs[|pegs| - 1].discs)
  }

  /** The discs of the first `k` pegs: those of the first `k - 1` and of peg `k - 1`. */
  lemma AllDiscsSnoc(pegs: seq<Peg>, k: nat)
    requires 0 < k <= |pegs|
    ensures AllDiscs(pegs[..k]) == AllDiscs(pegs[..k - 1]) + multiset(pegs[k - 1].discs)
  {
    assert pegs[..k][..k - 1] == pegs[..k - 1];
  }

  /** Every peg's discs are part of the whole. */
  lemma {:induction false} PegInAllDiscs(pegs: seq<Peg>, i: nat)
    requires i < |pegs|
    ensures multiset(pegs[i].discs) <= AllDiscs(pegs)
  {
    if i < |pegs| - 1 {
      PegInAllDiscs(pegs[..|pegs| - 1], i);
    }
  }

  /** Two different pegs hold disjoint parts of the whole. */
  lemma {:induction false} TwoPegsInAllDiscs(pegs: seq<Peg>, i: nat, j: nat)
    requires i < |pegs| && j < |pegs| && i != j
    ensures multiset(pegs[i].discs) + multiset(pegs[j].discs) <= AllDiscs(pegs)
  {
    var last := |pegs| - 1;
    var front := pegs[..last];
    if i == last {
      PegInAllDiscs(front, j);
    } else if j == last {
      PegInAllDiscs(front, i);
    } else {
      TwoPegsInAllDiscs(front, i, j);
    }
  }

  /** Replacing one peg swaps its discs in the whole. */
  lemma {:induction false} AllDiscsUpdate(pegs: seq<Peg>, i: nat, p: Peg)
    requires i < |pegs|
    ensures AllDiscs(pegs[i := p]) + multiset(pegs[i].discs) == AllDiscs(pegs) + multiset(p.discs)
  {
    var last := |pegs| - 1;
    var updated := pegs[i := p];
    assert updated[..last] == if i == last then pegs[..last] else pegs[..last][i := p];
    if i < last {
      AllDiscsUpdate(pegs[..last], i, p);
      assert pegs[..last][i] == pegs[i];
      var rest := AllDiscs(pegs[..last][i := p]);
      var top := multiset(pegs[last].discs);
      calc {
        AllDiscs(updated) + multiset(pegs[i].discs);
        rest + top + multiset(pegs[i].discs);
        (rest + multiset(pegs[i].discs)) + top;
        AllDiscs(pegs[..last]) + multiset(p.discs) + top;
        AllDiscs(pegs) + multiset(p.discs);
      }
    } else {
      assert AllDiscs(pegs) == AllDiscs(pegs[..last]) + multiset(pegs[last].discs);
      assert AllDiscs(updated) == AllDiscs(pegs[..last]) + multiset(p.discs);
    }
  }

  /** A sub-multiset is no larger than the whole. */
  lemma SubMultisetSize<T>(small: multiset<T>, big: multiset<T>)
    requires small <= big
    ensures |small| <= |big|
  {
    assert big == small + (big - small);
  }

  /**
   * Replacing two different pegs by two that hold the same discs between
   * them keeps the whole.
   */
  lemma AllDiscsTwoUpdates(pegs: seq<Peg>, i: nat, j: nat, p: Peg, q: Peg)
    requires i < |pegs| && j < |pegs| && i != j
    requires multiset(p.discs) + multiset(q.discs) == multiset(pegs[i].discs) + multiset(pegs[j].discs)
    ensures AllDiscs(pegs[i := p][j := q]) == AllDiscs(pegs)
  {
    var mid := pegs[i := p];
    AllDiscsUpdate(pegs, i, p);
    AllDiscsUpdate(mid, j, q);
    assert mid[j] == pegs[j];
    var a, b, c := AllDiscs(pegs), AllDiscs(mid), AllDiscs(mid[j := q]);
    var pi, pj, mp, mq := multiset(pegs[i].discs), multiset(pegs[j].discs), multiset(p.discs), multiset(q.discs);
    assert b + pi == a + mp;
    assert c + pj == b + mq;
    forall x
      ensures c[x] == a[x]
    {
      assert (b + pi)[x] == (a + mp)[x];
      assert (c + pj)[x] == (b + mq)[x];
      assert (mp + mq)[x] == (pi + pj)[x];
    }
  }
}
