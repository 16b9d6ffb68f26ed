/**
 * Building a configuration from already-parsed peg numbers: entry `j` of
 * the list names, counting from 1, the peg of disc `j + 1`. The list is
 * walked from its end, so the largest disc is placed first and ends up
 * at the bottom.
 */
module Parse {
  import opened Wrappers
  import opened Pegs
  import opened Configurations

  /** How many pegs `range(numPegs)` creates. */
  function PegCount(numPegs: int): (n: nat)
    ensures numPegs >= 0 ==> n == numPegs
    ensures numPegs < 0 ==> n == 0
  {
    if numPegs > 0 then numPegs else 0
  }

  /**
   * Whether peg number `p` indexes a list of `count` pegs. The source
   * indexes with `p - 1`, and a list index may also be negative, down to
   * `-count`, counting from the end.
   */
  predicate InRange(p: int, count: nat)
    ensures InRange(p, count) <==> (1 <= p <= count || -(count as int) < p <= 0)
  {
    -(count as int) <= p - 1 < count
  }

  /** The list position that index `p - 1` denotes. */
  function Slot(p: int, count: nat): (s: nat)
    requires InRange(p, count)
    ensures s < count
    ensures 1 <= p ==> s == p - 1
  {
    if p - 1 < 0 then p - 1 + count else p - 1
  }

  /** The last `i` peg numbers are in range. */
  predicate TailInRange(nums: seq<int>, count: nat, i: nat)
  {
    forall j :: 0 <= j < |nums| && |nums| - i <= j ==> InRange(nums[j], count)
  }

  /** The disc the source assigns to entry `j`: entry `|nums| - 1 - t` gets `numDiscs - t`. */
  function DiscOf(nums: seq<int>, numDiscs: int, j: int): (d: int)
    ensures j == |nums| - 1 ==> d == numDiscs
    ensures |nums| == numDiscs ==> d == j + 1
  {
    numDiscs - (|nums| - 1 - j)
  }

  /** The lists of discs after the first `i` steps of the loop. */
  function Placed(nums: seq<int>, numDiscs: int, count: nat, i: nat): (r: seq<seq<int>>)
    requires i <= |nums| && TailInRange(nums, count, i)
    ensures |r| == count
  {
    if i == 0 then seq(count, _ => [])
    else
      var prev := Placed(nums, numDiscs, count, i - 1);
      var j := |nums| - i;
      var s := Slot(nums[j], count);
      prev[s := prev[s] + [DiscOf(nums, numDiscs, j)]]
  }

  /** The final `Peg(x) for x in cfg` conversion. */
  function ToPegs(lists: seq<seq<int>>): (r: seq<Peg>)
    ensures |r| == |lists|
    ensures forall k :: 0 <= k < |lists| ==> r[k].discs == lists[k]
  {
    seq(|lists|, k requires 0 <= k < |lists| => Peg(lists[k]))
  }

  /**
   * `parse_configuration` after the text has been split into numbers. A
   * peg number outside the indexable range makes the source raise an
   * index error; that outcome is `None`.
   */
  method ParseConfiguration(cfgNums: seq<int>, numDiscs: int, numPegs: int) returns (r: Option<Configuration>)
    ensures r.Some? <==> TailInRange(cfgNums, PegCount(numPegs), |cfgNums|)
    ensures r.Some? ==>
              r.value == Configuration(ToPegs(Placed(cfgNums, numDiscs, PegCount(numPegs), |cfgNums|)), 0, None)
  {
    var count := PegCount(numPegs);
    var cfg: seq<seq<int>> := seq(count, _ => []);
    var i := 0;
    while i < |cfgNums|
      invariant i <= |cfgNums|
      invariant TailInRange(cfgNums, count, i)
      invariant cfg == Placed(cfgNums, numDiscs, count, i)
    {
      var peg := cfgNums[|cfgNums| - 1 - i];
      var disc := numDiscs - i;
      if !(-(count as int) <= peg - 1 < count) {
        return None;
      }
      var s := if peg - 1 < 0 then peg - 1 + count else peg - 1;
      cfg := cfg[s := cfg[s] + [disc]];
      i := i + 1;
    }
    r := Some(Configuration(ToPegs(cfg), 0, None));
  }

  /** After `i` steps every list is strictly decreasing and above the next disc. */
  lemma {:induction false} PlacedStacked(nums: seq<int>, numDiscs: int, count: nat, i: nat)
    requires i <= |nums| && TailInRange(nums, count, i)
    ensures forall k, t :: 0 <= k < count && 0 <= t < |Placed(nums, numDiscs, count, i)[k]| ==>
              Placed(nums, numDiscs, count, i)[k][t] > numDiscs - i
    ensures forall k :: 0 <= k < count ==> Peg(Placed(nums, numDiscs, count, i)[k]).Stacked()
  {
    if i > 0 {
      PlacedStacked(nums, numDiscs, count, i - 1);
      var prev := Placed(nums, numDiscs, count, i - 1);
      var j := |nums| - i;
      var s := Slot(nums[j], count);
      var d := DiscOf(nums, numDiscs, j);
      assert d == numDiscs - (i - 1);
      PutTopKeepsStacked(Peg(prev[s]), d);
      assert Peg(prev[s]).PutTop(d) == Peg(prev[s] + [d]);
    }
  }

  /** After `i` steps the discs present are the `i` largest, once each. */
  lemma {:induction false} PlacedDiscs(nums: seq<int>, numDiscs: int, count: nat, i: nat)
    requires i <= |nums| && TailInRange(nums, count, i)
    ensures OnceEach(AllDiscs(ToPegs(Placed(nums, numDiscs, count, i))), numDiscs - i, numDiscs)
  {
    var now := ToPegs(Placed(nums, numDiscs, count, i));
    if i == 0 {
      EmptyPegsHoldNothing(now);
    } else {
      PlacedDiscs(nums, numDiscs, count, i - 1);
      var lists := Placed(nums, numDiscs, count, i - 1);
      var before := ToPegs(lists);
      var j := |nums| - i;
      var s := Slot(nums[j], count);
      var d := numDiscs - (i - 1);
      assert Placed(nums, numDiscs, count, i) == lists[s := lists[s] + [d]];
      ToPegsAppend(lists, s, d);
      AddOneDisc(before, s, d);
      CountsStep(AllDiscs(before), AllDiscs(now), d, numDiscs);
    }
  }

  /** `m` holds each of `lo + 1..hi` once and nothing else. */
  ghost predicate OnceEach(m: multiset<int>, lo: int, hi: int)
  {
    forall x :: m[x] == if lo < x <= hi then 1 else 0
  }

  /** Adding disc `d` to the discs `d + 1..hi`, once each, gives `d..hi`, once each. */
  lemma CountsStep(before: multiset<int>, now: multiset<int>, d: int, hi: int)
    requires d <= hi && OnceEach(before, d, hi)
    requires now == before + multiset{d}
    ensures OnceEach(now, d - 1, hi)
  {
    forall x
      ensures now[x] == if d - 1 < x <= hi then 1 else 0
    {
      assert before[x] == if d < x <= hi then 1 else 0;
      assert now[x] == before[x] + multiset{d}[x];
    }
  }

  lemma ToPegsAppend(lists: seq<seq<int>>, s: nat, d: int)
    requires s < |lists|
    ensures ToPegs(lists[s := lists[s] + [d]]) == ToPegs(lists)[s := ToPegs(lists)[s].PutTop(d)]
  {
  }

  /** Putting `d` on one peg adds exactly `d` to the discs of the configuration. */
  lemma AddOneDisc(pegs: seq<Peg>, s: nat, d: int)
    requires s < |pegs|
    ensures AllDiscs(pegs[s := pegs[s].PutTop(d)]) == AllDiscs(pegs) + multiset{d}
  {
    var after := pegs[s := pegs[s].PutTop(d)];
    AllDiscsUpdate(pegs, s, pegs[s].PutTop(d));
    forall x
      ensures AllDiscs(after)[x] == (AllDiscs(pegs) + multiset{d})[x]
    {
      assert (AllDiscs(after) + multiset(pegs[s].discs))[x] ==
             (AllDiscs(pegs) + multiset(pegs[s].discs) + multiset{d})[x];
    }
  }

  lemma {:induction false} EmptyPegsHoldNothing(pegs: seq<Peg>)
    requires forall k :: 0 <= k < |pegs| ==> pegs[k].discs == []
    ensures AllDiscs(pegs) == multiset{}
  {
    if |pegs| > 0 {
      EmptyPegsHoldNothing(pegs[..|pegs| - 1]);
    }
  }

  /** The disc of every processed entry lies on the peg that entry names. */
  lemma {:induction false} PlacedWhere(nums: seq<int>, numDiscs: int, count: nat, i: nat)
    requires i <= |nums| && TailInRange(nums, count, i)
    ensures forall j :: 0 <= j < |nums| && |nums| - i <= j ==>
              DiscOf(nums, numDiscs, j) in Placed(nums, numDiscs, count, i)[Slot(nums[j], count)]
  {
    if i > 0 {
      PlacedWhere(nums, numDiscs, count, i - 1);
    }
  }

  /**
   * With one peg number per disc, each between 1 and the number of pegs,
   * the configuration built holds every disc 1..numDiscs exactly once,
   * disc `j + 1` on peg `nums[j] - 1`, and every peg strictly decreasing.
   */
  lemma ParseCorrect(nums: seq<int>, numPegs: int)
    requires forall j :: 0 <= j < |nums| ==> 1 <= nums[j] <= numPegs
    ensures TailInRange(nums, PegCount(numPegs), |nums|)
    ensures var c := Configuration(ToPegs(Placed(nums, |nums|, PegCount(numPegs), |nums|)), 0, None);
            && |c.pegs| == PegCount(numPegs)
            && (forall d :: AllDiscs(c.pegs)[d] == if 1 <= d <= |nums| then 1 else 0)
            && (forall j :: 0 <= j < |nums| ==> c.pegs[nums[j] - 1].Contains(j + 1))
            && Stacked(c) && DistinctDiscs(c)
  {
    var count := PegCount(numPegs);
    var n := |nums|;
    assert TailInRange(nums, count, n) by {
      forall j | 0 <= j < n
        ensures InRange(nums[j], count)
      {
      }
    }
    var lists := Placed(nums, n, count, n);
    var c := Configuration(ToPegs(lists), 0, None);
    PlacedStacked(nums, n, count, n);
    assert Stacked(c) by {
      forall k | 0 <= k < count
        ensures c.pegs[k].Stacked()
      {
        assert c.pegs[k] == Peg(lists[k]);
      }
    }
    PlacedDiscs(nums, n, count, n);
    assert DistinctDiscs(c);
    PlacedWhere(nums, n, count, n);
    forall j | 0 <= j < n
      ensures c.pegs[nums[j] - 1].Contains(j + 1)
    {
      assert Slot(nums[j], count) == nums[j] - 1;
      assert DiscOf(nums, n, j) == j + 1;
      assert j + 1 in lists[nums[j] - 1];
    }
  }
}
