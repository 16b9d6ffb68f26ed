/**
 * The best-first search. The frontier is a sequence of (priority,
 * configuration) entries from which an entry of least priority is taken;
 * arrangements already expanded are kept in a set of peg sequences.
 * Successors reached within the move budget are pushed with priority
 * `dist + lower bound`; the first of them equal to the goal ends the
 * search, and the answer is rebuilt from the parent-move back-pointers.
 */
module Search {
  import opened Wrappers
  import opened Pegs
  import opened Heuristic
  import opened Configurations
  import opened Paths

  /**
   * The moves along the back-pointers ending in `m`, oldest first: empty
   * exactly when there is no move, and ending in `m` otherwise.
   */
  function ChainFrom(m: Option<Move>): (r: seq<Move>)
    ensures r == [] <==> m.None?
    ensures m.Some? ==> r[|r| - 1] == m.value && r[..|r| - 1] == ChainFrom(m.value.cfg.parentMove)
    decreases m
  {
    match m
    case None => []
    case Some(mv) => ChainFrom(mv.cfg.parentMove) + [mv]
  }

  /** The moves that produced `c`, in the order they were made; the last is `c`'s parent move. */
  function Chain(c: Configuration): (r: seq<Move>)
    ensures r == [] <==> c.parentMove.None?
    ensures c.parentMove.Some? ==> r[|r| - 1] == c.parentMove.value
  {
    ChainFrom(c.parentMove)
  }

  /**
   * `c` is `start`, or was produced by a valid move from a configuration
   * that `start` reaches in the same way.
   */
  ghost predicate Reaches(start: Configuration, c: Configuration)
    decreases c
  {
    || c == start
    || (&& c.parentMove.Some?
        && var m := c.parentMove.value;
        && Reaches(start, m.cfg)
        && m.cfg.IsValidMove(m.frm, m.to)
        && c == m.cfg.AfterMove(m))
  }

  /**
   * Following the back-pointers of a configuration that `start` reaches
   * gives a legal path from `start` to its arrangement, one move per unit
   * of `dist`.
   */
  lemma {:induction false} ChainSound(start: Configuration, c: Configuration)
    requires start.parentMove.None?
    requires Reaches(start, c)
    ensures LegalPath(start, Chain(c))
    ensures Replay(start, Chain(c)).pegs == c.pegs
    ensures |Chain(c)| == c.dist - start.dist
    decreases c
  {
    if c != start {
      var m := c.parentMove.value;
      var prev := m.cfg;
      ChainSound(start, prev);
      var here := Replay(start, Chain(prev));
      assert here.IsValidMove(m.frm, m.to);
      ReplayAppend(start, Chain(prev), m);
      AfterMoveAsUpdates(here, m);
      AfterMoveAsUpdates(prev, m);
      assert Chain(c) == Chain(prev) + [m];
    }
  }

  /** `s` back to front. */
  function Reversed<T>(s: seq<T>): (r: seq<T>)
    ensures |r| == |s|
    ensures forall k :: 0 <= k < |s| ==> r[k] == s[|s| - 1 - k]
  {
    if |s| == 0 then [] else [s[|s| - 1]] + Reversed(s[..|s| - 1])
  }

  /**
   * Walks the parent moves from `c` back to the root, appending each, then
   * reverses the list into chronological order.
   */
  method Rebuild(c: Configuration) returns (solution: seq<Move>)
    ensures solution == Chain(c)
  {
    var m := c.parentMove;
    var backwards: seq<Move> := [];
    while m.Some?
      invariant Chain(c) == ChainFrom(m) + Reversed(backwards)
      decreases m
    {
      assert Reversed(backwards + [m.value]) == [m.value] + Reversed(backwards) by {
        assert (backwards + [m.value])[..|backwards|] == backwards;
      }
      backwards := backwards + [m.value];
      m := m.value.cfg.parentMove;
    }
    solution := Reversed(backwards);
  }

  /** An index of least priority in the frontier: the priority queue's `get`. */
  method MinIndex(frontier: seq<(int, Configuration)>) returns (k: nat)
    requires |frontier| > 0
    ensures k < |frontier|
    ensures forall j :: 0 <= j < |frontier| ==> frontier[k].0 <= frontier[j].0
  {
    k := 0;
    var j := 1;
    while j < |frontier|
      invariant k < j <= |frontier|
      invariant forall t :: 0 <= t < j ==> frontier[k].0 <= frontier[t].0
    {
      if frontier[j].0 < frontier[k].0 {
        k := j;
      }
      j := j + 1;
    }
  }

  // Termination measure: each entry weighs base^(moves left in the budget).

  ghost function Pow(base: nat, e: nat): (r: nat)
    ensures base >= 1 ==> r >= 1
  {
    if e == 0 then 1 else base * Pow(base, e - 1)
  }

  ghost function Height(c: Configuration, maxSteps: int): nat
  {
    if c.dist < maxSteps then maxSteps - c.dist else 0
  }

  ghost function Weight(f: seq<(int, Configuration)>, base: nat, maxSteps: int): nat
  {
    if |f| == 0 then 0
    else Weight(f[..|f| - 1], base, maxSteps) + Pow(base, Height(f[|f| - 1].1, maxSteps))
  }

  lemma {:induction false} WeightConcat(f: seq<(int, Configuration)>, g: seq<(int, Configuration)>, base: nat, maxSteps: int)
    ensures Weight(f + g, base, maxSteps) == Weight(f, base, maxSteps) + Weight(g, base, maxSteps)
    decreases |g|
  {
    if |g| == 0 {
      assert f + g == f;
    } else {
      WeightConcat(f, g[..|g| - 1], base, maxSteps);
      assert (f + g)[..|f + g| - 1] == f + g[..|g| - 1];
    }
  }

  lemma WeightRemove(f: seq<(int, Configuration)>, k: nat, base: nat, maxSteps: int)
    requires k < |f|
    ensures Weight(f, base, maxSteps) ==
              Weight(f[..k] + f[k + 1..], base, maxSteps) + Pow(base, Height(f[k].1, maxSteps))
  {
    assert f == f[..k] + ([f[k]] + f[k + 1..]);
    WeightConcat(f[..k], [f[k]] + f[k + 1..], base, maxSteps);
    WeightConcat([f[k]], f[k + 1..], base, maxSteps);
    WeightConcat(f[..k], f[k + 1..], base, maxSteps);
    assert Weight([f[k]], base, maxSteps) == Pow(base, Height(f[k].1, maxSteps)) by {
      assert [f[k]][..0] == [];
    }
  }

  /**
   * One search step lowers the weight: the expanded entry goes, and fewer
   * than `base` entries come in, each one level lower in the budget.
   */
  lemma StepWeight(start: Configuration, before: seq<(int, Configuration)>, k: nat,
                   candidates: seq<(Configuration, int)>, base: nat, maxSteps: int)
    requires k < |before|
    requires |candidates| < base
    requires forall t :: 0 <= t < |candidates| ==> Candidate(start, before[k].1, candidates[t], maxSteps)
    ensures Weight(before[..k] + before[k + 1..] + Entries(candidates), base, maxSteps) < Weight(before, base, maxSteps)
  {
    var cfg := before[k].1;
    var popped := before[..k] + before[k + 1..];
    var entries := Entries(candidates);
    WeightRemove(before, k, base, maxSteps);
    WeightConcat(popped, entries, base, maxSteps);
    var whole, rest, added := Weight(before, base, maxSteps), Weight(popped, base, maxSteps), Weight(entries, base, maxSteps);
    var gone := Pow(base, Height(cfg, maxSteps));
    assert whole == rest + gone && gone >= 1;
    if |candidates| > 0 {
      var h := Height(cfg, maxSteps);
      WeightOfEntries(start, cfg, candidates, base, maxSteps);
      var p := Pow(base, h - 1);
      assert gone == base * p;
      MulLess(|candidates|, base, p);
      assert added < gone;
    } else {
      assert entries == [];
      assert added == 0;
    }
  }

  lemma MulLess(x: nat, y: nat, z: nat)
    requires x < y && z > 0
    ensures x * z < y * z
  {
  }

  /** A successor kept as a candidate: one move further, within budget, reached from start. */
  ghost predicate Candidate(start: Configuration, cfg: Configuration, entry: (Configuration, int), maxSteps: int)
  {
    && |entry.0.pegs| == |start.pegs|
    && entry.0.dist == cfg.dist + 1
    && entry.1 >= 0
    && entry.0.dist + entry.1 <= maxSteps
    && entry.0.parentMove.Some?
    && Reaches(start, entry.0)
  }

  /**
   * The successors of `cfg` by the moves `moves`, each with its lower
   * bound to `goal`, keeping those not yet expanded and within budget.
   */
  function CandidatesOf(cfg: Configuration, goal: Configuration, visited: set<seq<Peg>>, maxSteps: int,
                        moves: seq<Move>): (r: seq<(Configuration, int)>)
    requires forall k :: 0 <= k < |moves| ==> cfg.IsValidMove(moves[k].frm, moves[k].to)
    ensures |r| <= |moves|
    ensures forall t :: 0 <= t < |r| ==>
              && r[t].0.pegs !in visited
              && r[t].1 == LowerBoundOf(r[t].0.pegs, goal.pegs)
              && r[t].0.dist + r[t].1 <= maxSteps
  {
    if |moves| == 0 then []
    else
      var m := moves[|moves| - 1];
      assert cfg.IsValidMove(m.frm, m.to);
      var c := cfg.AfterMove(m);
      var lb := LowerBoundOf(c.pegs, goal.pegs);
      CandidatesOf(cfg, goal, visited, maxSteps, moves[..|moves| - 1])
      + if c.pegs !in visited && c.dist + lb <= maxSteps then [(c, lb)] else []
  }

  /**
   * Every candidate is one valid move away from `cfg`, was not expanded
   * and fits the budget; there are no more candidates than moves.
   */
  lemma {:induction false} CandidatesFacts(start: Configuration, cfg: Configuration, goal: Configuration,
                                           visited: set<seq<Peg>>, maxSteps: int, moves: seq<Move>)
    requires |cfg.pegs| == |start.pegs| && Reaches(start, cfg)
    requires forall k :: 0 <= k < |moves| ==> moves[k].cfg == cfg && cfg.IsValidMove(moves[k].frm, moves[k].to)
    ensures forall e :: e in CandidatesOf(cfg, goal, visited, maxSteps, moves) ==>
              Candidate(start, cfg, e, maxSteps) && e.0.pegs !in visited
  {
    if |moves| > 0 {
      var front := moves[..|moves| - 1];
      CandidatesFacts(start, cfg, goal, visited, maxSteps, front);
      var m := moves[|moves| - 1];
      assert m.cfg == cfg && cfg.IsValidMove(m.frm, m.to);
      var c := cfg.AfterMove(m);
      var lb := LowerBoundOf(c.pegs, goal.pegs);
      assert Reaches(start, c);
      var all := CandidatesOf(cfg, goal, visited, maxSteps, moves);
      var prev := CandidatesOf(cfg, goal, visited, maxSteps, front);
      assert all == prev + if c.pegs !in visited && c.dist + lb <= maxSteps then [(c, lb)] else [];
      forall e | e in all
        ensures Candidate(start, cfg, e, maxSteps) && e.0.pegs !in visited
      {
        if e !in prev {
          assert e == (c, lb);
        }
      }
    }
  }

  /** One more move adds at most its own successor to the candidates. */
  lemma CandidatesOfStep(cfg: Configuration, goal: Configuration, visited: set<seq<Peg>>, maxSteps: int,
                         moves: seq<Move>, j: nat)
    requires j < |moves|
    requires forall k :: 0 <= k < |moves| ==> cfg.IsValidMove(moves[k].frm, moves[k].to)
    ensures cfg.CanApply(moves[j])
    ensures var c := cfg.AfterMove(moves[j]);
            var lb := LowerBoundOf(c.pegs, goal.pegs);
            CandidatesOf(cfg, goal, visited, maxSteps, moves[..j + 1]) ==
              CandidatesOf(cfg, goal, visited, maxSteps, moves[..j])
              + if c.pegs !in visited && c.dist + lb <= maxSteps then [(c, lb)] else []
  {
    var prefix := moves[..j + 1];
    assert prefix[..j] == moves[..j];
    assert prefix[j] == moves[j];
  }

  /** The three list comprehensions of the search step, as one loop. */
  method Expand(cfg: Configuration, goal: Configuration, visited: set<seq<Peg>>, maxSteps: int)
    returns (candidates: seq<(Configuration, int)>)
    ensures candidates == CandidatesOf(cfg, goal, visited, maxSteps, cfg.ValidMoves())
  {
    var moves := cfg.GetValidMoves();
    candidates := [];
    var j := 0;
    while j < |moves|
      invariant j <= |moves|
      invariant candidates == CandidatesOf(cfg, goal, visited, maxSteps, moves[..j])
    {
      CandidatesOfStep(cfg, goal, visited, maxSteps, moves, j);
      var c := cfg.MakeMove(moves[j]);
      var lb := c.LowerBound(goal);
      if c.pegs !in visited && c.dist + lb <= maxSteps {
        candidates := candidates + [(c, lb)];
      }
      j := j + 1;
    }
    assert moves[..|moves|] == moves;
  }

  /** The frontier entries for `candidates`: priority `dist + lower bound`. */
  function Entries(candidates: seq<(Configuration, int)>): (r: seq<(int, Configuration)>)
    ensures |r| == |candidates|
    ensures forall t :: 0 <= t < |r| ==> r[t] == (candidates[t].0.dist + candidates[t].1, candidates[t].0)
  {
    if |candidates| == 0 then []
    else Entries(candidates[..|candidates| - 1]) + [(candidates[|candidates| - 1].0.dist + candidates[|candidates| - 1].1, candidates[|candidates| - 1].0)]
  }

  /**
   * The loop over the candidates: each is compared with the goal, and the
   * first equal one is reported by its index; the ones before it have been
   * pushed. When none is equal, all of them have been pushed.
   */
  method PushUntilGoal(frontier: seq<(int, Configuration)>, candidates: seq<(Configuration, int)>, goal: Configuration)
    returns (newFrontier: seq<(int, Configuration)>, found: Option<nat>)
    ensures found.Some? ==> found.value < |candidates| && candidates[found.value].0.SameArrangement(goal)
    ensures found.Some? ==> forall t :: 0 <= t < found.value ==> !candidates[t].0.SameArrangement(goal)
    ensures found.None? ==> forall t :: 0 <= t < |candidates| ==> !candidates[t].0.SameArrangement(goal)
    ensures found.None? ==> newFrontier == frontier + Entries(candidates)
  {
    newFrontier := frontier;
    var t := 0;
    while t < |candidates|
      invariant t <= |candidates|
      invariant forall u :: 0 <= u < t ==> !candidates[u].0.SameArrangement(goal)
      invariant newFrontier == frontier + Entries(candidates[..t])
    {
      var (c, lb) := candidates[t];
      if c.SameArrangement(goal) {
        return newFrontier, Some(t);
      }
      assert candidates[..t + 1][..t] == candidates[..t];
      newFrontier := newFrontier + [(c.dist + lb, c)];
      t := t + 1;
    }
    assert candidates[..t] == candidates;
    found := None;
  }

  lemma EntriesReach(start: Configuration, cfg: Configuration, candidates: seq<(Configuration, int)>, maxSteps: int)
    requires forall t :: 0 <= t < |candidates| ==> Candidate(start, cfg, candidates[t], maxSteps)
    ensures forall e :: e in Entries(candidates) ==> |e.1.pegs| == |start.pegs| && Reaches(start, e.1)
  {
    forall e | e in Entries(candidates)
      ensures |e.1.pegs| == |start.pegs| && Reaches(start, e.1)
    {
      var t :| 0 <= t < |Entries(candidates)| && Entries(candidates)[t] == e;
      assert Candidate(start, cfg, candidates[t], maxSteps);
    }
  }

  lemma {:induction false} WeightOfEntries(start: Configuration, cfg: Configuration, candidates: seq<(Configuration, int)>,
                                           base: nat, maxSteps: int)
    requires forall t :: 0 <= t < |candidates| ==> Candidate(start, cfg, candidates[t], maxSteps)
    requires |candidates| > 0
    ensures Height(cfg, maxSteps) > 0
    ensures Weight(Entries(candidates), base, maxSteps) == |candidates| * Pow(base, Height(cfg, maxSteps) - 1)
  {
    var last := |candidates| - 1;
    var es := Entries(candidates);
    var front := candidates[..last];
    assert Candidate(start, cfg, candidates[last], maxSteps);
    assert Height(es[last].1, maxSteps) == Height(cfg, maxSteps) - 1;
    var p := Pow(base, Height(cfg, maxSteps) - 1);
    assert es[..last] == Entries(front);
    assert Weight(es, base, maxSteps) == Weight(Entries(front), base, maxSteps) + p;
    if last > 0 {
      WeightOfEntries(start, cfg, front, base, maxSteps);
      AddOneMore(last, p);
    }
  }

  lemma AddOneMore(a: nat, p: nat)
    ensures a * p + p == (a + 1) * p
  {
  }

  /**
   * A candidate equal to the goal gives a solution: its chain of moves is
   * legal from a parentless start, reaches the goal's arrangement and
   * fits the budget. It also differs from the start, which was expanded.
   */
  lemma FoundIsSolution(start: Configuration, cfg: Configuration, goal: Configuration,
                        visited: set<seq<Peg>>, e: (Configuration, int), maxSteps: int)
    requires Candidate(start, cfg, e, maxSteps) && e.0.pegs !in visited && start.pegs in visited
    requires e.0.SameArrangement(goal)
    ensures start.parentMove.None? ==>
              LegalPath(start, Chain(e.0)) && Replay(start, Chain(e.0)).SameArrangement(goal)
              && 0 < |Chain(e.0)| <= maxSteps - start.dist
    ensures |start.pegs| <= |goal.pegs| ==> !start.SameArrangement(goal)
  {
    var c := e.0;
    if start.parentMove.None? {
      ChainSound(start, c);
      SameArrangementOnPegs(Replay(start, Chain(c)), c, goal);
    }
    if |start.pegs| <= |goal.pegs| && start.SameArrangement(goal) {
      SameArrangementAgree(c, start, goal);
    }
  }

  /**
   * `solve`. When the start has no parent move, a returned solution is a
   * non-empty sequence of moves, each valid when applied, that leads from
   * the start to the goal's arrangement within the budget. Because the
   * goal is only compared with successors of expanded configurations and
   * the start's arrangement is expanded first, a goal equal to the start
   * is never found.
   */
  method Solve(start: Configuration, goal: Configuration, maxSteps: int := 7)
    returns (solution: Option<seq<Move>>)
    ensures start.parentMove.None? && solution.Some? ==>
              LegalPath(start, solution.value) && Replay(start, solution.value).SameArrangement(goal)
    ensures start.parentMove.None? && solution.Some? ==>
              0 < |solution.value| <= maxSteps - start.dist
    ensures |start.pegs| <= |goal.pegs| && start.SameArrangement(goal) ==> solution.None?
  {
    var n := |start.pegs|;
    ghost var base := n * n + 1;
    var frontier: seq<(int, Configuration)> := [(start.dist, start)];
    var visited: set<seq<Peg>> := {};

    while |frontier| > 0
      invariant forall e :: e in frontier ==> |e.1.pegs| == n && Reaches(start, e.1)
      invariant visited == {} ==> frontier == [(start.dist, start)]
      invariant visited != {} ==> start.pegs in visited
      decreases Weight(frontier, base, maxSteps)
    {
      var k := MinIndex(frontier);
      var cfg := frontier[k].1;
      ghost var before := frontier;
      frontier := frontier[..k] + frontier[k + 1..];
      assert forall e :: e in frontier ==> e in before;
      visited := visited + {cfg.pegs};

      var candidates := Expand(cfg, goal, visited, maxSteps);
      CandidatesFacts(start, cfg, goal, visited, maxSteps, cfg.ValidMoves());
      ValidMovesCount(cfg);

      EntriesReach(start, cfg, candidates, maxSteps);
      ghost var popped := frontier;
      var found;
      frontier, found := PushUntilGoal(frontier, candidates, goal);
      if found.Some? {
        var c := candidates[found.value].0;
        FoundIsSolution(start, cfg, goal, visited, candidates[found.value], maxSteps);
        var path := Rebuild(c);
        return Some(path);
      }
      assert forall e :: e in frontier ==> e in popped || e in Entries(candidates);
      StepWeight(start, before, k, candidates, base, maxSteps);
    }
    return None;
  }
}
