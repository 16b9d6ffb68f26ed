# Hanoi moves, modelled in Dafny

This project models the search core of `hanoi_moves.py`, a solver for the
generalised Tower of Hanoi. Any number of discs sits on any number of pegs,
a disc may move between any pair of pegs, and the goal can be any
arrangement. The solver runs a best-first search over configurations. It
orders the frontier by `dist + lower_bound(goal)`, keeps a visited set, and
prunes successors that would exceed a move budget (7 by default). The
solution is rebuilt by following parent-move back-pointers.

Modules:

- `Wrappers`: `Option`.
- `Pegs`: the `Peg` value (`remove_top`, `put_top`, `top_disc`, `num_discs`,
  `in`) and the multiset of all discs of a list of pegs.
- `Heuristic`: the functional definition of `lower_bound`.
- `Configurations`: the `Configuration` and `Move` datatypes, with
  `get_valid_moves`, `move`, `lower_bound` and `__eq__`.
  - `get_valid_moves` and `lower_bound` are methods with their nested
    loops, each proved equal to a reference function (`ValidMoves`,
    `Heuristic.LowerBoundOf`).
  - `move` is the straight-line method `MakeMove`, proved equal to the
    reference function `AfterMove`.
  - `__eq__` is the predicate `SameArrangement`.
  - Lemmas cover enumeration order, disc conservation and stacking.
- `Paths`: replaying a move sequence.
  - The lower bound is admissible: no legal move sequence that reaches the
    goal is shorter than it.
- `Search`: `solve`. It pops the first entry of least priority from a
  sequence frontier, expands it with valid moves, filters the successors,
  stops at the first goal successor, and rebuilds the path.
- `Parse`: `parse_configuration` from already-split peg numbers.

The model keeps these behaviours of `hanoi_moves.py` as written:

- **Move test.** The valid-move test compares tops with `<=`, not `<`.
  `ValidMoveIsStrict` shows that the two agree whenever discs are distinct.
- **`move` with `frm == to`.** The destination is assigned last, so the
  peg's top disc is doubled. `MoveOntoItself` states this.
- **`__eq__`.** It pairs pegs with `zip`, so pegs past the shorter list
  are never compared.
- **Seeding and goal test.** The start is seeded at priority `start.dist`.
  The goal is tested only among successors, so a goal equal to the start
  is never found.
- **Peg numbers in parsing.** A number that is zero or negative denotes a
  Python negative index, counted from the end. A number out of range is
  the index error, modelled as `None`.

## Model

| member | source | states |
|---|---|---|
| Pegs.Peg.NumDiscs | hanoi_moves.py:24-26 | the number of discs on the peg (definition, no contract) |
| Pegs.Peg.Contains | hanoi_moves.py:38-39 | membership of a disc anywhere on the peg (definition, no contract) |
| Pegs.Peg.TopDisc | hanoi_moves.py:20-22 | on a non-empty peg the top disc is one of the peg's discs |
| Pegs.Peg.RemoveTop | hanoi_moves.py:12-13 | one disc fewer and a prefix of the old peg; putting the old top back gives the original; an empty peg stays empty (slicing never fails) |
| Pegs.Peg.PutTop | hanoi_moves.py:15-18 | one disc more, the new disc on top, the old peg a prefix, the disc multiset grown by exactly that disc |
| Pegs.PutThenRemove | hanoi_moves.py:12-18 | removing the top after putting a disc gives back the original peg |
| Pegs.RemoveTopKeepsStacked | hanoi_moves.py:12-13 | removing the top keeps a peg strictly decreasing |
| Pegs.PutTopKeepsStacked | hanoi_moves.py:15-18 | putting a disc smaller than the top, or onto an empty peg, keeps a peg strictly decreasing |
| Pegs.AllDiscsUpdate | hanoi_moves.py:69-71 | replacing one peg changes the configuration's disc multiset by exactly the difference of the two pegs |
| Pegs.AllDiscsTwoUpdates | hanoi_moves.py:69-71 | replacing two distinct pegs by pegs with the same combined discs keeps the disc multiset |
| Heuristic.FirstAbsent | hanoi_moves.py:83-87 | the bottom-up scan stops at the first disc missing from the other peg; every disc below it is present |
| Heuristic.PegCost | hanoi_moves.py:83-87 | one peg's cost is at most its disc count, and is zero exactly when every disc is present in the other peg |
| Heuristic.CostUpTo | hanoi_moves.py:82-88 | the sum over the first `k` zip-paired pegs of each peg's cost; it never exceeds the number of discs on those pegs |
| Heuristic.CostUpToZeroIff | hanoi_moves.py:82-88 | the partial sum is zero exactly when every disc of the first `k` pegs occurs on its counterpart |
| Heuristic.LowerBoundOf | hanoi_moves.py:75-88 | the heuristic sums the per-peg costs over the pegs `zip` pairs, and never exceeds the total number of discs |
| Heuristic.LowerBoundZeroIff | hanoi_moves.py:82-88 | the bound is zero exactly when every paired peg's discs all occur in its counterpart; `zip` pairs only the shorter length |
| Heuristic.LowerBoundSelf | hanoi_moves.py:75-88 | the bound from a configuration to itself is zero |
| Configurations.Configuration.IsValidMove | hanoi_moves.py:55-58 | the generator's test: distinct pegs, a non-empty source, and an empty destination or a source top `<=` the destination top (definition, no contract) |
| Configurations.Configuration.CanApply | hanoi_moves.py:63-65 | what `move` needs not to raise: both indices in range and a non-empty source for `top_disc` (definition, no contract) |
| Configurations.Configuration.RowMoves | hanoi_moves.py:54-59 | every move produced for one source peg is valid, from that peg, and belongs to this configuration |
| Configurations.Configuration.MovesBefore | hanoi_moves.py:53-59 | every move produced for the first source pegs is valid and belongs to this configuration |
| Configurations.Configuration.ValidMoves | hanoi_moves.py:52-59 | every generated move is valid and carries this configuration |
| Configurations.Configuration.GetValidMoves | hanoi_moves.py:52-59 | the nested loops yield exactly the reference move list |
| Configurations.RowMovesMembers | hanoi_moves.py:54-59 | a move is in one row exactly when it is from that peg, to an earlier destination, and valid |
| Configurations.MovesBeforeMembers | hanoi_moves.py:53-59 | a move is among the first rows exactly when its source is earlier and it is valid |
| Configurations.ValidMovesExactly | hanoi_moves.py:52-59 | a move is generated if and only if it carries this configuration and passes the test of lines 55-58 |
| Configurations.ConcatInOrder | hanoi_moves.py:53-54 | joining two ordered move lists, all of the first before the second, stays ordered |
| Configurations.RowMovesInOrder | hanoi_moves.py:54-59 | one row lists destinations strictly ascending |
| Configurations.MovesBeforeInOrder | hanoi_moves.py:53-59 | the first rows are ordered by source, then destination |
| Configurations.ValidMovesInOrder | hanoi_moves.py:53-59 | moves come out with source ascending, then destination ascending, with no repeats |
| Configurations.MovesBeforeCount | hanoi_moves.py:53-59 | the first `fi` rows hold at most `fi` times the peg count moves |
| Configurations.RowMovesCount | hanoi_moves.py:54-59 | one row holds at most as many moves as destinations scanned |
| Configurations.ValidMovesCount | hanoi_moves.py:52-59 | at most (number of pegs) squared moves are generated |
| Configurations.ValidMoveIsStrict | hanoi_moves.py:57-58 | with distinct discs the `<=` test only admits a strictly smaller disc onto a non-empty peg |
| Configurations.Configuration.AfterMove | hanoi_moves.py:61-73 | the peg count is kept, pegs other than source and destination are unchanged, `dist` grows by one and the parent move is the move applied |
| Configurations.Configuration.MakeMove | hanoi_moves.py:61-73 | copying the pegs and assigning source then destination gives the reference successor |
| Configurations.MoveEffect | hanoi_moves.py:63-71 | for distinct pegs the source loses its top, the destination gains it on top, all else is kept |
| Configurations.MoveOntoItself | hanoi_moves.py:63-71 | when source and destination coincide, that peg gets its top disc doubled and the disc multiset grows by it |
| Configurations.AfterMoveAsUpdates | hanoi_moves.py:69-71 | the successor's pegs are the two list assignments, source first and destination second |
| Configurations.MoveConservesDiscs | hanoi_moves.py:61-73 | a move between distinct pegs keeps the multiset of discs |
| Configurations.MovePreservesStacking | hanoi_moves.py:52-73 | a generated move keeps every peg strictly decreasing and the discs distinct |
| Configurations.Configuration.LowerBound | hanoi_moves.py:75-88 | the nested loop with its early break computes the per-peg sum defined in `Heuristic` |
| Configurations.Configuration.SameArrangement | hanoi_moves.py:90-91 | equality compares only the pegs paired by `zip`, ignores `dist` and `parent_move`, and for equal peg counts is peg-list equality |
| Configurations.SameArrangementAgree | hanoi_moves.py:90-91 | two equal-length configurations both equal to a goal with at least as many pegs have the same pegs |
| Paths.Replay | hanoi_moves.py:61-73 | replaying legal moves keeps the peg count and adds one to `dist` per move |
| Paths.MovedDiscs | hanoi_moves.py:65 | one carried disc per move |
| Paths.ReplayOnPegs | hanoi_moves.py:52-73 | whether a path is legal, and where it leads, depend only on the pegs |
| Paths.ReplayAppend | hanoi_moves.py:61-73 | extending a legal path by a valid move is legal and ends at that move's successor |
| Paths.PrefixKept | hanoi_moves.py:61-73 | a disc never carried keeps itself and everything beneath it in place |
| Paths.StepKeepsPrefix | hanoi_moves.py:63-71 | a valid move that does not carry a given disc leaves the bottom of that disc's peg, up to the disc, unchanged |
| Paths.KeptOrMoved | hanoi_moves.py:61-73 | each disc at or above a given height is carried by some move, or else the disc at that height stays on its peg |
| Paths.MisplacedCount | hanoi_moves.py:82-88 | the discs the bound counts are exactly as many as the bound |
| Paths.MisplacedAreDiscs | hanoi_moves.py:82-88 | the discs the bound counts are discs of the configuration, none counted more often than it occurs |
| Paths.MisplacedAreMoved | hanoi_moves.py:82-88 | every disc the bound counts is carried by any path that reaches the goal |
| Paths.LowerBoundAdmissible | hanoi_moves.py:75-88 | with distinct discs, every legal move sequence reaching the goal is at least as long as the bound |
| Search.ChainFrom | hanoi_moves.py:125-129 | the moves along the back-pointers, oldest first: empty exactly when there is no move, otherwise ending in that move after the chain of its configuration |
| Search.Chain | hanoi_moves.py:125-129 | the moves that produced a configuration: empty exactly for a root, otherwise ending in its parent move |
| Search.ChainSound | hanoi_moves.py:124-131 | the parent-move chain of a reached configuration is a legal path from the start to it, of length `dist - start.dist` |
| Search.Reversed | hanoi_moves.py:130 | reversal keeps length and mirrors positions |
| Search.Rebuild | hanoi_moves.py:125-131 | walking `parent_move` and reversing yields the chain of moves from the root |
| Search.MinIndex | hanoi_moves.py:115 | the popped entry has least priority in the frontier |
| Search.WeightConcat | hanoi_moves.py:109-132 | the frontier's termination weight adds over concatenation |
| Search.WeightRemove | hanoi_moves.py:115 | popping one entry removes exactly its share of the weight |
| Search.StepWeight | hanoi_moves.py:115-132 | popping an entry and pushing its admitted successors strictly lowers the weight, so the loop ends |
| Search.CandidatesOf | hanoi_moves.py:118-121 | the successors by the given moves, each with its lower bound to the goal, kept when unvisited and within budget; no more candidates than moves, each unvisited, with its bound, within budget |
| Search.CandidatesFacts | hanoi_moves.py:118-121 | every candidate is a successor by a valid move, unvisited and within the budget, and there are no more candidates than moves |
| Search.CandidatesOfStep | hanoi_moves.py:118-121 | one more move adds its successor to the candidates exactly when it is unvisited and within the budget |
| Search.Expand | hanoi_moves.py:118-121 | the fused loop computes the three list comprehensions, keeping their order |
| Search.Entries | hanoi_moves.py:132 | each pushed entry has priority `dist + lb` |
| Search.PushUntilGoal | hanoi_moves.py:123-132 | the first candidate equal to the goal is reported; if there is none, all candidates are pushed in order |
| Search.EntriesReach | hanoi_moves.py:132 | every pushed configuration is reachable from the start and has the start's peg count |
| Search.WeightOfEntries | hanoi_moves.py:120-132 | pushed successors sit one level lower in the budget than the configuration expanded |
| Search.FoundIsSolution | hanoi_moves.py:124-131 | a candidate equal to the goal yields a legal, non-empty, in-budget move chain to the goal from a parentless start, and the start cannot equal the goal |
| Search.Solve | hanoi_moves.py:108-134 | a returned solution is non-empty, legal move by move, leads from a parentless start to the goal's arrangement, and has at most the remaining budget of moves; a goal equal to the start yields none; the loop terminates |
| Parse.PegCount | hanoi_moves.py:139 | `range(num_pegs)` makes `num_pegs` lists, none for a non-positive count |
| Parse.DiscOf | hanoi_moves.py:141 | the disc given to entry `j`: the last entry gets `num_discs`, and with one entry per disc entry `j` gets disc `j + 1` |
| Parse.InRange | hanoi_moves.py:142 | `peg - 1` indexes the list exactly for peg numbers 1..count and, counting from the end, -count+1..0 |
| Parse.Slot | hanoi_moves.py:142 | `peg - 1` as a list index, wrapping negatives from the end, always within the list |
| Parse.Placed | hanoi_moves.py:139-142 | the loop state keeps one list per peg |
| Parse.ToPegs | hanoi_moves.py:143 | one peg per list, holding that list |
| Parse.ParseConfiguration | hanoi_moves.py:137-144 | succeeds exactly when every peg number indexes the peg list, and then builds the pegs the loop produces with `dist` zero and no parent |
| Parse.PlacedStacked | hanoi_moves.py:140-142 | after any prefix of the loop every list is strictly decreasing |
| Parse.PlacedDiscs | hanoi_moves.py:140-142 | after `i` steps exactly the `i` largest discs are present, once each |
| Parse.AddOneDisc | hanoi_moves.py:142 | appending a disc to one list adds exactly that disc to the configuration |
| Parse.EmptyPegsHoldNothing | hanoi_moves.py:139 | freshly created pegs hold no discs |
| Parse.PlacedWhere | hanoi_moves.py:140-142 | every processed disc lies on the peg its entry names |
| Parse.ParseCorrect | hanoi_moves.py:137-144 | for numbers 1..numPegs, one per disc, each disc 1..n appears exactly once, disc `j + 1` is on peg `nums[j] - 1`, and every peg is strictly decreasing |

## Left out

- `parse_problem`, `output_solution`, `run` and `main`: text splitting, `int()` conversion, printing and I/O are not modelled. `Parse.ParseConfiguration` takes the list of numbers directly.
- `Peg.discs_bottom_up`: the generator is modelled by indexing the disc sequence bottom-up.
- `Peg.__eq__` and the two `__ne__` methods: Dafny's structural equality on `Peg` is tuple equality of the disc lists.
- `Peg.__hash__` and `Configuration.__hash__`: hashing is modelled by keeping the visited set as a set of peg lists.
- `Queue.PriorityQueue`: the frontier is a sequence and the first entry of least priority is popped. The source's order among equal priorities (Python 2 then compares the configurations themselves by its default object ordering) is not modelled.
- Search.Solve: soundness is stated only for a start without a parent move. Completeness (finding a solution whenever one exists within the budget) is neither claimed nor proved. One case where it fails is certain: a goal whose arrangement equals the start's is never reported, since the goal is tested only among successors.
- Search.Solve: "goal equal to the start yields none" is stated only when the goal has at least as many pegs as the start, because with fewer goal pegs `zip` can accept a successor that differs only in an uncompared peg.
- Search.Expand: the three list comprehensions of lines 118–121 are fused into one loop. Their results and order are the same, but the intermediate lists are not built.
- Configurations.Configuration.MakeMove: requires only that both indices are in range and the source is non-empty, as `top_disc` on an empty peg raises. The move is not checked for legality, as in the source.
- Configurations.MoveConservesDiscs: stated only for distinct source and destination, because a move onto its own peg duplicates a disc (`MoveOntoItself`).
- Configurations.Move: `frm` and `to` are natural numbers, as `enumerate` produces them; negative Python indices in a hand-built `Move` are not modelled.
- Paths.LowerBoundAdmissible: stated for configurations whose discs are distinct and for a goal with the same number of pegs.
- Parse.ParseCorrect: stated for well-formed input with one number per disc, each between 1 and the number of pegs. Other input is modelled by `Parse.Placed` (including wrap-around of non-positive numbers) without these guarantees.
- Python integers are unbounded, like Dafny's `int`, so there is no overflow to model.
