# Hamilton puzzle core, modelled and proved in Dafny

This project models the core of a Hamilton ("Hidato"/"Numbrix") puzzle
game. The puzzle is a w x h grid whose solution numbers the squares
1 .. w*h along a path of adjacent squares. Orthogonal moves are always
allowed; diagonal moves are allowed when the puzzle says so. A puzzle
shows some of the numbers (the clues), and the player fills in the rest.

The model covers four parts.

- **Solver** (`hamilton.c`).
  - Puzzle state: a solver state holds the grid and its *gaps*. A gap is a
    maximal run of missing numbers, anchored on the present numbers on
    either side, or open at the path ends.
  - Necessary moves: a forced square (`find_only_move`) and a forced
    straight line (`do_straight_path`), pruned by the "blocked number"
    test.
  - Search: a recursive trial-and-error search on copies of the state,
    with solution counting and a step budget, and the `solver` entry point.
- **Generator** (`hamilton.c`).
  - A random Hamiltonian path: the boustrophedon path, reshaped by
    "backbite" moves.
  - The numbered solution, then clue removal: by the ring and border masks,
    or one clue (or one symmetric pair) at a time. Each removal is kept when
    the solver, asked for a unique solution, reports success. The solver
    works within the pattern's step budget (`steps_limit`), and a search
    that spends its budget reports success with the first solution it
    found. So the puzzle is proved to have a single solution only at the
    easy level, where no search runs, or when the budget is unlimited
    (the ring and border patterns without diagonal moves).
- **Formats** (`hamilton.c`).
  - The parameter string.
  - The comma-separated game description, both directions.
  - Game description validation and bad-square marking.
- **Number-Link grid generator** (`unfinished/path.c`).
  - The breadth-first flood `bfs`.
  - The generation context with its paths and path ends.
  - `add_path`, `extend_path` with its push-and-repair loop,
    `gridgen_mainloop`, and `gridgen`'s endpoint labelling.

Each core file keeps its own form.

- **Pure code becomes functions and lemmas:** distances, gap comparison,
  the find-only-move and blocked-number rules, the parameter and
  description grammars.
- **Code that updates state becomes methods proved against functions or
  predicates of the old state.**
  - The solver state and the generation context are classes; their
    methods update `grid` arrays and `gaps`/`pathends` sequences.
  - The path buffers, number maps and BFS arrays are arrays.
  - Every loop of the source is a loop with invariants, except two plain
    fills: the status reset of path.c:298-299 is a sequence comprehension and
    the grid clearing of path.c:723-724 is a `forall` statement.

Randomness (`random_upto`) is a parameter `rng: nat -> nat` together with
a draw counter. `RandomUpto(rng, draw, n)` is `rng(draw) % n`.

Where the source and its own comments disagree, the model follows the code.
Where the code is wrong, the wrong version is kept as an "as written" member
with a counterexample, and the rest of the model uses a corrected version
(see "## Findings").

## Model

| member | source | states |
|---|---|---|
| Geometry.ManhattanDistance | hamilton.c:112-116 | the distance is 0 exactly for the same point and is at least each axis difference |
| Geometry.ChebyshevDistance | hamilton.c:122-126 | 0 exactly for the same point; equals the larger of the two axis differences |
| Geometry.Distance | hamilton.c:132-138 | the distance of the active metric is 0 exactly from a square to itself |
| Geometry.DistanceOneIffAdjacent | hamilton.c:132-138 | distance 1 under the active metric holds exactly for squares adjacent under the active move rule |
| Geometry.AdjacentSymmetric | hamilton.c:132-138 | adjacency is symmetric |
| Geometry.OrthogonalIsAdjacent | hamilton.c:132-138 | an orthogonal neighbour is a neighbour whether or not diagonals are allowed |
| Geometry.DistanceSymmetric | hamilton.c:132-138 | distance is symmetric |
| Geometry.DistanceTriangle | hamilton.c:132-138 | distance obeys the triangle inequality (the basis of the "too far" pruning) |
| Geometry.LocOfIdx | hamilton.c:449-455 | row-major indexing y*w+x is inverted by (k % w, k / w) |
| Geometry.IdxOfLocOf | hamilton.c:449-455 | every index 0 .. w*h-1 is the row-major index of a square of the grid |
| Geometry.IdxInjective | hamilton.c:449-455 | two squares of the grid with the same row-major index are the same square |
| Geometry.AdjacentIffOffset | hamilton.c:706-735 | adjacency is exactly an offset among the 4 (or 8) neighbour offsets |
| Geometry.NeighboursInOrder | hamilton.c:706-735 | the neighbour list of a square in a given offset order holds only squares of the grid, at most one per offset |
| Geometry.NeighboursInOrderMembers | hamilton.c:706-735 | a square is listed exactly when it is on the grid at one of the listed offsets |
| Geometry.NeighboursInOrderDistinct | hamilton.c:706-735 | distinct offsets give a list without repeats |
| Geometry.NeighboursInOrderSpec | hamilton.c:706-735 | for any complete offset order, the list is exactly the adjacent squares of the grid, without repeats |
| Geometry.OffsetOrderByCases | hamilton.c:706-735 | any 4 (or 8) distinct neighbour offsets form a complete offset order |
| Geometry.OrdersAreOffsetOrders | hamilton.c:1145-1180 | the enumeration orders of get_neighbors_except, find_only_move and do_recursive_solve are each complete |
| Geometry.ExceptOrderIsOffsetOrder | hamilton.c:287-303 | get_neighbors_except's order (up, down, left, right, then diagonals) visits every neighbour once |
| Geometry.ScanOrderIsOffsetOrder | hamilton.c:713-733 | find_only_move's and check_blocked_number's order visits every neighbour once |
| Geometry.SearchOrderIsOffsetOrder | hamilton.c:1147-1164 | do_recursive_solve's order visits every neighbour once |
| Geometry.DistinctSquaresCover | hamilton.c:388-389 | w*h distinct squares of the grid include every square |
| HamPath.Reverse | hamilton.c:157-169 | the reversal has the same length and holds s[|s|-1-i] at i |
| HamPath.ReverseInvolution | hamilton.c:157-169 | reversing twice gives the original list |
| HamPath.ReversePermutes | hamilton.c:157-169 | reversal keeps the multiset of locations |
| HamPath.ReverseLocations | hamilton.c:157-169 | in place, the first `length` entries become their reversal and the rest of the array is unchanged |
| HamPath.IndexOf | hamilton.c:174-182 | the first index holding x |
| HamPath.FindLocation | hamilton.c:174-182 | returns an index holding l with no earlier occurrence (l is required to be present, as every caller guarantees) |
| HamPath.BoustrophedonShape | hamilton.c:243-262 | the zig-zag path has w*h squares, all on the grid |
| HamPath.BoustrophedonDistinct | hamilton.c:243-262 | the zig-zag path visits no square twice |
| HamPath.BoustrophedonAdjacent | hamilton.c:243-262 | consecutive squares of the zig-zag path are orthogonally adjacent |
| HamPath.RowAdjacent | hamilton.c:250-257 | consecutive squares within one row of the zig-zag are adjacent |
| HamPath.RowJoinAdjacent | hamilton.c:252-256 | the last square of a row and the first of the next are adjacent |
| HamPath.BoustrophedonHamiltonian | hamilton.c:243-262 | simple_hampath's path is a Hamiltonian path under either move rule |
| HamPath.BoustrophedonEnds | hamilton.c:243-262 | it starts at (0,0) and ends at (w-1,h-1) for odd h, at (0,h-1) for even h |
| HamPath.SimpleHampath | hamilton.c:243-262 | the fresh array holds exactly the zig-zag path |
| HamPath.Zig | hamilton.c:249-251 | a left-to-right row is appended after the first p entries |
| HamPath.Zag | hamilton.c:255-257 | a right-to-left row is appended after the first p entries |
| HamPath.Without | hamilton.c:268-272 | the list keeps exactly the candidates other than `except` |
| HamPath.WithoutDistinct | hamilton.c:268-272 | dropping `except` keeps a list without repeats |
| HamPath.OrthogonalCandidatesSpec | hamilton.c:287-294 | the orthogonal candidates are exactly the orthogonal neighbours on the grid, distinct, at most 4 |
| HamPath.DiagonalCandidatesSpec | hamilton.c:295-304 | the diagonal candidates are exactly the diagonal-only neighbours on the grid, distinct, at most 4 |
| HamPath.NeighborCandidatesSpec | hamilton.c:287-304 | all candidates are exactly the neighbours on the grid, distinct, at most 4 or 8 |
| HamPath.GetNeighborsExcept | hamilton.c:280-306 | exactly the neighbours of the cursor other than `except`, distinct, fewer than 4 (8 with diagonals) |
| HamPath.NeighborFacts | hamilton.c:280-306 | the same facts for the candidate list with `except` removed |
| HamPath.WithoutShorter | hamilton.c:268-272 | removing a present element shortens the list |
| HamPath.WithoutShorterOrthogonal | hamilton.c:382 | the bound of random_hampath's second assert holds: fewer than 4 (8) neighbours remain |
| HamPath.GetNeighborsExceptNonEmpty | hamilton.c:381 | on a grid at least 2x2 some neighbour always remains, so random_upto gets a positive bound |
| HamPath.HamiltonianCovers | hamilton.c:388-389 | a Hamiltonian path contains every square, so find_location always succeeds |
| HamPath.ReverseHamiltonian | hamilton.c:373-374 | the reversal of a Hamiltonian path is Hamiltonian |
| HamPath.ReversePrefixHamiltonian | hamilton.c:391-392 | the backbite move (reverse the part before a neighbour of the head) keeps a Hamiltonian path |
| HamPath.AreaAtLeastFour | hamilton.c:357 | a grid at least 2x2 has at least four squares |
| HamPath.ShuffleOnce | hamilton.c:380-392 | one backbite step keeps the path Hamiltonian, keeps its tail square, and moves its head |
| HamPath.ShuffleEnds | hamilton.c:388-392 | after reversing a prefix of length at least 2, the tail stays and the old head is neither end |
| HamPath.HalfwayReverse | hamilton.c:373-374 | at step SHUFFLE_FACTOR*area the path is reversed, otherwise unchanged; either way Hamiltonian |
| HamPath.Shuffled | hamilton.c:365-393 | n rounds of the shuffle keep a Hamiltonian path |
| HamPath.ShuffledStep | hamilton.c:365-393 | round n+1 is the halfway reversal then one backbite step on round n |
| HamPath.ShuffledNext | hamilton.c:365-393 | the same unfolding stated over named intermediate paths |
| HamPath.RandomHampath | hamilton.c:354-396 | the returned path is the zig-zag path after 2*SHUFFLE_FACTOR*area rounds, and is a Hamiltonian path |
| HamPath.ShuffleRound | hamilton.c:373-392 | one loop iteration turns round i into round i+1 in place |
| HamPath.HalfwayStep | hamilton.c:373-374 | the in-place halfway reversal equals HalfwayReverse |
| HamPath.ShuffleStep | hamilton.c:380-392 | the in-place backbite step equals ShuffleOnce |
| Gaps.MaxGapLength | hamilton.c:570-594 | the longest gap length, 0 without gaps |
| Gaps.MaxGapLengthIsMax | hamilton.c:570-594 | it bounds every gap's length and is reached by some gap (or is 0) |
| Gaps.ScanStep | hamilton.c:450-455 | scanning one more square keeps "the map holds the last square seen with n" |
| Gaps.ComputeNumberToLocationMap | hamilton.c:438-459 | entry 0 is NO_COORD and entry n is the last square (row-major) holding n, NO_COORD when n is absent |
| Gaps.ScanRow | hamilton.c:450-456 | one row of the scan extends that invariant by w squares |
| Gaps.HoldsIsReal | hamilton.c:452-454 | a square holding a number has real coordinates, never NO_COORD |
| Gaps.HeldIsIn | hamilton.c:452-454 | a number held by a square is in the grid |
| Gaps.NumberMapOk | hamilton.c:438-459 | the finished map gives each present number a square holding it and NO_COORD for each absent one |
| Gaps.FirstNumber | hamilton.c:555-558 | the smallest number present on the grid |
| Gaps.LastNumber | hamilton.c:560-563 | the largest number present on the grid |
| Gaps.LeadingGap | hamilton.c:567-571 | when 1 is missing, the open gap 0 .. first_number starts the list and sets the longest length |
| Gaps.CloseGap | hamilton.c:577-583 | closing the pending gap at i anchors it on i and keeps the list invariant and the longest length |
| Gaps.NoCloseGap | hamilton.c:577-583 | with nothing to close the invariant carries over |
| Gaps.OpenGap | hamilton.c:585-587 | opening a gap after i (present, i+1 missing) keeps the invariant for i+1 |
| Gaps.NoOpenGap | hamilton.c:585-587 | with nothing to open the invariant carries to i+1 |
| Gaps.GapsAt | hamilton.c:575-587 | one iteration of the middle loop keeps the invariant |
| Gaps.GapsBetween | hamilton.c:574-588 | the middle loop establishes the invariant through last_number |
| Gaps.NotPendingAtEnd | hamilton.c:574-588 | after the loop no gap is left pending |
| Gaps.NoTrailingGap | hamilton.c:591-595 | when area is present the list is complete |
| Gaps.TrailingGap | hamilton.c:591-595 | otherwise the open gap last_number .. area+1 completes the list |
| Gaps.ComputeGaps | hamilton.c:543-601 | the result is exactly the maximal runs of missing numbers, in order, with correct anchors, and the longest gap length |
| GapsExample.ExampleNumbers | hamilton.c:525-532 | the numbers of the documented 4x4 example grid |
| GapsExample.ExampleGapsOk | hamilton.c:532-537 | each documented gap is a gap of that grid |
| GapsExample.ExampleCovers | hamilton.c:532-537 | the documented gaps cover every missing number |
| GapsExample.ExampleGapList | hamilton.c:525-541 | the documented four gaps are the gap list of the example and the longest is 3 |
| Rules.Put | hamilton.c:1009 | writing a square keeps the grid's size |
| Rules.PutAt | hamilton.c:1009 | after writing l, l holds v and every other square is unchanged |
| Rules.Around | hamilton.c:713-733 | the neighbour list used by the rules contains only squares of the grid |
| Rules.AroundSpec | hamilton.c:713-733 | it is exactly the adjacent squares, without repeats |
| Rules.OnlyEmpty | hamilton.c:673-682 | the helper's result is the starting value, "none", or one of the scanned squares |
| Rules.FindOnlyMove | hamilton.c:706-735 | a found move is a square of the grid |
| Rules.OnlyEmptyAfterFound | hamilton.c:673-682 | once a square is found, any further empty square turns the answer to "none" |
| Rules.OnlyEmptyFromStart | hamilton.c:673-735 | starting from "none", the answer is the unique empty square when there is exactly one, else "none" |
| Rules.FindOnlyMoveSound | hamilton.c:706-735 | a returned move is the only empty neighbour |
| Rules.FindOnlyMoveComplete | hamilton.c:706-735 | when exactly one neighbour is empty, it is returned |
| Rules.OnlyEmptyFindsOnly | hamilton.c:673-735 | the scan over a complete neighbour list returns the only empty neighbour |
| Rules.FindOnlyMoveSpec | hamilton.c:706-735 | find_only_move returns c exactly when c is the only empty neighbour |
| Rules.FindOnlyMoveNone | hamilton.c:706-735 | it returns nothing exactly when no neighbour is empty or at least two are |
| Rules.AvailableAtLeastTwo | hamilton.c:740-748 | the usable-square count reaches 1 (2) exactly when one (two distinct) usable neighbours exist |
| Rules.CheckBlockedNumberAsWritten | hamilton.c:778-818 | as written (fewer than two usable neighbours): for a number strictly between 1 and area it agrees with the corrected check |
| Rules.CheckBlockedNumber | hamilton.c:778-818 | corrected: a number reported blocked has fewer than two usable neighbours, and the end 1 (of a grid of more than one square) is blocked exactly when no neighbour is usable |
| Rules.CheckBlockedNumberAsWrittenSpec | hamilton.c:778-800 | as written, a number is blocked exactly when at most one neighbour is usable, whatever the number |
| Rules.CheckBlockedEndSpec | hamilton.c:753-756 | corrected: the path ends 1 and area are blocked exactly when no neighbour is usable |
| Rules.CheckBlockedMiddleSpec | hamilton.c:778-800 | a middle number is blocked exactly when at most one neighbour is usable |
| Rules.StraightAppliesIff | hamilton.c:976-1000 | the straight-path rule applies exactly when both ends are aligned (same row or column without diagonal moves, same diagonal with them) and the gap's number span equals their distance |
| Rules.StraightLine | hamilton.c:1001-1006 | the line of squares from l1 stays on the grid, steps between adjacent squares, never repeats, and ends at l2 |
| Rules.StraightOnlyAnchored | hamilton.c:976-1000 | the rule never applies to an open gap (the NO_COORD end lies too far away) |
| Consistency.SolvedWhenNoGaps | hamilton.c:1135-1142 | a consistent grid with no gaps left is a solution |
| Consistency.ZeroCountFill | hamilton.c:1009 | filling an empty square lowers the number of empty squares by one |
| Consistency.ZeroCountExtends | hamilton.c:1127-1187 | filling squares never raises the number of empty squares (the recursion's measure) |
| Consistency.RemoveAt | hamilton.c:1014-1015 | the memmove: entries before g stay, entries after g shift down by one |
| Consistency.WriteMembers | hamilton.c:1009 | writing v on an empty square adds v and loses no number |
| Consistency.HoldsAfterPut | hamilton.c:1009 | writing an empty square keeps every number on its square |
| Consistency.GapOkAfterWrite | hamilton.c:843-906 | a gap whose range does not contain v stays a gap after v is written |
| Consistency.ConsistentAfterWrite | hamilton.c:843-906 | writing a new n next to n-1 and n+1 (when present) keeps the grid consistent |
| Consistency.DisjointRemoveAt | hamilton.c:1014-1015 | removing a gap keeps the gaps disjoint |
| Consistency.DisjointNarrow | hamilton.c:843-906 | narrowing a gap keeps the gaps disjoint |
| Consistency.OthersAfterFill | hamilton.c:843-906 | filling a number of gap g leaves every other gap valid |
| Consistency.CoversRemoveAt | hamilton.c:1014-1015 | a gap whose numbers are all present can be dropped from a covering list |
| Consistency.CoversNarrow | hamilton.c:843-906 | a narrowed gap still covers the numbers still missing |
| Consistency.FillCloses | hamilton.c:859-866 | filling the single missing number of a gap and removing it keeps the exact gap set |
| Consistency.FillNarrows | hamilton.c:855-868 | filling one end of a longer gap and narrowing it keeps the exact gap set |
| Consistency.GapsAfterRaise | hamilton.c:843-870 | place_number_l1's gap update (n1+1 at c, or removal) gives the gap set of the new grid |
| Consistency.GapsAfterLower | hamilton.c:879-906 | place_number_l2's gap update (n2-1 at c, or removal) gives the gap set of the new grid |
| Consistency.RaisePreservesStateOk | hamilton.c:843-870 | the solver state invariant survives place_number_l1's update |
| Consistency.RaiseKeepsConsistent | hamilton.c:843-870 | n1+1 placed next to the square of n1 keeps a consistent grid consistent |
| Consistency.LowerPreservesStateOk | hamilton.c:879-906 | the state invariant survives place_number_l2's update |
| Consistency.LowerKeepsConsistent | hamilton.c:879-906 | n2-1 placed next to the square of n2 keeps a consistent grid consistent |
| Consistency.SquareOf | hamilton.c:438-459 | a number present on the grid stands on some square |
| Consistency.CheckBlockedNumberSound | hamilton.c:778-800 | with the corrected threshold, a number of a grid that extends to a solution is never reported blocked; Propagation.NotBlockedNearby applies it to every placement of the solver |
| Consistency.PathDistance | hamilton.c:848-852 | along a solution, the distance between the squares of two numbers is at most their difference, so the "too far" refusal of place_number_l1/l2 never discards a solution |
| Consistency.PutCompletes | hamilton.c:854 | writing on a square the number a solution has there keeps that solution a completion of the grid |
| Consistency.MissingIsEmpty | hamilton.c:854 | a number missing from a grid that a solution completes stands, in the solution, on a square that is empty in the grid |
| Consistency.IndexOf | hamilton.c:1135-1143 | an index at which a present number stands |
| Consistency.FullGridDistinct | hamilton.c:1135-1143 | a grid of area squares holding every number 1 .. area holds no 0 and no number twice |
| Consistency.FullExtendsEqual | hamilton.c:1135-1143 | a grid with no empty square is the only grid that extends it |
| Consistency.ExtendsThrough | hamilton.c:1127-1187 | whatever extends b extends everything b extends |
| Consistency.SameNumberSameSquare | hamilton.c:1145-1185 | in a solved grid two squares holding the same number are the same square |
| Consistency.ExtendsPut | hamilton.c:854 | writing v on an empty square c gives a grid that s extends exactly when s extends the old grid and has v at c |
| Propagation.StateAnchorsHeld | hamilton.c:821-834 | in a valid state every upper gap end that is not open stands on a number |
| Propagation.PutOnEmpty | hamilton.c:1009 | writing an empty square extends the grid and, for v != 0, fills one square |
| Propagation.ExtendsTransitive | hamilton.c:1127-1187 | "extends" (keeps every number in place) is transitive |
| Propagation.PlaceL1Keeps | hamilton.c:843-870 | whatever place_number_l1 answers, numbers stay put; on success the state invariant holds, one more square is filled, and consistency is kept when c is next to the lower end |
| Propagation.PlaceL2Keeps | hamilton.c:879-906 | the same for place_number_l2 with the upper end |
| Propagation.OnlyMoveFrom | hamilton.c:929-944 | find_only_move from a real gap end; a found square is on the grid |
| Propagation.OnlyMoveKeeps | hamilton.c:924-946 | do_only_move's outcome keeps numbers in place; Moved means a valid state with one more square filled, and consistency kept |
| Propagation.StraightFill | hamilton.c:1003-1010 | writing the first k squares of the line keeps the grid's size |
| Propagation.StraightWalk | hamilton.c:1001-1006 | when the rule applies, both ends are anchored and the whole line lies on the grid |
| Propagation.StraightGaps | hamilton.c:1003-1015 | after k steps the gap's lower number has risen by k and its upper number is unchanged |
| Propagation.RemoveAtUpdate | hamilton.c:1014-1015 | removing entry g ignores what entry g held |
| Propagation.StraightFillStep | hamilton.c:1003-1010 | step k writes n1+k on the k-th square of the line |
| Propagation.WalkStep | hamilton.c:1003-1013 | one step of the walk keeps the state invariant for the narrowed gap |
| Propagation.WalkStepConsistent | hamilton.c:1003-1013 | one step of the walk keeps a consistent grid consistent |
| Propagation.StraightGapsStep | hamilton.c:1003-1015 | narrowing the gap step by step, and removing it at the end, agrees with StraightGaps |
| Propagation.StraightPrefix | hamilton.c:1003-1013 | the first k steps of a clear walk keep the state invariant |
| Propagation.StraightPrefixStep | hamilton.c:1003-1013 | each step onto an empty square extends the prefix by one |
| Propagation.StraightPrefixConsistent | hamilton.c:1003-1013 | the first k steps keep a consistent grid consistent |
| Propagation.StraightConsistentStep | hamilton.c:1003-1013 | one more step keeps it consistent |
| Propagation.StraightCompleted | hamilton.c:1003-1016 | a walk that runs to the end fills the whole gap and removes it, keeping the invariant and consistency |
| Propagation.StraightStopped | hamilton.c:1007-1012 | a walk stopped at an occupied or blocked square still keeps every number in place |
| Propagation.StraightKeeps | hamilton.c:971-1017 | do_straight_path's outcome keeps numbers in place; Moved means a valid state with squares filled, consistency kept |
| Propagation.AdvanceFill | hamilton.c:1007-1009 | writing onto an empty square of the line advances the fill by one |
| Propagation.StopsWhenTaken | hamilton.c:1007-1008 | an occupied square on the line stops the walk as unsolvable |
| Propagation.StopsWhenBlocked | hamilton.c:1011-1012 | a blocked neighbour after a write stops the walk as unsolvable |
| Propagation.DupGrid | hamilton.c:603-608 | the fresh array holds a copy of the grid |
| Propagation.OrderedDisjoint | hamilton.c:543-601 | an ordered gap list is a disjoint gap set |
| Propagation.NotBlockedNearby | hamilton.c:821-834 | a grid that a solution completes has no blocked number next to any square |
| Propagation.PlaceL1KeepsSolution | hamilton.c:843-870 | when a solution has n1+1 on c, place_number_l1 on c succeeds and the solution still completes the new grid |
| Propagation.PlaceL2KeepsSolution | hamilton.c:879-906 | when a solution has n2-1 on c, place_number_l2 on c succeeds and the solution still completes the new grid |
| Propagation.SolutionLeavesL1 | hamilton.c:929-936 | a solution puts n1+1 on an empty square next to the lower end of an anchored gap |
| Propagation.SolutionReachesL2 | hamilton.c:937-944 | a solution puts n2-1 on an empty square next to the upper end of an anchored gap |
| Propagation.OnlyMoveKeepsSolution | hamilton.c:924-946 | do_only_move never reports a grid with a solution unsolvable, and the solution completes the grid it leaves |
| Propagation.OnlyStraightPath | hamilton.c:976-1000 | when the straight-path rule applies, the line is the only walk of the gap's length between its ends |
| Propagation.SolutionAlongWalk | hamilton.c:1001-1010 | when the straight-path rule applies, a solution has n1+k on the k-th square of the line |
| Propagation.StraightFillElsewhere | hamilton.c:1003-1010 | the first k steps of the walk leave every square off those steps unchanged |
| Propagation.StraightKeepsSolutionUpTo | hamilton.c:1001-1013 | the first k steps of the walk are each clear and keep a solution completing the grid |
| Propagation.StraightStepKeepsSolution | hamilton.c:1007-1012 | step k of the walk is clear and keeps the solution a completion |
| Propagation.StraightKeepsSolution | hamilton.c:971-1017 | do_straight_path never reports a grid with a solution unsolvable, and the solution completes the grid it leaves |
| Propagation.SolverState.FromParts | hamilton.c:610-617 | the state holds the given dimensions, rule, step limit, grid and gaps |
| Propagation.SolverState.Init | hamilton.c:626-637 | a fresh state over a copy of the grid with the gaps of compute_gaps, valid, and the longest gap length |
| Propagation.SolverState.Copy | hamilton.c:642-655 | an independent state (fresh grid array) with equal fields, grid and gaps |
| Propagation.SolverState.CheckBlockedNumbersNearby | hamilton.c:821-834 | corrected (the threshold of Rules.CheckBlockedNumber, not the as-written `available < 2`): true exactly when the upper end of some gap is next to c and its number is blocked |
| Propagation.SolverState.PlaceNumberL1 | hamilton.c:843-870 | follows PlaceL1Outcome: refuse without writing when c is too far from the upper end; else write n1+1, fail if a nearby number is blocked, else raise or remove the gap |
| Propagation.SolverState.PlaceNumberL2 | hamilton.c:879-906 | follows PlaceL2Outcome, the mirror image with n2-1 |
| Propagation.SolverState.DoOnlyMove | hamilton.c:924-946 | follows OnlyMoveOutcome: a forced square from l1, else from l2, is placed or the state is unsolvable; Moved fills a square and keeps validity and consistency |
| Propagation.SolverState.DoStraightPath | hamilton.c:971-1017 | follows StraightOutcome; Moved fills the gap's line and removes the gap, keeping validity and consistency |
| Propagation.SolverState.WalkStraight | hamilton.c:1001-1013 | either every square of the line was clear and the grid is the full fill, or the walk stopped at some step k as StraightStopsAt describes |
| Propagation.SolverState.DoNecessaryMoves | hamilton.c:1041-1067 | numbers stay put; on success the state is valid, no gap has a forced move left, and a consistent grid stays consistent; every completed grid that extends the old grid makes it succeed and extends the new grid |
| Propagation.SolverState.NecessaryMoveAt | hamilton.c:1046-1062 | one gap's straight-path then only-move attempt: Moved fills squares, DidntMove leaves the state unchanged with that gap settled; a completed grid extending the old grid rules out Unsolvable and extends the new grid |
| Search.ExtendsKeepsClue | hamilton.c:1131-1143 | a grid that extends one with a clue still has a clue |
| Search.GapCompare | hamilton.c:1189-1203 | the comparison's sign is the order of the two gaps' end-to-end distances under the active metric |
| Search.OpenGapsSortLast | hamilton.c:1189-1203 | an open gap (NO_COORD = 255 at one end) sorts after every anchored gap |
| Search.SidesBounded | hamilton.c:1189-1203 | a grid of at most NUMBER_MAX squares has sides at most NUMBER_MAX |
| Search.SwapKeepsGapSet | hamilton.c:1257-1258 | swapping two adjacent gaps keeps the gap set |
| Search.SortGaps | hamilton.c:1257-1258 | the sorted gaps are a permutation of the input, ordered by distance, and still the gap set |
| Search.SinkInto | hamilton.c:1257-1258 | inserting gap i into the sorted prefix keeps the permutation and extends the sorted prefix |
| Search.SinkStep | hamilton.c:1257-1258 | one swap of the insertion keeps the permutation, the gap set and the insertion invariant |
| Search.SinkingStep | hamilton.c:1257-1258 | the insertion invariant survives one swap |
| Search.SinkingDone | hamilton.c:1257-1258 | when the entry is in place the prefix through i is sorted |
| Search.ProgressFromExtension | hamilton.c:1072-1100 | a solution recorded in a branch (whose grid extends the caller's and keeps consistency) is a solution for the caller's grid |
| Search.ProgressTransitive | hamilton.c:1145-1183 | the search outcome relation composes across consecutive branch attempts |
| Search.FoundAmongStep | hamilton.c:1145-1183 | trying one more square keeps "every completion placing the number on a tried square has been recorded" |
| Search.SolutionForWeaken | hamilton.c:1072-1100 | a solution for a grid that extends the caller's (and keeps consistency) is a solution for the caller's grid |
| Search.SolutionBranches | hamilton.c:1145-1185 | every completion puts the first gap's next number on one of the squares next to the gap end the search branches from |
| Search.TakenSquare | hamilton.c:1078-1079 | a completion never puts the tried number on a square that already holds a number, so skipping it loses nothing |
| Search.PlacementKeeps | hamilton.c:1080-1081 | the placement on the copy writes the tried number on c, keeps a clue and consistency, and keeps every completion with that number on c |
| Search.BranchReport | hamilton.c:1080-1083 | what the recursive call reports on the copy holds for the original grid |
| Search.SolveStep | hamilton.c:1072-1100 | trying one square on a copy: a recorded solution completes the original grid, a raised "multiple" comes with a second distinct solution, steps only grow, "finished" has one of its causes; the first solution found has the tried number on the square; when not finished, every completion with that number on that square has been recorded |
| Search.TryAround | hamilton.c:1145-1183 | trying every neighbour of the first gap's end in the source's order keeps the same guarantees; when not finished, every completion of the grid has been recorded, so the one recorded solution is the only one |
| Search.FirstGapAnchored | hamilton.c:1144-1146 | the first gap has a real end to branch from |
| Search.DoRecursiveSolve | hamilton.c:1127-1187 | a recorded solution keeps every clue, fills every number once and solves consistent clues; "multiple" is raised only while counting, with a solution at hand and a second distinct one; "finished" only for a second solution, a solution when not counting, or the spent budget; when not finished, the recorded solution is the only completion of the grid (none when there is none) |
| Search.GapListBoundsRuns | hamilton.c:1243-1245 | the longest-gap value bounds every run of missing numbers |
| Search.RunsAtMostWiden | hamilton.c:1244-1245 | a run bound holds for any larger bound |
| Search.LongGapIsRun | hamilton.c:1243-1245 | a gap longer than L is a run of more than L missing numbers, so the early failure is exactly the run test |
| Search.Solver | hamilton.c:1234-1270 | success exactly when a solution is returned; it keeps all clues, fills every number once, solves consistent clues, and success implies no run longer than max_gap_length; "multiple" (counting only, not at the easy level) comes with two distinct solutions and failure; at the easy level, or when counting without a step budget, success means the solution is the only completion; without a budget above the easy level every completion makes it succeed or find several |
| Randomness.RandomUpto | unfinished/path.c:477 | random_upto(n) answers below n |
| Randomness.Shuffle | unfinished/path.c:476-483 | the Fisher-Yates loop permutes the first n entries, leaves the rest alone, and uses n-1 draws |
| Randomness.SwapKeepsMultiset | unfinished/path.c:478-482 | one swap permutes the prefix and leaves the rest alone |
| GameParams.DefaultParams | hamilton.c:1296-1303 | 7x7, no diagonals, ends not kept, symmetric pattern, easy |
| GameParams.ValidateParams | hamilton.c:1340-1351 | no error exactly for valid parameters; each error is one of the four messages, the size message first |
| GameParams.DigitChar | hamilton.c:1410 | the character of a decimal digit |
| GameParams.NatDigits | hamilton.c:1410 | a non-empty run of digit characters |
| GameParams.NatDigitsValue | hamilton.c:1410 | reading back the printed digits of n gives n |
| GameParams.DigitRun | hamilton.c:1362 | the length of the leading digit run |
| GameParams.DigitRunIsDigits | hamilton.c:1362 | every character of the run is a digit |
| GameParams.DigitRunOfDigits | hamilton.c:1362 | the run over digits followed by a non-digit is exactly the digits |
| GameParams.SpaceRun | hamilton.c:1361 | atoi's leading white space: the run length, stopping at a non-space |
| GameParams.AtoiDigits | hamilton.c:1361 | atoi of digits followed by a non-digit is their value |
| GameParams.Atoi | hamilton.c:1361 | atoi is 0 when no sign or digit follows the leading white space, and never negative without a minus sign |
| GameParams.SizeEnd | hamilton.c:1361-1368 | where the cursor stands after the size part, within the string |
| GameParams.ReadParams | hamilton.c:1356-1368 | the width is atoi of the string, and the height equals it unless an 'x' follows the first number |
| GameParams.Options | hamilton.c:1369-1400 | the option letters never change the size and only switch diagonal moves and kept ends on |
| GameParams.SkipDigits | hamilton.c:1362 | the skip loop stops after the digit run |
| GameParams.DecodeParams | hamilton.c:1356-1401 | the loop-based decoder computes ReadParams of the string |
| GameParams.DecodeOptions | hamilton.c:1369-1400 | the option loop computes Options of the rest of the string (stopping at the end, see Findings) |
| GameParams.OptionsOfEncoding | hamilton.c:1410-1426 | decoding the option letters of an encoding restores diagonal and, when full, keep-ends, pattern and difficulty |
| GameParams.OptionsFlag | hamilton.c:1372-1376 | an 'o' or 'k' sets its flag, and its absence leaves the flag alone |
| GameParams.OptionsPatternCode | hamilton.c:1377-1388 | the pattern code, empty for the default symmetric pattern, decodes to the pattern |
| GameParams.OptionsDifficultyCode | hamilton.c:1390-1398 | the difficulty code, empty for easy, decodes to the difficulty |
| GameParams.DecodeEncode | hamilton.c:1356-1430 | decoding an encoding gives back the parameters (full), or size and diagonal over the defaults (not full) |
| GameParams.EncodeParams | hamilton.c:1406-1430 | the short encoding (the game id's) holds only digits, the 'x' and the 'o' |
| GameParams.ReadSize | hamilton.c:1361-1368 | "WxH" followed by options reads back W and H and stops before the options |
| GameParams.ReadSecond | hamilton.c:1365-1368 | the height after 'x' is read and skipped |
| GameParams.ReadNumber | hamilton.c:1361-1362 | a digit run followed by a non-digit is read as its value and skipped exactly |
| GameParams.DecodeReadsPastEnd | hamilton.c:1377-1378 | as written, on "7p" the cursor passes the terminating NUL (see Findings) |
| DescCodec.CommaCountAppend | hamilton.c:1726-1727 | commas of a concatenation add up |
| DescCodec.DescOf | hamilton.c:1716-1739 | the description of a grid fits the 3*area buffer minus the terminating NUL |
| DescCodec.DescOfSnoc | hamilton.c:1725-1736 | appending one square's separator and field extends the description by that square |
| DescCodec.EncodeDescGrid | hamilton.c:1709-1743 | the text written is the description of the grid and fits the buffer |
| DescCodec.EncodeRow | hamilton.c:1725-1737 | one row of the loop extends the description by that row |
| DescCodec.FirstRow | hamilton.c:1726 | the first square's row index is 0 exactly on row 0 |
| DescCodec.EncodeSquare | hamilton.c:1726-1736 | one square extends the description by that square |
| DescCodec.WriteSquare | hamilton.c:1726-1736 | a comma (except first), then nothing for 0, else one or two digits |
| DescCodec.Scan | hamilton.c:1754-1765 | the decoder never loses a square it has started, and every square it fills holds a value of number_t (0 .. 255) |
| DescCodec.ScanLength | hamilton.c:1754-1765 | the decoder produces one more square than there are commas |
| DescCodec.AsNumber | hamilton.c:90 | a number stored in a square is kept modulo 256 (number_t is an unsigned char); 0 .. 255 are unchanged |
| DescCodec.DecodeDesc | hamilton.c:1748-1767 | a description decodes into CommaCount+1 squares, each 0 .. 255 |
| DescCodec.DecodeDescGrid | hamilton.c:1748-1767 | the fresh grid starts with the decoded squares, each atoi's value modulo 256 (callers pass a description with fewer commas than squares) |
| DescCodec.DecodeChar | hamilton.c:1755-1764 | one loop iteration advances the scan by one character or one number |
| DescCodec.DecodeOther | hamilton.c:1754-1765 | any other character is skipped |
| DescCodec.DecodeComma | hamilton.c:1756-1758 | a comma starts a new square holding 0 |
| DescCodec.DecodeNumber | hamilton.c:1759-1763 | a number starting 1..9 is read by atoi, stored modulo 256 into the current square, and its digits skipped |
| DescCodec.ScanEnd | hamilton.c:1754 | at the end of the text the squares are final |
| DescCodec.ScanCommaAt | hamilton.c:1756-1758 | scanning from a comma equals scanning the rest with a new 0 square |
| DescCodec.ScanNumberAt | hamilton.c:1759-1763 | scanning from a digit 1..9 sets the current square to the number and skips it |
| DescCodec.ScanNumber | hamilton.c:1759-1763 | the same, from the start of the text |
| DescCodec.NumberRunAt | hamilton.c:1762-1763 | a digit run contains no comma |
| DescCodec.ScanOtherAt | hamilton.c:1754-1765 | other characters do not change the squares |
| DescCodec.ScanSkipsDigits | hamilton.c:1762-1763 | skipping digits skips no comma |
| DescCodec.ScanAppend | hamilton.c:1754-1765 | decoding a text then a comma-led suffix is decoding in two parts |
| DescCodec.PrefixRun | hamilton.c:1760-1763 | a comma after a number ends its digit run |
| DescCodec.RunAppend | hamilton.c:1762-1763 | a non-digit after a run ends it |
| DescCodec.AtoiOfDigit | hamilton.c:1760 | atoi at a digit reads exactly the digit run |
| DescCodec.ScanField | hamilton.c:1728-1736 | decoding one encoded field fills that square with its number |
| DescCodec.DecodeEncode | hamilton.c:1709-1767 | decoding the encoding of a grid with numbers 0..NUMBER_MAX gives the grid back |
| DescCodec.DecodeSingle | hamilton.c:1709-1767 | the round trip for one square |
| DescCodec.DecodeSnoc | hamilton.c:1709-1767 | the round trip extends by one square |
| DescCodec.SnocLast | hamilton.c:1709-1767 | a sequence is its prefix plus its last element |
| DescCodec.DescSnoc | hamilton.c:1725-1736 | the description of n squares is that of n-1 squares, a comma and the last field |
| DescCodec.ScanComma | hamilton.c:1756-1758 | a leading comma opens a new 0 square |
| DescCodec.ValidateDesc | hamilton.c:1788-1806 | the loop's answer is DescError: invalid character, too few or too many squares, or none |
| DescCodec.DescError | hamilton.c:1788-1806 | a description passes exactly when it holds only digits and commas and decodes into area squares |
| DescCodec.LargeNumberWraps | hamilton.c:1759-1763 | on a 2x2 grid "300,0,0,0" validates and decodes into 44, 0, 0, 0 |
| DescCodec.LargeClueAccepted | hamilton.c:1788-1806 | as written, validation lets "300,0,0,0" through on a 2x2 grid although its decoded grid holds a clue above the area; the corrected validation refuses it (see Findings) |
| DescCodec.CheckedDescError | hamilton.c:1788-1806 | the corrected validation reports the as-written errors first, then refuses a description exactly when a decoded clue exceeds the area |
| DescCodec.CheckedDescIsValidGrid | hamilton.c:1788-1806 | the corrected validation accepts exactly the descriptions of digits and commas whose decoded grid is valid solver input (every square 0 .. area, area squares) |
| DescCodec.ScanNumberThen | hamilton.c:1759-1763 | a clue starting with a non-zero digit is read whole by atoi, stored as a byte into the current square, and the scan resumes after its last digit |
| DescCodec.ZeroFields | hamilton.c:1756-1761 | each ",0" adds a blank square, since a 0 starts no number |
| DescCodec.EncodedDescValid | hamilton.c:1709-1806 | every encoded grid validates against its own area |
| DescCodec.EncodedDescShape | hamilton.c:1709-1743 | an encoding uses only digits and commas, with one comma fewer than squares |
| DescCodec.FieldShape | hamilton.c:1728-1736 | a field is digits only, without commas |
| DescCodec.JoinShape | hamilton.c:1726-1727 | joining with a comma keeps the character set and adds one comma |
| GameStatus.AtInRange | hamilton.c:1899-1915 | a square of a valid grid holds 0 .. area |
| GameStatus.IsBadSquare | hamilton.c:1899-1915 | a square holding n is bad exactly when n - 1 or n + 1 is within 1 .. area, on the grid and not on a neighbouring square |
| GameStatus.NoBadSquareIffConsistent | hamilton.c:1899-1915 | with each number on one square, no square is bad exactly when the grid is consistent |
| GameStatus.ConsistentHasNoBadSquare | hamilton.c:1899-1915 | a consistent grid has no bad square |
| GameStatus.NotBadWhenConsistent | hamilton.c:1899-1915 | in a consistent grid a given square is not bad |
| GameStatus.NoBadSquareIsConsistent | hamilton.c:1899-1915 | no bad square (numbers once each) implies consistency |
| GameStatus.ExampleBadSquares | hamilton.c:1890-1897 | in the documented grid the 10 and the 9 are bad and the 12, 6, 7, 8, 2 and 16 are not |
| Generator.PathToGrid | hamilton.c:1551-1562 | the square path[i] holds i+1 |
| Generator.DistinctIdx | hamilton.c:1555-1559 | distinct path squares have distinct indices, so no write is overwritten |
| Generator.NumberOnPath | hamilton.c:1551-1562 | every square holds the number of its position on the path |
| Generator.PathGridSolved | hamilton.c:1551-1562 | numbering a Hamiltonian path gives a solved grid, all squares nonzero |
| Generator.SolvedInjective | hamilton.c:1551-1562 | in a solved grid no number stands on two squares |
| Generator.Masked | hamilton.c:1611-1633 | masking keeps the grid's size |
| Generator.RingIsSecondLayer | hamilton.c:1615-1616 | the ring keeps exactly the squares one step in from the edge |
| Generator.BorderKeepsSpacedEdge | hamilton.c:1629-1630 | the border keeps edge squares only, no two orthogonally adjacent |
| Generator.ApplyMask | hamilton.c:1613-1633 | the masking loops leave exactly Masked of the grid |
| Generator.MaskRow | hamilton.c:1614-1618 | one row of the masking loop |
| Generator.MaskedExtends | hamilton.c:1611-1633 | masking only blanks squares, so the solution extends the masked grid |
| Generator.MaskedHasClue | hamilton.c:1611-1633 | with sides at least 3 for the ring, a masked full grid keeps a clue |
| Generator.NarrowRingBlanksAll | hamilton.c:1615-1617 | on a grid 2 wide or high the ring blanks everything (see Findings) |
| Generator.NarrowRingValidates | hamilton.c:1340-1351 | yet 2x2 with the ring pattern validates |
| Generator.AnyClue | hamilton.c:1676-1678 | true exactly when the grid still has a clue |
| Generator.Blanked | hamilton.c:1668-1676 | blanking keeps the grid's size |
| Generator.FullGridOk | hamilton.c:1647-1653 | the full solution satisfies the removal invariant |
| Generator.FullGridUnique | hamilton.c:1647-1653 | the full solution, where removal starts, has itself as its only completion |
| Generator.BlankedOk | hamilton.c:1665-1679 | a blank the solver accepts keeps the removal invariant (kept ends stay) |
| Generator.PartnerIdx | hamilton.c:1670 | the 180-degree partner of a square is on the grid at index area-1-k |
| Generator.TryRemove | hamilton.c:1655-1686 | one clue of the shuffled list: skipped for a kept end, else its square (and partner) are blanked and kept blank only on the solver's approval, with a single completion at the easy level or without a step budget |
| Generator.BlankAndAsk | hamilton.c:1673-1686 | blank, ask the solver for a unique solution, and restore the clue (and partner) on failure; a kept removal at the easy level or without a step budget leaves a puzzle with a single completion |
| Generator.ExtendsValid | hamilton.c:1676-1678 | a blanked solved grid is a valid solver input |
| Generator.SolutionPrefixDistinct | hamilton.c:1647-1653 | the clue list taken from a solved grid has no repeats |
| Generator.DistinctCountOne | hamilton.c:1653 | a list without repeats holds each value at most once |
| Generator.RepeatCountTwo | hamilton.c:1653 | a repeated value counts twice |
| Generator.PermutationDistinct | hamilton.c:1653 | a permutation of a list without repeats has none |
| Generator.PendingStep | hamilton.c:1655-1687 | one removal step keeps "clues not yet tried are still on the grid" |
| Generator.RemoveClues | hamilton.c:1655-1687 | after the loop the grid still satisfies the removal invariant and, at the easy level or without a step budget, has a single completion |
| Generator.GeneratePuzzle | hamilton.c:1576-1696 | the solution is a solved grid and the puzzle extends it and keeps a clue; ring/border give the masked grid with runs bounded by the gap limit; other patterns give a grid each removal of which the solver approved; the puzzle has a single completion at the easy level (ring or removal patterns) or when steps_limit is unlimited |
| Generator.ShuffleAndRemove | hamilton.c:1643-1690 | the shuffle-then-remove branch keeps the removal invariant and the single completion of RemoveClues |
| Generator.MaskAndAsk | hamilton.c:1611-1641 | the ring/border branch gives the masked grid, with a clue and bounded runs, when the solver accepts it; with a single completion for the easy ring or without a step budget |
| BlockedEnds.CornerPathHamiltonian | hamilton.c:753-756 | the 3x3 example path is Hamiltonian |
| BlockedEnds.CornerPathInGrid | hamilton.c:753-756 | its squares lie on the 3x3 grid |
| BlockedEnds.CornerPathAdjacent | hamilton.c:753-756 | its consecutive squares are adjacent |
| BlockedEnds.CornerPathDistinct | hamilton.c:753-756 | it repeats no square |
| BlockedEnds.CornerNumbersPath | hamilton.c:753-756 | the example solution numbers that path |
| BlockedEnds.CornerSolutionSolved | hamilton.c:753-756 | the example solution is solved |
| BlockedEnds.CheckBlockedNumberAsWrittenRejectsSolvable | hamilton.c:778-800 | the as-written check calls the 9 in the corner blocked on a grid that extends to a solution; the corrected check does not |
| BlockedEnds.CornerExtends | hamilton.c:753-756 | the partial grid extends to the example solution |
| BlockedEnds.CornerNine | hamilton.c:778-800 | any 3x3 grid with 9 in the corner, 8 right and 4 below is blocked as written and not blocked when corrected |
| BlockedEnds.CornerAvailable | hamilton.c:740-748 | exactly one square next to the corner is usable by 9 |
| BlockedEnds.CornerAround | hamilton.c:784-792 | the corner's neighbours are the squares right and below |
| BlockedEnds.CornerEastward | hamilton.c:784-792 | the neighbour scan from the corner, from the east offset on |
| BlockedEnds.CornerUpward | hamilton.c:786-792 | the scan from the up offset on |
| BlockedEnds.CornerDownward | hamilton.c:790-792 | the scan from the down offset on |
| PathBfs.StepFacts | unfinished/path.c:121-129 | a step in direction d stays on the grid and moves by (DX(d), DY(d)) |
| PathBfs.StepBack | unfinished/path.c:121-129 | stepping back in the opposite direction returns to the square |
| PathBfs.RoomForOneMore | unfinished/path.c:131 | the list never overflows: assert(listsize < w*h) holds |
| PathBfs.ListNeighbour | unfinished/path.c:127-133 | a neighbour of a listed square of the same colour is reached |
| PathBfs.ListingGrows | unfinished/path.c:130-132 | recording a new square keeps list and dist in agreement |
| PathBfs.OrderedGrows | unfinished/path.c:130-132 | the list stays in nondecreasing distance order |
| PathBfs.ParentedGrows | unfinished/path.c:130-132 | every reached square but the start keeps a neighbour one closer |
| PathBfs.ListNeighbourKeepsClosed | unfinished/path.c:121-134 | visiting keeps the finished part of the list closed under same-colour neighbours |
| PathBfs.KnownNeighbour | unfinished/path.c:127-129 | an already reached neighbour needs nothing |
| PathBfs.BeginVisit | unfinished/path.c:117-120 | taking the next square from the list starts its visit |
| PathBfs.EndVisit | unfinished/path.c:121-134 | after the four directions the square is closed |
| PathBfs.CloseSquare | unfinished/path.c:121-134 | the visited square's neighbours are all accounted for |
| PathBfs.SearchComplete | unfinished/path.c:117-135 | when the list is exhausted the flood is complete |
| PathBfs.Bfs | unfinished/path.c:94-138 | dist and list describe the flood from (x,y) over its colour; the count is the number reached |
| PathBfs.Unreached | unfinished/path.c:101-102 | every entry of dist and list becomes -1 |
| PathBfs.Visit | unfinished/path.c:117-135 | one square's visit keeps the search invariant |
| PathBfs.Look | unfinished/path.c:121-133 | one direction of the visit keeps the search invariant |
| PathBfs.Enqueue | unfinished/path.c:127-132 | a new same-colour neighbour gets distance d+1 and joins the list |
| PathBfs.Record | unfinished/path.c:130-132 | the two writes, and nothing else |
| PathBfs.VisitNew | unfinished/path.c:127-132 | recording a new neighbour keeps the visit invariant |
| PathBfs.VisitNewState | unfinished/path.c:127-132 | the same over the updated arrays |
| PathBfs.VisitSkip | unfinished/path.c:127-129 | skipping an off-colour or reached neighbour keeps the invariant |
| PathBfs.ReachedIsReachable | unfinished/path.c:94-138 | a square with dist d can be reached in d same-colour steps |
| PathBfs.ReachableIsReached | unfinished/path.c:94-138 | a square reachable in d steps has a dist of at most d |
| PathBfs.BfsDistanceIsShortest | unfinished/path.c:94-138 | dist is exactly the shortest same-colour walking distance, -1 when unreachable |
| PathBfs.BfsCountsReached | unfinished/path.c:94-138 | the returned count is the number of squares reached |
| PathGen.Unfixed | unfinished/path.c:314-319 | the number of paths not yet fixed (untouched or broken), at most npaths |
| PathGen.UnfixedSame | unfinished/path.c:314-319 | it depends only on the first n marks |
| PathGen.UnfixedUpdate | unfinished/path.c:437 | marking a path fixed lowers it by one |
| PathGen.StartPush | unfinished/path.c:295-312 | setting up the spare copies and cutting into square e gives the push invariant |
| PathGen.ClaimKeeps | unfinished/path.c:407-413 | painting a square for path i keeps the push invariant |
| PathGen.WipeKeeps | unfinished/path.c:344-345 | wiping a square of path i keeps the push invariant |
| PathGen.FixKeeps | unfinished/path.c:434-437 | recording the new ends and marking path i fixed keeps it |
| PathGen.CommitMarks | unfinished/path.c:444-445 | with no broken path left, the copied ends lie on their paths in the copied grid |
| PathGen.WipedStep | unfinished/path.c:335-345 | wiping one more listed square |
| PathGen.SameSquare | unfinished/path.c:359-372 | equal row and column give the same square |
| PathGen.SurroundStep | unfinished/path.c:359-372 | painting one offset of the 3x3 block keeps the partial surround |
| PathGen.SurroundSkip | unfinished/path.c:362-367 | skipping the centre or an off-grid offset keeps it |
| PathGen.SkippedNotAround | unfinished/path.c:362-367 | a skipped offset names no neighbour of the cut square |
| PathGen.SurroundNextRow | unfinished/path.c:359-360 | finishing a row of offsets moves to the next |
| PathGen.ParentDir | unfinished/path.c:422-428 | corrected (`jy < h`): the first direction to a neighbour one closer, which always exists |
| PathGen.ParentDirAsWritten | unfinished/path.c:422-428 | as written (`jy < w`): the first direction whose neighbour passes that test, 4 when none |
| PathGen.WalkBackBoundAsWritten | unfinished/path.c:424 | on a column 2 wide and 3 high the as-written test finds no parent for a reached square (see Findings) |
| PathGen.DecodeExtension | unfinished/path.c:642-646 | the (path, end, direction) triple decoded from q encodes back to q |
| PathGen.DecodeEncode | unfinished/path.c:642-646 | encoding then decoding gives the triple back |
| PathGen.ExtensionOfPath | unfinished/path.c:621-646 | codes below 8*npaths are exactly those of existing paths |
| PathGen.RangeCount | unfinished/path.c:621-622 | the list 0 .. m-1 holds each value once |
| PathGen.Arrangement | unfinished/path.c:621-635 | a permutation of lo .. lo+m-1 has those values, without repeats |
| PathGen.ShuffledRange | unfinished/path.c:621-635 | the filled then shuffled list is a permutation of lo .. lo+m-1 |
| PathGen.EmptySquares | unfinished/path.c:469-471 | the collected empty squares, at most m of them |
| PathGen.EmptySquaresSpec | unfinished/path.c:469-471 | exactly the empty squares below m, in increasing order |
| PathGen.ShuffledEmptiesAreEmpty | unfinished/path.c:476-483 | every entry of the shuffled list is an empty square |
| PathGen.Parents | unfinished/path.c:544-549 | corrected: the list of neighbours one closer, every one of them and nothing else, at most 4 |
| PathGen.ChooseEnd | unfinished/path.c:518-533 | the far end is a reached square at distance at least 3, within one of the largest distance |
| PathGen.ReachedFacts | unfinished/path.c:500 | facts of a finished flood used by add_path |
| PathGen.LayPath | unfinished/path.c:541-557 | returns the walk it took: dist[j0]+1 squares from the far end j0 to the start i, each a neighbour of the last and one closer to i; every square of the walk holds c afterwards and every other square keeps its value |
| PathGen.DescentExtend | unfinished/path.c:544-555 | a step to a neighbour one closer extends such a walk |
| PathGen.PaintedExtend | unfinished/path.c:556 | painting the new square extends "exactly the walk holds c" by that square |
| PathGen.LaidKeepsEnds | unfinished/path.c:538-557 | the laid path adds path c with both ends on it and keeps the other paths |
| PathGen.LayNewPath | unfinished/path.c:538-557 | the same, for the arrays |
| PathGen.GenCtx.constructor | unfinished/path.c:151-165 | a valid context with no paths and an all-empty grid over fresh arrays |
| PathGen.GenCtx.NewPath | unfinished/path.c:181-194 | the next path number; capacity grows by 16 only when full, keeping all recorded contents |
| PathGen.GenCtx.NewPathKeepsEnds | unfinished/path.c:181-194 | growing keeps every recorded path end |
| PathGen.GenCtx.IsEndpoint | unfinished/path.c:196-209 | an empty square is never an endpoint |
| PathGen.GenCtx.IsEndpointIffRecordedEnd | unfinished/path.c:196-209 | a square is an endpoint exactly when it is a recorded end of some path |
| PathGen.GenCtx.AdjacentToPath | unfinished/path.c:257-266 | true exactly when a square next to e, other than the path's own end, belongs to the path |
| PathGen.GenCtx.ExtendPath | unfinished/path.c:216-447 | the invariants hold; a refused extension changes nothing; a successful one moves the end one step in the direction onto a square of the path |
| PathGen.GenCtx.Push | unfinished/path.c:295-446 | on success the path's end is e and e belongs to it; on failure grid and ends are unchanged |
| PathGen.GenCtx.BeginPush | unfinished/path.c:295-312 | spares copied, e painted with the path, the cut path marked broken |
| PathGen.GenCtx.CopyGrid | unfinished/path.c:295-296 | both spare grids equal the grid |
| PathGen.GenCtx.Commit | unfinished/path.c:444-445 | the grid and ends become the spare ones and the invariants hold |
| PathGen.GenCtx.Repair | unfinished/path.c:314-440 | on success no path is left broken |
| PathGen.GenCtx.FindBroken | unfinished/path.c:315-319 | the first broken path, or npaths when none |
| PathGen.GenCtx.RestorePath | unfinished/path.c:320-438 | on success path i is fixed and the number of paths not yet fixed falls |
| PathGen.GenCtx.Unlay | unfinished/path.c:330-378 | on success first and last are squares of path i in the surround grid |
| PathGen.GenCtx.Relay | unfinished/path.c:386-438 | on success path i is re-laid and fixed |
| PathGen.GenCtx.Fix | unfinished/path.c:434-437 | the new ends are recorded and path i marked fixed |
| PathGen.GenCtx.WipeAndSurround | unfinished/path.c:335-373 | the old track is wiped from the working grid; the surround grid becomes SurroundAlong (each visited square no longer holding i has its neighbours offered to i, in list order); first and last are FirstSurvivor and LastSurvivor, and when not -1 they are listed squares holding i in the final surround grid |
| PathGen.GenCtx.WipeStep | unfinished/path.c:336-373 | one listed square of the wipe loop: the wipe, the surround grid and the recorded survivors advance by that square |
| PathGen.FirstSurvivorSpec | unfinished/path.c:350-354 | first is -1 exactly when no listed square still holds i when the walk reaches it; otherwise it is the earliest one that does |
| PathGen.LastSurvivorSpec | unfinished/path.c:350-354 | last is -1 exactly in the same case; otherwise it is the latest listed square that holds i when reached |
| PathGen.SurroundAlongKeeps | unfinished/path.c:368-372 | the surround never takes a square away from path i |
| PathGen.SurvivorsPainted | unfinished/path.c:350-378 | first and last are both -1 or both listed squares, and then both hold i in the final surround grid |
| PathGen.GenCtx.WipeSquare | unfinished/path.c:344-345 | the square is cleared only if it still holds path i |
| PathGen.GenCtx.Surround | unfinished/path.c:356-372 | the 3x3 block is painted except the centre, fixed paths and path i's own squares |
| PathGen.GenCtx.WalkBack | unfinished/path.c:405-430 | on success both ends of the new layout carry path i |
| PathGen.GenCtx.StepBack | unfinished/path.c:405-429 | one step of the walk: a move from jp0 to a neighbour in one of the four directions that is one closer, then the claim of it, which fails exactly on a fixed path |
| PathGen.GenCtx.Claim | unfinished/path.c:407-413 | fails on a fixed path; otherwise paints the square and marks the path it held broken |
| PathGen.GenCtx.ExtensionOrder | unfinished/path.c:621-635 | the extension list is a permutation of 0 .. 8*npaths-1, nothing else changes |
| PathGen.GenCtx.TryExtensions | unfinished/path.c:640-661 | tries the extensions in order; when none works grid and ends are unchanged |
| PathGen.GenCtx.LabelEndpoints | unfinished/path.c:695-728 | labels are a permutation of 1 .. npaths, both ends of a path carry its label, and only ends are nonzero |
| PathGen.GenCtx.LabelPath | unfinished/path.c:725-728 | writing one path's label on its ends |
| PathGen.GenCtx.ShuffledEmpties | unfinished/path.c:468-483 | a shuffled list of the empty squares |
| PathGen.GenCtx.AddPath | unfinished/path.c:452-563 | on success a new path with an empty start square and a far end at distance at least 3 is laid; on failure nothing changes |
| PathGen.GenCtx.TryStarts | unfinished/path.c:492-562 | trying the start squares in order, with the same outcome |
| PathGen.GenCtx.StartPath | unfinished/path.c:538-559 | the new path runs from i to j and is laid on empty squares |
| PathGen.GenCtx.OpenPath | unfinished/path.c:538-540 | a new path number with its two ends recorded |
| PathGen.GenCtx.Clear | unfinished/path.c:578-580 | the grid is all empty and there are no paths |
| PathGen.GenCtx.IsFull | unfinished/path.c:586-590 | true exactly when every square belongs to a path |
| PathGen.GenCtx.Grow | unfinished/path.c:582-667 | Full exactly when the grid was full; Full or Stuck changes nothing; Added adds one path; Extended keeps the path count |
| PathGen.GenCtx.MainLoop | unfinished/path.c:568-669 | when it reports full, every square belongs to a path |
| PathGen.GridGen | unfinished/path.c:676-736 | when full, each path's two ends carry the same label in 1 .. n, labels differ between paths, and only ends are nonzero |

## Left out

- Rendering, the user interface, `execute_move`, the configuration dialogs, presets, `grid_to_string`, the text format and the `TESTING` main are not part of this model.
- `printf` diagnostics in path.c (the grid dump in `gridgen` and the `GENERATION_DIAGNOSTICS` blocks) are output only and are left out.
- The C `assert`s are left out where the model does not need them. This includes path.c's `assert(ctx->dist[jp] == j)` inside the wipe loop (line 337): it needs the global fact that every path is an induced shortest path, which is not proved.
- Memory allocation and freeing (`snewn`, `sresize`, `sfree`, `close_solver_state`, `free_genctx`) are left out; arrays are Dafny arrays and sequences.
- Uninitialised memory (the decoder's unwritten squares, `new_genctx`'s NULL buffers) is modelled as default values.
- Byte-sized types (`number_t`, `coord_t`) are modelled as integers. Inside the solver and the generator they are bounded by NUMBER_MAX and COORD_MAX through the preconditions, so no wrap-around occurs there; the solver and the game status also require every clue to be at most the area (see Search.Solver and GameStatus.IsBadSquare below). The description decoder is the exception: it stores atoi's value into a `number_t`, and the model keeps that value modulo 256 (`DescCodec.AsNumber`, `DescCodec.LargeNumberWraps`).
- DescCodec.DecodeDescGrid: a number too large for an `int`, where atoi's behaviour is undefined, is read as its exact value and then reduced modulo 256.
- `random_upto` is modelled as `rng(draw) % n` over a caller-supplied stream; the random state is that stream and a draw counter.
- `shuffle` from the game framework is not part of this model. It is modelled by the same Fisher-Yates loop that path.c writes out (`Randomness.Shuffle`).
- `qsort` is modelled by an insertion sort with the same key. qsort leaves the order of equal keys unspecified, and the model proves only a sorted permutation.
- Search.Solver: requires every clue to be at most the area (`ValidGrid`). The source's validation does not check this (hamilton.c:1788-1806), and a larger clue makes `compute_number_to_location_map` write past its area + 1 entries (hamilton.c:444, 453-454), which is undefined behaviour the model does not follow. "## Findings" records the missing check and `DescCodec.CheckedDescError` is the corrected validation.
- GameStatus.IsBadSquare: requires the square's number to be at most the area. For a larger clue the source indexes `number_infos` (area + 1 entries) out of bounds, already when the game state is built (hamilton.c:1933, 1944-1945).
- Search.Solver: requires at least one clue, because `compute_gaps` asserts one (hamilton.c:559). The model's callers never pass an all-blank grid.
- Generator.BlankAndAsk: when a removal would leave no clue, the model restores it without calling the solver. The source calls the solver anyway (hamilton.c:1676-1678) and would stop on `compute_gaps`' assertion (hamilton.c:559). The model does not capture that failure.
- Search.Solver: uniqueness is promised only at the easy level or when counting without a step budget. With a positive `steps_limit`, a search that spends its budget returns TRUE (hamilton.c:1133-1134) with the first solution found, and `solver` then reports success (hamilton.c:1261-1266) although a second solution may exist. Finding every solution is likewise proved only without a budget.
- Propagation.SolverState.CheckBlockedNumbersNearby: uses the corrected threshold of `Rules.CheckBlockedNumber` (one usable neighbour for the ends 1 and area), not the as-written `available < 2` (hamilton.c:800). Every caller therefore runs the corrected check: PlaceNumberL1, PlaceNumberL2, DoStraightPath, DoNecessaryMoves, DoRecursiveSolve, Solver and GeneratePuzzle. With it the solver is proved never to prune a branch that leads to a solution (`Consistency.CheckBlockedNumberSound`, `Propagation.NotBlockedNearby`). The as-written check is kept in `Rules.CheckBlockedNumberAsWritten`, and "## Findings" shows an input on which it rejects a solvable grid.
- Search.Solver: the returned grid is proved a solution only when the clues themselves are consistent. The source does not check the clues' own adjacency: a full grid of clues is returned as it is.
- Search.DoRecursiveSolve: solution, multiple and steps are values passed in and returned rather than out-parameters. A NULL `multiple` becomes `track == false`.
- Generator.GeneratePuzzle: one attempt of the retry loop is modelled. A rejected ring or border attempt returns None where the source draws a new path; the source's `while (TRUE)` has no bound.
- PathGen.GenCtx.MainLoop: the source loops until the grid is full, with no bound. The model takes a `fuel` bound, and progress or termination of generation is not proved.
- PathGen.GridGen: the fuel bound is inherited from MainLoop; a run that exhausts it reports not full.
- PathGen.GenCtx.ExtendPath: success is proved to move the end and keep the invariants, but not that the re-laid paths are simple paths. The source itself only maintains that informally.
- The pathspare and extension shuffles write into fresh sequences that are then stored in the context, rather than swapping in place in the context's buffers.
- unfinished/path.c's `main` and `fatal` are test scaffolding and are left out.

## Findings

| source | as written | input that shows it | evidently intended | confidence | as-written member | corrected member |
|---|---|---|---|---|---|---|
| hamilton.c:1377-1378 | after 'p' or 'd', `c = *string++` also steps over the terminating NUL, so `while (*string)` reads past the end | the parameter string "7p" | stop at the end of the string when the option letter is last | high, not executed | GameParams.DecodeReadsPastEnd | GameParams.DecodeOptions |
| hamilton.c:778-800 | every number needs two usable neighbours, including the path ends 1 and area | 3x3, no diagonals, 9 in a corner with 8 beside it and 4 below it, which extends to a solution | the ends need one usable neighbour, as the comment at lines 753-756 says | high, not executed | BlockedEnds.CheckBlockedNumberAsWrittenRejectsSolvable | Consistency.CheckBlockedNumberSound |
| hamilton.c:1611-1621 | the ring pattern blanks every square when a side is 2, yet `game_validate_params` accepts 2x2 | parameters 2x2 with the ring pattern | require sides of at least 3 for the ring, so the masked grid keeps a clue | high, not executed | Generator.NarrowRingBlanksAll | Generator.MaskedHasClue |
| hamilton.c:1788-1806 | game_validate_desc checks only the characters and the number of squares, so a clue above the area passes; the game state (hamilton.c:1944-1945) and the solver's number map (hamilton.c:453-454) then index arrays of area + 1 entries by that clue | the description "300,0,0,0" on a 2x2 grid, which decodes to a clue of 44 | refuse a clue above the area | high, not executed | DescCodec.LargeClueAccepted | DescCodec.CheckedDescIsValidGrid |
| unfinished/path.c:424 | the row bound is tested against w (`jy < w`) instead of h; line 547 repeats it | a grid 2 wide and 3 high whose path runs down one column | `jy < h` | high, not executed | PathGen.WalkBackBoundAsWritten | PathGen.ParentDir |
