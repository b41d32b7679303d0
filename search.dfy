/**
 * The trial-and-error search and the solver entry point.
 *
 * The recursive search runs the necessary moves, then tries every square
 * next to one end of the first gap, each on a copy of the state, so that a
 * branch never disturbs the state of its caller. Solutions are reported
 * through the solution / multiple / steps parameters, modelled here as
 * values passed in and returned. The proofs show that every reported
 * solution keeps all clues and fills the grid with every number once, and
 * that it is a real solution whenever the clues themselves are consistent.
 */
module Search {
  import opened Wrappers
  import opened Geometry
  import opened Gaps
  import opened Rules
  import opened Consistency
  import opened Propagation
  import opened GameParams

  /** The grid holds at least one number. */
  ghost predicate HasClue(grid: seq<int>)
  {
    exists k :: 0 <= k < |grid| && grid[k] != 0
  }

  lemma ExtendsKeepsClue(a: seq<int>, b: seq<int>)
    requires Extends(a, b) && HasClue(a)
    ensures HasClue(b)
  {
    var k :| 0 <= k < |a| && a[k] != 0;
    assert b[k] != 0;
  }

  // ---------------------------------------------------------------------
  // Sorting the gaps before the search
  // ---------------------------------------------------------------------

  /** The sort key of a gap: the distance between its two end squares, the
   *  open end counting as the square (NoCoord, NoCoord). */
  function GapKey(gap: Gap, diagonal: bool): nat
  {
    Distance(gap.l1, gap.l2, diagonal)
  }

  /** gap_compare and gap_compare_diag: negative, zero or positive as a's key
   *  is below, equal to or above b's. */
  function GapCompare(a: Gap, b: Gap, diagonal: bool): (r: int)
    ensures r < 0 <==> GapKey(a, diagonal) < GapKey(b, diagonal)
    ensures r == 0 <==> GapKey(a, diagonal) == GapKey(b, diagonal)
  {
    GapKey(a, diagonal) - GapKey(b, diagonal)
  }

  /** A gap open at one end and anchored at the other. */
  predicate HalfOpen(gap: Gap, w: int, h: int)
  {
    (gap.l1 == NoLocation && InGrid(gap.l2, w, h)) || (gap.l2 == NoLocation && InGrid(gap.l1, w, h))
  }

  /** Because the open end sits at (NoCoord, NoCoord), far outside any grid of
   *  at most NumberMax squares, every half-open gap sorts after every gap
   *  anchored at both ends. */
  lemma OpenGapsSortLast(a: Gap, b: Gap, w: int, h: int, diagonal: bool)
    requires 1 <= w && 1 <= h && w * h <= NumberMax
    requires HalfOpen(a, w, h) && InGrid(b.l1, w, h) && InGrid(b.l2, w, h)
    ensures GapCompare(b, a, diagonal) < 0
  {
    SidesBounded(w, h);
    var inside := if a.l1 == NoLocation then a.l2 else a.l1;
    assert Distance(a.l1, a.l2, diagonal) == Distance(inside, NoLocation, diagonal) by {
      DistanceSymmetric(a.l1, a.l2, diagonal);
    }
    assert Abs(NoCoord - inside.x) >= NoCoord - NumberMax;
    assert Abs(NoCoord - inside.y) >= NoCoord - NumberMax;
    assert Abs(b.l2.x - b.l1.x) < NumberMax && Abs(b.l2.y - b.l1.y) < NumberMax;
  }

  /** Neither side of a grid of at most NumberMax squares exceeds NumberMax. */
  lemma SidesBounded(w: int, h: int)
    requires 1 <= w && 1 <= h && w * h <= NumberMax
    ensures w <= NumberMax && h <= NumberMax
  {
    assert w * h - w == w * (h - 1) >= 0;
    assert w * h - h == (w - 1) * h >= 0;
  }

  /** The first n gaps are in non-decreasing order of their keys. */
  ghost predicate SortedPrefix(gaps: seq<Gap>, n: int, diagonal: bool)
  {
    forall a, b :: 0 <= a < b < n && b < |gaps| ==> GapKey(gaps[a], diagonal) <= GapKey(gaps[b], diagonal)
  }

  /** The gaps are in non-decreasing order of their keys. */
  ghost predicate SortedByKey(gaps: seq<Gap>, diagonal: bool)
  {
    SortedPrefix(gaps, |gaps|, diagonal)
  }

  /** Exchanging two neighbouring gaps keeps them the gaps of the grid. */
  lemma SwapKeepsGapSet(gaps: seq<Gap>, i: int, grid: seq<int>, w: int, h: int)
    requires 0 <= i < |gaps| - 1 && IsGapSet(gaps, grid, w, h)
    ensures IsGapSet(gaps[i := gaps[i + 1]][i + 1 := gaps[i]], grid, w, h)
  {
    var r := gaps[i := gaps[i + 1]][i + 1 := gaps[i]];
    forall m | 1 <= m <= |grid| && m !in grid
      ensures exists j :: 0 <= j < |r| && r[j].n1 < m < r[j].n2
    {
      var j :| 0 <= j < |gaps| && gaps[j].n1 < m < gaps[j].n2;
      var j' := if j == i then i + 1 else if j == i + 1 then i else j;
      assert r[j'] == gaps[j];
    }
    forall a, b | 0 <= a < |r| && 0 <= b < |r| && a != b
      ensures r[a].n2 <= r[b].n1 || r[b].n2 <= r[a].n1
    {
      var a' := if a == i then i + 1 else if a == i + 1 then i else a;
      var b' := if b == i then i + 1 else if b == i + 1 then i else b;
      assert r[a] == gaps[a'] && r[b] == gaps[b'];
    }
  }

  /** The standard library sort the source calls, as an insertion sort by key:
   *  the result is a reordering of the gaps, sorted by key, and still the gap
   *  set of the grid. */
  method SortGaps(gaps: seq<Gap>, diagonal: bool, ghost grid: seq<int>, ghost w: int, ghost h: int)
    returns (r: seq<Gap>)
    requires IsGapSet(gaps, grid, w, h)
    ensures multiset(r) == multiset(gaps) && SortedByKey(r, diagonal)
    ensures IsGapSet(r, grid, w, h)
  {
    r := gaps;
    var i := 0;
    while i < |r|
      invariant 0 <= i <= |r| == |gaps|
      invariant multiset(r) == multiset(gaps) && IsGapSet(r, grid, w, h)
      invariant SortedPrefix(r, i, diagonal)
    {
      r := SinkInto(r, i, diagonal, grid, w, h);
      i := i + 1;
    }
  }

  /** One insertion step: move gap i down past every earlier gap with a larger
   *  key, so that the first i + 1 gaps are sorted. */
  method SinkInto(gaps: seq<Gap>, i: int, diagonal: bool, ghost grid: seq<int>, ghost w: int, ghost h: int)
    returns (r: seq<Gap>)
    requires 0 <= i < |gaps| && SortedPrefix(gaps, i, diagonal) && IsGapSet(gaps, grid, w, h)
    ensures |r| == |gaps| && multiset(r) == multiset(gaps) && IsGapSet(r, grid, w, h)
    ensures SortedPrefix(r, i + 1, diagonal)
  {
    r := gaps;
    var j := i;
    while j > 0 && GapKey(r[j - 1], diagonal) > GapKey(r[j], diagonal)
      invariant 0 <= j <= i && |r| == |gaps|
      invariant multiset(r) == multiset(gaps) && IsGapSet(r, grid, w, h)
      invariant Sinking(r, i, j, diagonal)
    {
      r := SinkStep(r, i, j, diagonal, grid, w, h);
      j := j - 1;
    }
    SinkingDone(r, i, j, diagonal);
  }

  /** One turn of the insertion loop: gap j changes places with the larger gap before it. */
  method SinkStep(r0: seq<Gap>, i: int, j: int, diagonal: bool, ghost grid: seq<int>, ghost w: int, ghost h: int)
    returns (r: seq<Gap>)
    requires 0 < j <= i < |r0| && Sinking(r0, i, j, diagonal) && IsGapSet(r0, grid, w, h)
    requires GapKey(r0[j - 1], diagonal) > GapKey(r0[j], diagonal)
    ensures |r| == |r0| && multiset(r) == multiset(r0) && IsGapSet(r, grid, w, h)
    ensures Sinking(r, i, j - 1, diagonal)
  {
    SwapKeepsGapSet(r0, j - 1, grid, w, h);
    SinkingStep(r0, i, j, diagonal);
    r := r0[j - 1 := r0[j]][j := r0[j - 1]];
  }

  /** While gap i sinks to position j: the first i + 1 gaps without position j
   *  are sorted, the gap at j is no larger than any after it up to i, and its
   *  two neighbours are in order. */
  ghost predicate Sinking(r: seq<Gap>, i: int, j: int, diagonal: bool)
    requires 0 <= j <= i < |r|
  {
    (forall a, b :: 0 <= a < b <= i && a != j && b != j ==> GapKey(r[a], diagonal) <= GapKey(r[b], diagonal))
    && (forall b :: j < b <= i ==> GapKey(r[j], diagonal) <= GapKey(r[b], diagonal))
    && (0 < j < i ==> GapKey(r[j - 1], diagonal) <= GapKey(r[j + 1], diagonal))
  }

  lemma SinkingStep(r: seq<Gap>, i: int, j: int, diagonal: bool)
    requires 0 < j <= i < |r| && Sinking(r, i, j, diagonal)
    requires GapKey(r[j - 1], diagonal) > GapKey(r[j], diagonal)
    ensures Sinking(r[j - 1 := r[j]][j := r[j - 1]], i, j - 1, diagonal)
  {
  }

  lemma SinkingDone(r: seq<Gap>, i: int, j: int, diagonal: bool)
    requires 0 <= j <= i < |r| && Sinking(r, i, j, diagonal)
    requires j == 0 || GapKey(r[j - 1], diagonal) <= GapKey(r[j], diagonal)
    ensures SortedPrefix(r, i + 1, diagonal)
  {
  }

  // ---------------------------------------------------------------------
  // What the search reports
  // ---------------------------------------------------------------------

  /** s is a completed grid for the clues: every number 1 .. area once, every
   *  clue on its square, and a solution whenever the clues are consistent. */
  ghost predicate SolutionFor(clues: seq<int>, s: seq<int>, w: int, h: int, diagonal: bool)
  {
    StateOk(s, [], w, h) && Extends(clues, s) && (Consistent(clues, w, h, diagonal) ==> Solved(s, w, h, diagonal))
  }

  /** The clues have a completed grid other than s. */
  ghost predicate AnotherSolution(clues: seq<int>, s: seq<int>, w: int, h: int, diagonal: bool)
  {
    exists s2 :: SolutionFor(clues, s2, w, h, diagonal) && s2 != s
  }

  /** How the solution / multiple / steps values may change in one call: a
   *  solution once recorded stays, a newly recorded one completes the clues,
   *  multiple is only ever raised while counting solutions, with a solution
   *  at hand and a second, different one found, and steps only grows. */
  ghost predicate SearchProgress(clues: seq<int>, w: int, h: int, diagonal: bool, track: bool,
                                 solution: Option<seq<int>>, multiple: bool, steps: int,
                                 solution': Option<seq<int>>, multiple': bool, steps': int)
  {
    (solution.Some? ==> solution' == solution)
    && (solution.None? && solution'.Some? ==> SolutionFor(clues, solution'.value, w, h, diagonal))
    && (multiple ==> multiple')
    && (multiple' && !multiple ==> track && solution'.Some? && AnotherSolution(clues, solution'.value, w, h, diagonal))
    && steps <= steps'
  }

  /** Why a call may say it finished: a second solution, a solution when not
   *  counting, or the step budget spent; a call that did not finish holds a
   *  solution only while counting, and has not seen a second one. */
  predicate SearchEnd(track: bool, stepsLimit: int, finished: bool,
                      solution': Option<seq<int>>, multiple': bool, steps': int)
  {
    (finished ==> multiple' || (!track && solution'.Some?) || (stepsLimit > 0 && steps' > stepsLimit))
    && (!finished && solution'.Some? ==> track)
    && (multiple' ==> finished)
  }

  /** A call that tried everything met every solution of its grid, and met
   *  it as the first solution it recorded. */
  ghost predicate FoundAll(clues: seq<int>, w: int, h: int, diagonal: bool,
                           solution: Option<seq<int>>, solution': Option<seq<int>>)
  {
    forall s :: Completes(clues, s, w, h, diagonal) ==> solution.None? && solution' == Some(s)
  }

  /** Every solution of the clues with v on one of the squares is the solution
   *  the call recorded first. */
  ghost predicate FoundAmong(clues: seq<int>, w: int, h: int, diagonal: bool, squares: seq<Location>, v: int,
                             solution: Option<seq<int>>, solution': Option<seq<int>>)
    requires forall c :: c in squares ==> InGrid(c, w, h)
  {
    forall s :: Completes(clues, s, w, h, diagonal) && Tried(s, w, h, squares, v) ==> solution.None? && solution' == Some(s)
  }

  /** Some square of the list holds v in s. */
  ghost predicate Tried(s: seq<int>, w: int, h: int, squares: seq<Location>, v: int)
    requires |s| == w * h && forall c :: c in squares ==> InGrid(c, w, h)
  {
    exists c :: c in squares && At(s, w, h, c) == v
  }

  /** One more square searched: the solutions with v there were met by the last call. */
  lemma FoundAmongStep(clues: seq<int>, w: int, h: int, diagonal: bool, squares: seq<Location>, c: Location, v: int,
                       solution: Option<seq<int>>, s1: Option<seq<int>>, s2: Option<seq<int>>)
    requires InGrid(c, w, h) && forall d :: d in squares ==> InGrid(d, w, h)
    requires FoundAmong(clues, w, h, diagonal, squares, v, solution, s1)
    requires FoundAmong(clues, w, h, diagonal, [c], v, s1, s2)
    requires (solution.Some? ==> s1 == solution) && (s1.Some? ==> s2 == s1)
    ensures FoundAmong(clues, w, h, diagonal, squares + [c], v, solution, s2)
  {
    forall x | Completes(clues, x, w, h, diagonal) && Tried(x, w, h, squares + [c], v)
      ensures solution.None? && s2 == Some(x)
    {
      var d :| d in squares + [c] && At(x, w, h, d) == v;
      if d in squares {
        assert Tried(x, w, h, squares, v);
      } else {
        assert Tried(x, w, h, [c], v);
      }
    }
  }

  /** A completed grid for a more filled-in grid is one for the original when
   *  the filling kept the numbers and consistency. */
  lemma SolutionForWeaken(a: seq<int>, b: seq<int>, s: seq<int>, w: int, h: int, diagonal: bool)
    requires Extends(a, b) && (Consistent(a, w, h, diagonal) ==> Consistent(b, w, h, diagonal))
    requires SolutionFor(b, s, w, h, diagonal)
    ensures SolutionFor(a, s, w, h, diagonal)
  {
    ExtendsTransitive(a, b, s);
  }

  /** What a call on a more filled-in grid reports holds for the original grid. */
  lemma ProgressFromExtension(a: seq<int>, b: seq<int>, w: int, h: int, diagonal: bool, track: bool,
                              solution: Option<seq<int>>, multiple: bool, steps: int,
                              solution': Option<seq<int>>, multiple': bool, steps': int)
    requires Extends(a, b) && (Consistent(a, w, h, diagonal) ==> Consistent(b, w, h, diagonal))
    requires SearchProgress(b, w, h, diagonal, track, solution, multiple, steps, solution', multiple', steps')
    ensures SearchProgress(a, w, h, diagonal, track, solution, multiple, steps, solution', multiple', steps')
  {
    if solution.None? && solution'.Some? {
      SolutionForWeaken(a, b, solution'.value, w, h, diagonal);
    }
    if multiple' && !multiple {
      var s2 :| SolutionFor(b, s2, w, h, diagonal) && s2 != solution'.value;
      SolutionForWeaken(a, b, s2, w, h, diagonal);
    }
  }

  /** Two calls in a row progress like one. */
  lemma ProgressTransitive(clues: seq<int>, w: int, h: int, diagonal: bool, track: bool,
                           s0: Option<seq<int>>, m0: bool, t0: int,
                           s1: Option<seq<int>>, m1: bool, t1: int,
                           s2: Option<seq<int>>, m2: bool, t2: int)
    requires SearchProgress(clues, w, h, diagonal, track, s0, m0, t0, s1, m1, t1)
    requires SearchProgress(clues, w, h, diagonal, track, s1, m1, t1, s2, m2, t2)
    ensures SearchProgress(clues, w, h, diagonal, track, s0, m0, t0, s2, m2, t2)
  {
  }

  // ---------------------------------------------------------------------
  // The recursive search
  // ---------------------------------------------------------------------

  /** The number do_recursive_solve_step_l1 (n1 + 1) or do_recursive_solve_step_l2 (n2 - 1) writes. */
  function Placed(gap: Gap, fromL1: bool): int
  {
    if fromL1 then gap.n1 + 1 else gap.n2 - 1
  }

  /** s is not a completion of grid with v on c. */
  ghost predicate Excluded(grid: seq<int>, w: int, h: int, c: Location, v: int, s: seq<int>)
    requires |grid| == w * h && InGrid(c, w, h)
  {
    !Extends(grid, s) || At(s, w, h, c) != v
  }

  /** Every solution of the grid puts the number to place on a square next to the chosen end. */
  lemma SolutionBranches(grid: seq<int>, gaps: seq<Gap>, w: int, h: int, diagonal: bool, fromL1: bool,
                         l: Location, around: seq<Location>, s: seq<int>)
    requires StateOk(grid, gaps, w, h) && 0 < |gaps| && InGrid(l, w, h)
    requires l == if fromL1 then gaps[0].l1 else gaps[0].l2
    requires forall c :: c in around <==> InGrid(c, w, h) && Adjacent(l, c, diagonal)
    requires Completes(grid, s, w, h, diagonal)
    ensures Tried(s, w, h, around, Placed(gaps[0], fromL1))
  {
    assert GapOk(gaps[0], grid, w, h);
    if fromL1 {
      var d := SolutionLeavesL1(grid, s, w, h, diagonal, gaps[0]);
      assert d in around;
    } else {
      var d := SolutionReachesL2(grid, s, w, h, diagonal, gaps[0]);
      assert d in around;
    }
  }

  /** A taken square holds a number the gap does not miss, so no solution puts the gap's number there. */
  lemma TakenSquare(grid: seq<int>, gaps: seq<Gap>, w: int, h: int, diagonal: bool, fromL1: bool, c: Location, s: seq<int>)
    requires StateOk(grid, gaps, w, h) && 0 < |gaps| && InGrid(c, w, h) && At(grid, w, h, c) != 0
    requires Completes(grid, s, w, h, diagonal)
    ensures At(s, w, h, c) != Placed(gaps[0], fromL1)
  {
    assert GapOk(gaps[0], grid, w, h);
    IdxInRange(c, w, h);
    assert grid[Idx(c, w)] in grid;
  }

  /** No solution puts the gap's number on a taken square. */
  lemma TakenNotTried(grid: seq<int>, gaps: seq<Gap>, w: int, h: int, diagonal: bool, fromL1: bool, c: Location)
    requires StateOk(grid, gaps, w, h) && 0 < |gaps| && InGrid(c, w, h) && At(grid, w, h, c) != 0
    ensures forall s :: Completes(grid, s, w, h, diagonal) ==> !Tried(s, w, h, [c], Placed(gaps[0], fromL1))
  {
    forall s | Completes(grid, s, w, h, diagonal)
      ensures !Tried(s, w, h, [c], Placed(gaps[0], fromL1))
    {
      TakenSquare(grid, gaps, w, h, diagonal, fromL1, c, s);
    }
  }

  /** do_recursive_solve_step_l1 (fromL1) and do_recursive_solve_step_l2: on
   *  an empty square c next to an end of the first gap, extend that end onto
   *  c in a copy of the state and search on from there. The state itself is
   *  not modified. A solution already recorded is not one with that number
   *  on c, so the branch cannot meet it again. */
  method SolveStep(state: SolverState, fromL1: bool, c: Location,
                   solution: Option<seq<int>>, multiple: bool, steps: int, track: bool)
    returns (finished: bool, solution': Option<seq<int>>, multiple': bool, steps': int)
    requires state.Valid() && HasClue(state.grid[..]) && 0 < |state.gaps| && InGrid(c, state.w, state.h)
    requires fromL1 ==> state.gaps[0].l1 != NoLocation && Adjacent(state.gaps[0].l1, c, state.diagonal)
    requires !fromL1 ==> state.gaps[0].l2 != NoLocation && Adjacent(state.gaps[0].l2, c, state.diagonal)
    requires solution.Some? ==> track
    requires solution.Some? ==> Excluded(state.grid[..], state.w, state.h, c, Placed(state.gaps[0], fromL1), solution.value)
    requires !multiple
    decreases ZeroCount(state.grid[..]), 0
    ensures SearchProgress(old(state.grid[..]), state.w, state.h, state.diagonal, track,
                           solution, multiple, steps, solution', multiple', steps')
    ensures SearchEnd(track, state.stepsLimit, finished, solution', multiple', steps')
    ensures solution.None? && solution'.Some? ==>
              |solution'.value| == state.w * state.h
              && At(solution'.value, state.w, state.h, c) == Placed(state.gaps[0], fromL1)
    ensures !finished ==> FoundAmong(old(state.grid[..]), state.w, state.h, state.diagonal,
                                     [c], Placed(state.gaps[0], fromL1), solution, solution')
  {
    finished, solution', multiple', steps' := false, solution, multiple, steps;
    ghost var grid := state.grid[..];
    ghost var v := Placed(state.gaps[0], fromL1);
    IdxInRange(c, state.w, state.h);
    if state.grid[c.y * state.w + c.x] != 0 {
      TakenNotTried(grid, state.gaps, state.w, state.h, state.diagonal, fromL1, c);
      return;
    }
    var next := state.Copy();
    assert next.Valid();
    var ok;
    if fromL1 {
      ok := next.PlaceNumberL1(0, c);
    } else {
      ok := next.PlaceNumberL2(0, c);
    }
    PlacementKeeps(grid, state.gaps, state.w, state.h, state.diagonal, fromL1, c, ok, next.grid[..], next.gaps);
    if ok {
      ghost var placed := next.grid[..];
      if solution.Some? {
        ExtendsPut(grid, solution.value, state.w, state.h, c, v);
      }
      finished, solution', multiple', steps' := DoRecursiveSolve(next, solution, multiple, steps, track);
      BranchReport(grid, placed, state.w, state.h, state.diagonal, track, c, v, finished,
                   solution, multiple, steps, solution', multiple', steps');
    }
  }

  /**
   * What one branch's placement does to the grid: place_number_l1 or
   * place_number_l2 at square 0 of the gap list, whose outcome keeps every
   * solution that has the placed number on c.
   */
  lemma PlacementKeeps(grid: seq<int>, gaps: seq<Gap>, w: int, h: int, diagonal: bool, fromL1: bool,
                       c: Location, ok: bool, grid': seq<int>, gaps': seq<Gap>)
    requires StateOk(grid, gaps, w, h) && 0 < |gaps| && InGrid(c, w, h) && At(grid, w, h, c) == 0
    requires fromL1 ==> gaps[0].l1 != NoLocation && Adjacent(gaps[0].l1, c, diagonal)
    requires !fromL1 ==> gaps[0].l2 != NoLocation && Adjacent(gaps[0].l2, c, diagonal)
    requires fromL1 ==> PlaceL1Outcome(grid, gaps, w, h, diagonal, 0, c, ok, grid', gaps')
    requires !fromL1 ==> PlaceL2Outcome(grid, gaps, w, h, diagonal, 0, c, ok, grid', gaps')
    ensures Placed(gaps[0], fromL1) != 0
    ensures ok ==> grid' == Put(grid, w, h, c, Placed(gaps[0], fromL1))
    ensures ok && HasClue(grid) ==> HasClue(grid')
    ensures ok && Consistent(grid, w, h, diagonal) ==> Consistent(grid', w, h, diagonal)
    ensures forall s :: Completes(grid, s, w, h, diagonal) && At(s, w, h, c) == Placed(gaps[0], fromL1)
              ==> ok && Completes(grid', s, w, h, diagonal)
  {
    assert GapOk(gaps[0], grid, w, h);
    if fromL1 {
      PlacementKeepsL1(grid, gaps, w, h, diagonal, c, ok, grid', gaps');
    } else {
      PlacementKeepsL2(grid, gaps, w, h, diagonal, c, ok, grid', gaps');
    }
    if ok && HasClue(grid) {
      ExtendsKeepsClue(grid, grid');
    }
  }

  lemma PlacementKeepsL1(grid: seq<int>, gaps: seq<Gap>, w: int, h: int, diagonal: bool,
                         c: Location, ok: bool, grid': seq<int>, gaps': seq<Gap>)
    requires StateOk(grid, gaps, w, h) && 0 < |gaps| && InGrid(c, w, h) && At(grid, w, h, c) == 0
    requires gaps[0].l1 != NoLocation && Adjacent(gaps[0].l1, c, diagonal)
    requires PlaceL1Outcome(grid, gaps, w, h, diagonal, 0, c, ok, grid', gaps')
    ensures ok ==> grid' == Put(grid, w, h, c, gaps[0].n1 + 1)
    ensures Extends(grid, grid')
    ensures ok && Consistent(grid, w, h, diagonal) ==> Consistent(grid', w, h, diagonal)
    ensures forall s :: Completes(grid, s, w, h, diagonal) && At(s, w, h, c) == gaps[0].n1 + 1
              ==> ok && Completes(grid', s, w, h, diagonal)
  {
    PlaceL1Keeps(grid, gaps, w, h, diagonal, 0, c, ok, grid', gaps');
    forall s | Completes(grid, s, w, h, diagonal) && At(s, w, h, c) == gaps[0].n1 + 1
      ensures ok && Completes(grid', s, w, h, diagonal)
    {
      PlaceL1KeepsSolution(grid, gaps, w, h, diagonal, 0, c, ok, grid', gaps', s);
    }
  }

  lemma PlacementKeepsL2(grid: seq<int>, gaps: seq<Gap>, w: int, h: int, diagonal: bool,
                         c: Location, ok: bool, grid': seq<int>, gaps': seq<Gap>)
    requires StateOk(grid, gaps, w, h) && 0 < |gaps| && InGrid(c, w, h) && At(grid, w, h, c) == 0
    requires gaps[0].l2 != NoLocation && Adjacent(gaps[0].l2, c, diagonal)
    requires PlaceL2Outcome(grid, gaps, w, h, diagonal, 0, c, ok, grid', gaps')
    ensures ok ==> grid' == Put(grid, w, h, c, gaps[0].n2 - 1)
    ensures Extends(grid, grid')
    ensures ok && Consistent(grid, w, h, diagonal) ==> Consistent(grid', w, h, diagonal)
    ensures forall s :: Completes(grid, s, w, h, diagonal) && At(s, w, h, c) == gaps[0].n2 - 1
              ==> ok && Completes(grid', s, w, h, diagonal)
  {
    PlaceL2Keeps(grid, gaps, w, h, diagonal, 0, c, ok, grid', gaps');
    forall s | Completes(grid, s, w, h, diagonal) && At(s, w, h, c) == gaps[0].n2 - 1
      ensures ok && Completes(grid', s, w, h, diagonal)
    {
      PlaceL2KeepsSolution(grid, gaps, w, h, diagonal, 0, c, ok, grid', gaps', s);
    }
  }

  /**
   * What the search below a placement of v on c reports holds for the grid
   * before the placement: a solution recorded there has v on c, and when
   * that search tried everything it met every solution with v on c.
   */
  lemma BranchReport(grid: seq<int>, placed: seq<int>, w: int, h: int, diagonal: bool, track: bool,
                     c: Location, v: int, finished: bool,
                     solution: Option<seq<int>>, multiple: bool, steps: int,
                     solution': Option<seq<int>>, multiple': bool, steps': int)
    requires |grid| == w * h && InGrid(c, w, h) && At(grid, w, h, c) == 0 && v != 0
    requires placed == Put(grid, w, h, c, v)
    requires Consistent(grid, w, h, diagonal) ==> Consistent(placed, w, h, diagonal)
    requires forall s :: Completes(grid, s, w, h, diagonal) && At(s, w, h, c) == v ==> Completes(placed, s, w, h, diagonal)
    requires SearchProgress(placed, w, h, diagonal, track, solution, multiple, steps, solution', multiple', steps')
    requires !finished ==> FoundAll(placed, w, h, diagonal, solution, solution')
    ensures SearchProgress(grid, w, h, diagonal, track, solution, multiple, steps, solution', multiple', steps')
    ensures solution.None? && solution'.Some? ==> |solution'.value| == w * h && At(solution'.value, w, h, c) == v
    ensures !finished ==> FoundAmong(grid, w, h, diagonal, [c], v, solution, solution')
  {
    ExtendsPut(grid, grid, w, h, c, v);
    PutOnEmpty(grid, w, h, [], c, v);
    if solution.None? && solution'.Some? {
      ExtendsPut(grid, solution'.value, w, h, c, v);
    }
    ProgressFromExtension(grid, placed, w, h, diagonal, track, solution, multiple, steps, solution', multiple', steps');
    forall s | Completes(grid, s, w, h, diagonal) && Tried(s, w, h, [c], v)
      ensures Completes(placed, s, w, h, diagonal)
    {
      assert At(s, w, h, c) == v;
    }
  }

  /** The tries of do_recursive_solve around the chosen end l of the first
   *  gap: every square next to l that is on the grid, in the order west,
   *  north, east, south, then with diagonal moves north-west, south-west,
   *  north-east, south-east. The source spells the eight tries out one by
   *  one, each guarded by the bounds test that keeps the square on the grid;
   *  here they are one loop over the same squares in the same order. The
   *  first try that finishes the search ends it; a search that tries every
   *  square has met every solution of the grid. */
  method TryAround(state: SolverState, fromL1: bool, l: Location,
                   solution: Option<seq<int>>, multiple: bool, steps: int, track: bool)
    returns (finished: bool, solution': Option<seq<int>>, multiple': bool, steps': int)
    requires state.Valid() && HasClue(state.grid[..]) && 0 < |state.gaps| && InGrid(l, state.w, state.h)
    requires l == if fromL1 then state.gaps[0].l1 else state.gaps[0].l2
    requires solution.Some? ==> track && !Extends(state.grid[..], solution.value)
    requires !multiple
    decreases ZeroCount(state.grid[..]), 1
    ensures SearchProgress(old(state.grid[..]), state.w, state.h, state.diagonal, track,
                           solution, multiple, steps, solution', multiple', steps')
    ensures SearchEnd(track, state.stepsLimit, finished, solution', multiple', steps')
    ensures !finished ==> FoundAll(old(state.grid[..]), state.w, state.h, state.diagonal, solution, solution')
  {
    finished, solution', multiple', steps' := false, solution, multiple, steps;
    ghost var grid := state.grid[..];
    ghost var v := Placed(state.gaps[0], fromL1);
    var around := NeighboursInOrder(l, state.w, state.h, SearchOrder(state.diagonal));
    OrdersAreOffsetOrders(state.diagonal);
    NeighboursInOrderSpec(l, state.w, state.h, SearchOrder(state.diagonal), state.diagonal);
    ghost var from := 0;
    var i := 0;
    while i < |around|
      invariant 0 <= i <= |around|
      invariant state.Valid() && HasClue(state.grid[..]) && state.grid[..] == grid
      invariant SearchProgress(grid, state.w, state.h, state.diagonal, track,
                               solution, multiple, steps, solution', multiple', steps')
      invariant solution'.Some? ==> track
      invariant !multiple'
      invariant solution.None? && solution'.Some? ==>
                  |solution'.value| == state.w * state.h && 0 <= from < i
                  && At(solution'.value, state.w, state.h, around[from]) == v
      invariant FoundAmong(grid, state.w, state.h, state.diagonal, around[..i], v, solution, solution')
    {
      assert around[i] in around;
      if solution.None? && solution'.Some? {
        SameNumberSameSquare(solution'.value, state.w, state.h, around[from], around[i]);
      }
      var s, m, t;
      finished, s, m, t := SolveStep(state, fromL1, around[i], solution', multiple', steps', track);
      ProgressTransitive(grid, state.w, state.h, state.diagonal, track,
                         solution, multiple, steps, solution', multiple', steps', s, m, t);
      if solution'.None? && s.Some? {
        from := i;
      }
      if !finished {
        FoundAmongStep(grid, state.w, state.h, state.diagonal, around[..i], around[i], v, solution, solution', s);
        PrefixStep(around, i);
      }
      solution', multiple', steps' := s, m, t;
      if finished {
        return;
      }
      i := i + 1;
    }
    assert around[..i] == around;
    forall x | Completes(grid, x, state.w, state.h, state.diagonal)
      ensures solution.None? && solution' == Some(x)
    {
      SolutionBranches(grid, state.gaps, state.w, state.h, state.diagonal, fromL1, l, around, x);
    }
  }

  lemma PrefixStep<T>(q: seq<T>, i: int)
    requires 0 <= i < |q|
    ensures q[..i + 1] == q[..i] + [q[i]]
  {
  }

  /** A state with a number on the grid has no gap open at both ends. */
  lemma FirstGapAnchored(grid: seq<int>, gaps: seq<Gap>, w: int, h: int)
    requires StateOk(grid, gaps, w, h) && HasClue(grid) && 0 < |gaps|
    ensures gaps[0].l1 != NoLocation ==> InGrid(gaps[0].l1, w, h)
    ensures gaps[0].l1 == NoLocation ==> InGrid(gaps[0].l2, w, h)
  {
    assert GapOk(gaps[0], grid, w, h);
    if gaps[0].l1 == NoLocation {
      var k :| 0 <= k < |grid| && grid[k] != 0;
      assert 0 < grid[k] <= |grid| && grid[k] in grid;
      assert gaps[0].n2 <= grid[k];
    }
  }

  /** A grid propagation filled completely is the one solution of the clues. */
  lemma NoGapsSolution(clues: seq<int>, moved: seq<int>, w: int, h: int, diagonal: bool)
    requires StateOk(moved, [], w, h) && Extends(clues, moved)
    requires Consistent(clues, w, h, diagonal) ==> Consistent(moved, w, h, diagonal)
    requires forall s :: Completes(clues, s, w, h, diagonal) ==> Completes(moved, s, w, h, diagonal)
    ensures SolutionFor(clues, moved, w, h, diagonal)
    ensures forall s :: Completes(clues, s, w, h, diagonal) ==> s == moved
  {
    if Consistent(moved, w, h, diagonal) {
      SolvedWhenNoGaps(moved, w, h, diagonal);
    }
    FullGridDistinct(moved);
    forall s | Completes(clues, s, w, h, diagonal) ensures s == moved {
      FullExtendsEqual(moved, s);
    }
  }

  /** do_recursive_solve: propagate, count the step against the budget, record
   *  a solution when no gap is left (or note a second one), and otherwise try
   *  each square next to the first gap's lower end, or its upper end when
   *  the lower end is open. A solution already recorded does not complete
   *  this call's grid: the caller only asks about other branches. */
  method DoRecursiveSolve(state: SolverState, solution: Option<seq<int>>, multiple: bool, steps: int, track: bool)
    returns (finished: bool, solution': Option<seq<int>>, multiple': bool, steps': int)
    requires state.Valid() && HasClue(state.grid[..])
    requires solution.Some? ==> track && !Extends(state.grid[..], solution.value)
    requires !multiple
    modifies state, state.grid
    decreases ZeroCount(state.grid[..]), 2
    ensures SearchProgress(old(state.grid[..]), state.w, state.h, state.diagonal, track,
                           solution, multiple, steps, solution', multiple', steps')
    ensures SearchEnd(track, state.stepsLimit, finished, solution', multiple', steps')
    ensures !finished ==> FoundAll(old(state.grid[..]), state.w, state.h, state.diagonal, solution, solution')
  {
    ghost var clues := state.grid[..];
    finished, solution', multiple', steps' := false, solution, multiple, steps;
    var ok := state.DoNecessaryMoves();
    if !ok {
      return;
    }
    ghost var moved := state.grid[..];
    ZeroCountExtends(clues, moved);
    ExtendsKeepsClue(clues, moved);
    if state.stepsLimit > 0 {
      var over := steps' > state.stepsLimit;
      steps' := steps' + 1;
      if over {
        return true, solution', multiple', steps';
      }
    }
    if |state.gaps| == 0 {
      NoGapsSolution(clues, moved, state.w, state.h, state.diagonal);
      if solution.Some? {
        return true, solution', true, steps';
      }
      return !track, Some(state.grid[..]), multiple', steps';
    }
    FirstGapAnchored(moved, state.gaps, state.w, state.h);
    if solution.Some? {
      ExtendsThrough(clues, moved, solution.value);
    }
    var gap := state.gaps[0];
    var s, m, t;
    if gap.l1.x != NoCoord {
      finished, s, m, t := TryAround(state, true, gap.l1, solution', multiple', steps', track);
    } else {
      finished, s, m, t := TryAround(state, false, gap.l2, solution', multiple', steps', track);
    }
    ProgressFromExtension(clues, moved, state.w, state.h, state.diagonal, track, solution, multiple, steps', s, m, t);
    solution', multiple', steps' := s, m, t;
  }

  // ---------------------------------------------------------------------
  // The solver
  // ---------------------------------------------------------------------

  /** The L + 1 consecutive numbers m .. m + L are all missing from the grid. */
  ghost predicate MissingRun(grid: seq<int>, m: int, L: int)
  {
    forall i :: m <= i <= m + L ==> i !in grid
  }

  /** No run of more than L consecutive numbers of 1 .. area is missing from the grid. */
  ghost predicate RunsAtMost(grid: seq<int>, L: int)
  {
    forall m :: 1 <= m <= |grid| - L ==> !MissingRun(grid, m, L)
  }

  /** The longest gap bounds every run of missing numbers. */
  lemma GapListBoundsRuns(grid: seq<int>, gaps: seq<Gap>, w: int, h: int)
    requires IsGapList(gaps, grid, w, h)
    ensures RunsAtMost(grid, MaxGapLength(gaps))
  {
    MaxGapLengthIsMax(gaps);
    var L := MaxGapLength(gaps);
    forall m | 1 <= m <= |grid| - L
      ensures !MissingRun(grid, m, L)
    {
      if m in grid {
        assert m <= m + L;
      } else {
        var j :| 0 <= j < |gaps| && gaps[j].n1 < m < gaps[j].n2;
        var gap := gaps[j];
        assert GapOk(gap, grid, w, h) && GapLength(gap) <= L;
        assert gap.n2 <= m + L <= |grid|;
        assert grid[Idx(gap.l2, w)] == gap.n2;
        assert gap.n2 in grid;
      }
    }
  }

  /** A bound on runs carries over to any larger bound. */
  lemma RunsAtMostWiden(grid: seq<int>, L: int, L': int)
    requires RunsAtMost(grid, L) && L <= L'
    ensures RunsAtMost(grid, L')
  {
    forall m | 1 <= m <= |grid| - L'
      ensures !MissingRun(grid, m, L')
    {
      assert !MissingRun(grid, m, L);
    }
  }

  /** A gap longer than L is a run of more than L missing numbers. */
  lemma LongGapIsRun(grid: seq<int>, gaps: seq<Gap>, w: int, h: int, L: int)
    requires IsGapList(gaps, grid, w, h) && 0 <= L < MaxGapLength(gaps)
    ensures !RunsAtMost(grid, L)
  {
    MaxGapLengthIsMax(gaps);
    var j :| 0 <= j < |gaps| && GapLength(gaps[j]) == MaxGapLength(gaps);
    var gap := gaps[j];
    assert GapOk(gap, grid, w, h);
    assert MissingRun(grid, gap.n1 + 1, L);
  }

  /** At most one completed grid extends the clues. */
  ghost predicate UniqueCompletion(clues: seq<int>, w: int, h: int, diagonal: bool)
  {
    forall s1, s2 :: Completes(clues, s1, w, h, diagonal) && Completes(clues, s2, w, h, diagonal) ==> s1 == s2
  }

  /** The clues have two different completed grids. */
  ghost predicate TwoSolutions(clues: seq<int>, w: int, h: int, diagonal: bool)
  {
    exists s1, s2 :: SolutionFor(clues, s1, w, h, diagonal) && SolutionFor(clues, s2, w, h, diagonal) && s1 != s2
  }

  /** solver: give up when a gap is longer than maxGapLength (when positive);
   *  at the easy level only propagate; otherwise sort the gaps and search,
   *  counting solutions when uniqueOnly is set and failing on a second one.
   *  The ghost result multiple is the source's local flag of that name. */
  method Solver(grid: seq<int>, w: int, h: int, diagonal: bool, maxGapLength: int,
                maxDifficulty: int, stepsLimit: int, uniqueOnly: bool)
    returns (ok: bool, solution: Option<seq<int>>, ghost multiple: bool)
    requires ValidGrid(grid, w, h) && h <= CoordMax && |grid| <= NumberMax && HasClue(grid)
    ensures ok <==> solution.Some?
    ensures ok ==> SolutionFor(grid, solution.value, w, h, diagonal)
    ensures ok && maxGapLength > 0 ==> RunsAtMost(grid, maxGapLength)
    ensures multiple ==> !ok && uniqueOnly && maxDifficulty != DiffEasy && TwoSolutions(grid, w, h, diagonal)
    ensures ok && (maxDifficulty == DiffEasy || (uniqueOnly && stepsLimit <= 0)) ==>
              forall s :: Completes(grid, s, w, h, diagonal) ==> solution == Some(s)
    ensures maxDifficulty != DiffEasy && stepsLimit <= 0 && (maxGapLength <= 0 || RunsAtMost(grid, maxGapLength)) ==>
              forall s :: Completes(grid, s, w, h, diagonal) ==> ok || multiple
  {
    multiple := false;
    var state, longest := SolverState.Init(grid, w, h, diagonal, stepsLimit);
    if maxGapLength > 0 && longest > maxGapLength {
      LongGapIsRun(grid, state.gaps, w, h, maxGapLength);
      return false, None, false;
    }
    GapListBoundsRuns(grid, state.gaps, w, h);
    if maxGapLength > 0 {
      RunsAtMostWiden(grid, longest, maxGapLength);
    }
    if maxDifficulty == DiffEasy {
      var moved := state.DoNecessaryMoves();
      if moved && |state.gaps| == 0 {
        if Consistent(grid, w, h, diagonal) {
          SolvedWhenNoGaps(state.grid[..], w, h, diagonal);
        }
        FullGridDistinct(state.grid[..]);
        forall s | Completes(grid, s, w, h, diagonal) ensures s == state.grid[..] {
          FullExtendsEqual(state.grid[..], s);
        }
        return true, Some(state.grid[..]), false;
      }
    } else {
      var sorted := SortGaps(state.gaps, diagonal, grid, w, h);
      state.gaps := sorted;
      var finished, rsolution, rmultiple, steps := DoRecursiveSolve(state, None, false, 0, uniqueOnly);
      multiple := rmultiple;
      if rmultiple {
        ghost var s2 :| SolutionFor(grid, s2, w, h, diagonal) && s2 != rsolution.value;
        assert SolutionFor(grid, rsolution.value, w, h, diagonal);
        return false, None, true;
      } else if rsolution.Some? {
        return true, rsolution, false;
      }
    }
    return false, None, multiple;
  }
}
