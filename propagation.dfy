/**
 * The propagation half of the Hamilton solver (hamilton.c): a solver state
 * (solver_state_t) holding a grid array and a gap list, and the moves that
 * the solver can prove necessary -- the only empty square next to a gap end,
 * and the straight run between two anchors -- played until none is left.
 *
 * Each state-changing method is specified by an outcome predicate over the
 * grid and gaps before and after; the lemmas beside it prove what a
 * successful move keeps (the state invariant, consistency of the numbers,
 * every number placed so far) and that each move fills at least one square.
 */
module Propagation {
  import opened Wrappers
  import opened Geometry
  import opened Gaps
  import opened Rules
  import opened Consistency

  /** move_result_t. */
  datatype MoveResult = Unsolvable | Moved | DidntMove

  // ---------------------------------------------------------------------
  // check_blocked_numbers_nearby
  // ---------------------------------------------------------------------

  /** Every upper end of a gap that is not open stands on a number of the grid. */
  ghost predicate UpperAnchorsHeld(grid: seq<int>, w: int, h: int, gaps: seq<Gap>)
  {
    |grid| == w * h
    && forall j :: 0 <= j < |gaps| && gaps[j].l2.x != NoCoord ==>
         InGrid(gaps[j].l2, w, h) && At(grid, w, h, gaps[j].l2) > 0
  }

  /** The test check_blocked_numbers_nearby makes on one gap: its upper end is next to c and its number is blocked. */
  predicate BlockedBy(grid: seq<int>, w: int, h: int, diagonal: bool, gap: Gap, c: Location)
    requires |grid| == w * h
  {
    gap.l2.x != NoCoord && Distance(gap.l2, c, diagonal) == 1
    && InGrid(gap.l2, w, h) && At(grid, w, h, gap.l2) > 0
    && CheckBlockedNumber(grid, w, h, diagonal, gap.l2)
  }

  /** check_blocked_numbers_nearby: some gap's upper end next to c holds a blocked number. */
  ghost predicate NearbyBlocked(grid: seq<int>, w: int, h: int, diagonal: bool, gaps: seq<Gap>, c: Location)
    requires |grid| == w * h
  {
    exists j :: 0 <= j < |gaps| && BlockedBy(grid, w, h, diagonal, gaps[j], c)
  }

  lemma StateAnchorsHeld(grid: seq<int>, gaps: seq<Gap>, w: int, h: int)
    requires StateOk(grid, gaps, w, h)
    ensures UpperAnchorsHeld(grid, w, h, gaps)
  {
    forall j | 0 <= j < |gaps| && gaps[j].l2.x != NoCoord
      ensures InGrid(gaps[j].l2, w, h) && At(grid, w, h, gaps[j].l2) > 0
    {
      assert GapOk(gaps[j], grid, w, h);
    }
  }

  /** Writing on an empty square leaves every number where it was. */
  lemma PutOnEmpty(grid: seq<int>, w: int, h: int, gaps: seq<Gap>, c: Location, v: int)
    requires |grid| == w * h && InGrid(c, w, h) && At(grid, w, h, c) == 0
    ensures Extends(grid, Put(grid, w, h, c, v))
    ensures v != 0 ==> ZeroCount(Put(grid, w, h, c, v)) == ZeroCount(grid) - 1
    ensures UpperAnchorsHeld(grid, w, h, gaps) ==> UpperAnchorsHeld(Put(grid, w, h, c, v), w, h, gaps)
  {
    IdxInRange(c, w, h);
    if v != 0 {
      ZeroCountFill(grid, Idx(c, w), v);
    }
    if UpperAnchorsHeld(grid, w, h, gaps) {
      forall j | 0 <= j < |gaps| && gaps[j].l2.x != NoCoord
        ensures At(Put(grid, w, h, c, v), w, h, gaps[j].l2) > 0
      {
        PutAt(grid, w, h, c, v, gaps[j].l2);
      }
    }
  }

  lemma ExtendsTransitive(a: seq<int>, b: seq<int>, c: seq<int>)
    requires Extends(a, b) && Extends(b, c)
    ensures Extends(a, c)
  {
  }

  // ---------------------------------------------------------------------
  // place_number_l1 / place_number_l2
  // ---------------------------------------------------------------------

  /**
   * What place_number_l1 does when asked to put n1 + 1 on c: refuse without
   * writing when c is too far from the upper end; otherwise write, and
   * succeed unless that blocks a number nearby, in which case the gaps stay
   * as they were.  On success the gap is raised (or removed once complete).
   */
  ghost predicate PlaceL1Outcome(grid: seq<int>, gaps: seq<Gap>, w: int, h: int, diagonal: bool,
                                 g: int, c: Location, ok: bool, grid': seq<int>, gaps': seq<Gap>)
    requires |grid| == w * h && 0 <= g < |gaps| && InGrid(c, w, h)
  {
    var gap := gaps[g];
    if TooFar(c, gap.l2, gap, diagonal) then !ok && grid' == grid && gaps' == gaps
    else
      grid' == Put(grid, w, h, c, gap.n1 + 1)
      && ok == !NearbyBlocked(grid', w, h, diagonal, gaps, c)
      && gaps' == if ok then RaiseGaps(gaps, g, c) else gaps
  }

  /** place_number_l2, the mirror image: n2 - 1 on c, the lower end as the distance reference. */
  ghost predicate PlaceL2Outcome(grid: seq<int>, gaps: seq<Gap>, w: int, h: int, diagonal: bool,
                                 g: int, c: Location, ok: bool, grid': seq<int>, gaps': seq<Gap>)
    requires |grid| == w * h && 0 <= g < |gaps| && InGrid(c, w, h)
  {
    var gap := gaps[g];
    if TooFar(c, gap.l1, gap, diagonal) then !ok && grid' == grid && gaps' == gaps
    else
      grid' == Put(grid, w, h, c, gap.n2 - 1)
      && ok == !NearbyBlocked(grid', w, h, diagonal, gaps, c)
      && gaps' == if ok then LowerGaps(gaps, g, c) else gaps
  }

  /**
   * Whatever place_number_l1 answers, every number stays on its square; on
   * success it fills one square more and keeps the state invariant, and
   * keeps a consistent grid consistent when c is next to the lower end.
   */
  lemma PlaceL1Keeps(grid: seq<int>, gaps: seq<Gap>, w: int, h: int, diagonal: bool,
                     g: int, c: Location, ok: bool, grid': seq<int>, gaps': seq<Gap>)
    requires StateOk(grid, gaps, w, h) && 0 <= g < |gaps| && InGrid(c, w, h) && At(grid, w, h, c) == 0
    requires PlaceL1Outcome(grid, gaps, w, h, diagonal, g, c, ok, grid', gaps')
    ensures Extends(grid, grid') && UpperAnchorsHeld(grid', w, h, gaps)
    ensures !ok ==> gaps' == gaps
    ensures ok ==> StateOk(grid', gaps', w, h) && ZeroCount(grid') < ZeroCount(grid)
    ensures ok && Consistent(grid, w, h, diagonal) && gaps[g].l1 != NoLocation && Adjacent(gaps[g].l1, c, diagonal)
            ==> Consistent(grid', w, h, diagonal)
  {
    StateAnchorsHeld(grid, gaps, w, h);
    assert GapOk(gaps[g], grid, w, h);
    PutOnEmpty(grid, w, h, gaps, c, gaps[g].n1 + 1);
    if ok {
      RaisePreservesStateOk(grid, gaps, w, h, g, c);
      if Consistent(grid, w, h, diagonal) && gaps[g].l1 != NoLocation && Adjacent(gaps[g].l1, c, diagonal) {
        RaiseKeepsConsistent(grid, gaps, w, h, diagonal, g, c);
      }
    }
  }

  /** The mirror image of PlaceL1Keeps for place_number_l2. */
  lemma PlaceL2Keeps(grid: seq<int>, gaps: seq<Gap>, w: int, h: int, diagonal: bool,
                     g: int, c: Location, ok: bool, grid': seq<int>, gaps': seq<Gap>)
    requires StateOk(grid, gaps, w, h) && 0 <= g < |gaps| && InGrid(c, w, h) && At(grid, w, h, c) == 0
    requires PlaceL2Outcome(grid, gaps, w, h, diagonal, g, c, ok, grid', gaps')
    ensures Extends(grid, grid') && UpperAnchorsHeld(grid', w, h, gaps)
    ensures !ok ==> gaps' == gaps
    ensures ok ==> StateOk(grid', gaps', w, h) && ZeroCount(grid') < ZeroCount(grid)
    ensures ok && Consistent(grid, w, h, diagonal) && gaps[g].l2 != NoLocation && Adjacent(gaps[g].l2, c, diagonal)
            ==> Consistent(grid', w, h, diagonal)
  {
    StateAnchorsHeld(grid, gaps, w, h);
    assert GapOk(gaps[g], grid, w, h);
    PutOnEmpty(grid, w, h, gaps, c, gaps[g].n2 - 1);
    if ok {
      LowerPreservesStateOk(grid, gaps, w, h, g, c);
      if Consistent(grid, w, h, diagonal) && gaps[g].l2 != NoLocation && Adjacent(gaps[g].l2, c, diagonal) {
        LowerKeepsConsistent(grid, gaps, w, h, diagonal, g, c);
      }
    }
  }

  // ---------------------------------------------------------------------
  // do_only_move
  // ---------------------------------------------------------------------

  /** find_only_move at a gap end, which do_only_move only asks for ends that are not open. */
  function OnlyMoveFrom(grid: seq<int>, w: int, h: int, diagonal: bool, l: Location): (r: Option<Location>)
    requires |grid| == w * h
    ensures r.Some? ==> InGrid(r.value, w, h)
  {
    if l.x != NoCoord then FindOnlyMove(grid, w, h, diagonal, l) else None
  }

  /**
   * do_only_move: if the lower end has a single empty square next to it,
   * place n1 + 1 there; otherwise, if the upper end has one, place n2 - 1
   * there; otherwise nothing happens.
   */
  ghost predicate OnlyMoveOutcome(grid: seq<int>, gaps: seq<Gap>, w: int, h: int, diagonal: bool,
                                  g: int, r: MoveResult, grid': seq<int>, gaps': seq<Gap>)
    requires |grid| == w * h && 0 <= g < |gaps|
  {
    var m1 := OnlyMoveFrom(grid, w, h, diagonal, gaps[g].l1);
    var m2 := OnlyMoveFrom(grid, w, h, diagonal, gaps[g].l2);
    if m1.Some? then r != DidntMove && PlaceL1Outcome(grid, gaps, w, h, diagonal, g, m1.value, r == Moved, grid', gaps')
    else if m2.Some? then r != DidntMove && PlaceL2Outcome(grid, gaps, w, h, diagonal, g, m2.value, r == Moved, grid', gaps')
    else r == DidntMove && grid' == grid && gaps' == gaps
  }

  /**
   * Whatever do_only_move answers, every number stays on its square; a move
   * fills one square more and keeps the state invariant and consistency.
   */
  lemma OnlyMoveKeeps(grid: seq<int>, gaps: seq<Gap>, w: int, h: int, diagonal: bool,
                      g: int, r: MoveResult, grid': seq<int>, gaps': seq<Gap>)
    requires StateOk(grid, gaps, w, h) && 0 <= g < |gaps|
    requires OnlyMoveOutcome(grid, gaps, w, h, diagonal, g, r, grid', gaps')
    ensures Extends(grid, grid')
    ensures r != Moved ==> gaps' == gaps
    ensures r == Moved ==> StateOk(grid', gaps', w, h) && ZeroCount(grid') < ZeroCount(grid)
    ensures r == Moved && Consistent(grid, w, h, diagonal) ==> Consistent(grid', w, h, diagonal)
  {
    var gap := gaps[g];
    var m1 := OnlyMoveFrom(grid, w, h, diagonal, gap.l1);
    var m2 := OnlyMoveFrom(grid, w, h, diagonal, gap.l2);
    if m1.Some? {
      FindOnlyMoveSound(grid, w, h, diagonal, gap.l1);
      PlaceL1Keeps(grid, gaps, w, h, diagonal, g, m1.value, r == Moved, grid', gaps');
    } else if m2.Some? {
      FindOnlyMoveSound(grid, w, h, diagonal, gap.l2);
      PlaceL2Keeps(grid, gaps, w, h, diagonal, g, m2.value, r == Moved, grid', gaps');
    }
  }

  // ---------------------------------------------------------------------
  // do_straight_path
  // ---------------------------------------------------------------------

  /** The first k squares of the straight walk from l1 are on the grid. */
  ghost predicate LineInGrid(gap: Gap, diagonal: bool, w: int, h: int, k: int)
  {
    forall j :: 1 <= j <= k ==> InGrid(LineSquare(gap, diagonal, j), w, h)
  }

  /** The grid after do_straight_path has written n1 + 1 .. n1 + k on the first k squares of the walk. */
  function StraightFill(grid: seq<int>, w: int, h: int, gap: Gap, diagonal: bool, k: int): (r: seq<int>)
    requires |grid| == w * h && LineInGrid(gap, diagonal, w, h, k)
    ensures |r| == |grid|
  {
    if k <= 0 then grid
    else Put(StraightFill(grid, w, h, gap, diagonal, k - 1), w, h, LineSquare(gap, diagonal, k), gap.n1 + k)
  }

  /** Square k of the walk is still empty when do_straight_path reaches it. */
  ghost predicate StepEmpty(grid: seq<int>, w: int, h: int, diagonal: bool, gap: Gap, k: int)
    requires |grid| == w * h && 1 <= k && LineInGrid(gap, diagonal, w, h, k)
  {
    At(StraightFill(grid, w, h, gap, diagonal, k - 1), w, h, LineSquare(gap, diagonal, k)) == 0
  }

  /** Step k of do_straight_path goes through: its square is empty, and filling it blocks no number nearby. */
  ghost predicate StepClear(grid: seq<int>, gaps: seq<Gap>, w: int, h: int, diagonal: bool, gap: Gap, k: int)
    requires |grid| == w * h && 1 <= k && LineInGrid(gap, diagonal, w, h, k)
  {
    StepEmpty(grid, w, h, diagonal, gap, k)
    && !NearbyBlocked(StraightFill(grid, w, h, gap, diagonal, k), w, h, diagonal, gaps, LineSquare(gap, diagonal, k))
  }

  /** The walk of a gap that passes do_straight_path's test stays on the grid. */
  lemma StraightWalk(grid: seq<int>, gaps: seq<Gap>, w: int, h: int, diagonal: bool, g: int)
    requires StateOk(grid, gaps, w, h) && 0 <= g < |gaps| && StraightApplies(gaps[g], diagonal)
    ensures gaps[g].l1 != NoLocation && gaps[g].l2 != NoLocation
    ensures LineInGrid(gaps[g], diagonal, w, h, gaps[g].n2 - gaps[g].n1)
  {
    var gap := gaps[g];
    assert GapOk(gap, grid, w, h);
    StraightOnlyAnchored(gap, diagonal, w, h);
    StraightLine(gap, diagonal, w, h);
  }

  /**
   * do_straight_path: nothing happens unless the test passes; then the
   * numbers n1 + 1 .. n2 - 1 are written one by one along the walk, stopping
   * with Unsolvable at the first step whose square is taken (before writing)
   * or whose number blocks a number nearby (after writing); if every step
   * goes through, the gap is removed.
   */
  ghost predicate StraightOutcome(grid: seq<int>, gaps: seq<Gap>, w: int, h: int, diagonal: bool,
                                  g: int, r: MoveResult, grid': seq<int>, gaps': seq<Gap>)
    requires StateOk(grid, gaps, w, h) && 0 <= g < |gaps|
  {
    var gap := gaps[g];
    var len := gap.n2 - gap.n1 - 1;
    if !StraightApplies(gap, diagonal) then r == DidntMove && grid' == grid && gaps' == gaps
    else
      StraightWalk(grid, gaps, w, h, diagonal, g);
      (r == Moved
       && (forall k :: 1 <= k <= len ==> StepClear(grid, gaps, w, h, diagonal, gap, k))
       && grid' == StraightFill(grid, w, h, gap, diagonal, len) && gaps' == RemoveAt(gaps, g))
      || (r == Unsolvable && gaps' == gaps
          && exists k :: 1 <= k <= len && StraightStopsAt(grid, gaps, w, h, diagonal, gap, k, grid'))
  }

  /** do_straight_path stops at step k, leaving grid'. */
  ghost predicate StraightStopsAt(grid: seq<int>, gaps: seq<Gap>, w: int, h: int, diagonal: bool, gap: Gap, k: int, grid': seq<int>)
    requires |grid| == w * h && 1 <= k && LineInGrid(gap, diagonal, w, h, k)
  {
    (forall j :: 1 <= j < k ==> StepClear(grid, gaps, w, h, diagonal, gap, j))
    && !StepClear(grid, gaps, w, h, diagonal, gap, k)
    && grid' == if !StepEmpty(grid, w, h, diagonal, gap, k)
                then StraightFill(grid, w, h, gap, diagonal, k - 1)
                else StraightFill(grid, w, h, gap, diagonal, k)
  }

  /** The gap list while do_straight_path is at step k: the gap's lower end has moved k squares along the walk. */
  function StraightGaps(gaps: seq<Gap>, g: int, diagonal: bool, k: int): (r: seq<Gap>)
    requires 0 <= g < |gaps|
    ensures |r| == |gaps| && r[g].n1 == gaps[g].n1 + k && r[g].n2 == gaps[g].n2
  {
    var gap := gaps[g];
    gaps[g := Gap(gap.n1 + k, LineSquare(gap, diagonal, k), gap.n2, gap.l2)]
  }

  /** Taking entry g out of a list does not depend on what entry g was. */
  lemma RemoveAtUpdate(gaps: seq<Gap>, g: int, x: Gap)
    requires 0 <= g < |gaps|
    ensures RemoveAt(gaps[g := x], g) == RemoveAt(gaps, g)
  {
    var a := RemoveAt(gaps[g := x], g);
    var b := RemoveAt(gaps, g);
    assert forall j :: 0 <= j < |a| ==> a[j] == b[j];
  }

  /** Step k of the walk writes n1 + k on square k of the walk. */
  lemma StraightFillStep(grid: seq<int>, w: int, h: int, gap: Gap, diagonal: bool, k: int)
    requires |grid| == w * h && 1 <= k && LineInGrid(gap, diagonal, w, h, k)
    ensures StraightFill(grid, w, h, gap, diagonal, k)
            == Put(StraightFill(grid, w, h, gap, diagonal, k - 1), w, h, LineSquare(gap, diagonal, k), gap.n1 + k)
  {
  }

  /**
   * Step k of a straight run, from a state prev whose gap g starts at
   * square k - 1 of the walk: writing n1 + k on the empty square k is a
   * placement by place_number_l1 that keeps the invariant and fills one
   * more square.
   */
  lemma WalkStep(grid: seq<int>, prev: seq<int>, vgaps: seq<Gap>, next: seq<int>, ngaps: seq<Gap>,
                 w: int, h: int, diagonal: bool, g: int, gap: Gap, k: int)
    requires StateOk(prev, vgaps, w, h) && 0 <= g < |vgaps| && 1 <= k
    requires vgaps[g] == Gap(gap.n1 + k - 1, LineSquare(gap, diagonal, k - 1), gap.n2, gap.l2)
    requires InGrid(LineSquare(gap, diagonal, k), w, h) && At(prev, w, h, LineSquare(gap, diagonal, k)) == 0
    requires next == Put(prev, w, h, LineSquare(gap, diagonal, k), gap.n1 + k)
    requires ngaps == RaiseGaps(vgaps, g, LineSquare(gap, diagonal, k))
    requires Extends(grid, prev) && ZeroCount(prev) == ZeroCount(grid) - (k - 1)
    ensures StateOk(next, ngaps, w, h)
    ensures Extends(grid, next) && ZeroCount(next) == ZeroCount(grid) - k
  {
    var c := LineSquare(gap, diagonal, k);
    PutOnEmpty(prev, w, h, vgaps, c, gap.n1 + k);
    ExtendsTransitive(grid, prev, next);
    RaisePreservesStateOk(prev, vgaps, w, h, g, c);
  }

  /** Step k of a straight run keeps a consistent grid consistent: square k is next to square k - 1 and in reach of l2. */
  lemma WalkStepConsistent(prev: seq<int>, vgaps: seq<Gap>, w: int, h: int, diagonal: bool, g: int, gap: Gap, k: int)
    requires StateOk(prev, vgaps, w, h) && 0 <= g < |vgaps| && Consistent(prev, w, h, diagonal)
    requires StraightApplies(gap, diagonal) && InGrid(gap.l1, w, h) && InGrid(gap.l2, w, h)
    requires 1 <= k <= gap.n2 - gap.n1 - 1
    requires vgaps[g] == Gap(gap.n1 + k - 1, LineSquare(gap, diagonal, k - 1), gap.n2, gap.l2)
    requires InGrid(LineSquare(gap, diagonal, k), w, h) && At(prev, w, h, LineSquare(gap, diagonal, k)) == 0
    ensures Consistent(Put(prev, w, h, LineSquare(gap, diagonal, k), gap.n1 + k), w, h, diagonal)
  {
    var c := LineSquare(gap, diagonal, k);
    StraightLine(gap, diagonal, w, h);
    assert Adjacent(LineSquare(gap, diagonal, k - 1), c, diagonal);
    assert !TooFar(c, gap.l2, vgaps[g], diagonal);
    RaiseKeepsConsistent(prev, vgaps, w, h, diagonal, g, c);
  }

  /** Moving the gap's lower end from square k - 1 to square k of the walk is what place_number_l1 does to the list. */
  lemma StraightGapsStep(gaps: seq<Gap>, g: int, diagonal: bool, k: int)
    requires 0 <= g < |gaps| && 1 <= k
    ensures k < gaps[g].n2 - gaps[g].n1 - 1 ==>
      RaiseGaps(StraightGaps(gaps, g, diagonal, k - 1), g, LineSquare(gaps[g], diagonal, k)) == StraightGaps(gaps, g, diagonal, k)
    ensures k == gaps[g].n2 - gaps[g].n1 - 1 ==>
      RaiseGaps(StraightGaps(gaps, g, diagonal, k - 1), g, LineSquare(gaps[g], diagonal, k)) == RemoveAt(gaps, g)
  {
    if k == gaps[g].n2 - gaps[g].n1 - 1 {
      RemoveAtUpdate(gaps, g, StraightGaps(gaps, g, diagonal, k - 1)[g]);
    }
  }

  /**
   * The first k steps of a straight run whose squares were empty leave a
   * state as good as one reached by k single placements: the invariant
   * holds with the gap's lower end moved to step k (the gap gone after the
   * last step), and k more squares are filled.
   */
  lemma {:induction false} StraightPrefix(grid: seq<int>, gaps: seq<Gap>, w: int, h: int, diagonal: bool, g: int, k: int)
    requires StateOk(grid, gaps, w, h) && 0 <= g < |gaps|
    requires LineInGrid(gaps[g], diagonal, w, h, gaps[g].n2 - gaps[g].n1)
    requires 0 <= k < gaps[g].n2 - gaps[g].n1
    requires forall j :: 1 <= j <= k ==> StepEmpty(grid, w, h, diagonal, gaps[g], j)
    ensures k < gaps[g].n2 - gaps[g].n1 - 1 ==>
      StateOk(StraightFill(grid, w, h, gaps[g], diagonal, k), StraightGaps(gaps, g, diagonal, k), w, h)
    ensures k == gaps[g].n2 - gaps[g].n1 - 1 ==>
      StateOk(StraightFill(grid, w, h, gaps[g], diagonal, k), RemoveAt(gaps, g), w, h)
    ensures Extends(grid, StraightFill(grid, w, h, gaps[g], diagonal, k))
    ensures ZeroCount(StraightFill(grid, w, h, gaps[g], diagonal, k)) == ZeroCount(grid) - k
  {
    if k == 0 {
      assert StraightGaps(gaps, g, diagonal, 0) == gaps;
    } else {
      StraightPrefix(grid, gaps, w, h, diagonal, g, k - 1);
      StraightPrefixStep(grid, gaps, w, h, diagonal, g, k);
    }
  }

  /** The inductive step of StraightPrefix. */
  lemma StraightPrefixStep(grid: seq<int>, gaps: seq<Gap>, w: int, h: int, diagonal: bool, g: int, k: int)
    requires |grid| == w * h && 0 <= g < |gaps|
    requires LineInGrid(gaps[g], diagonal, w, h, gaps[g].n2 - gaps[g].n1)
    requires 1 <= k < gaps[g].n2 - gaps[g].n1
    requires StepEmpty(grid, w, h, diagonal, gaps[g], k)
    requires StateOk(StraightFill(grid, w, h, gaps[g], diagonal, k - 1), StraightGaps(gaps, g, diagonal, k - 1), w, h)
    requires Extends(grid, StraightFill(grid, w, h, gaps[g], diagonal, k - 1))
    requires ZeroCount(StraightFill(grid, w, h, gaps[g], diagonal, k - 1)) == ZeroCount(grid) - (k - 1)
    ensures k < gaps[g].n2 - gaps[g].n1 - 1 ==>
      StateOk(StraightFill(grid, w, h, gaps[g], diagonal, k), StraightGaps(gaps, g, diagonal, k), w, h)
    ensures k == gaps[g].n2 - gaps[g].n1 - 1 ==>
      StateOk(StraightFill(grid, w, h, gaps[g], diagonal, k), RemoveAt(gaps, g), w, h)
    ensures Extends(grid, StraightFill(grid, w, h, gaps[g], diagonal, k))
    ensures ZeroCount(StraightFill(grid, w, h, gaps[g], diagonal, k)) == ZeroCount(grid) - k
  {
    var gap := gaps[g];
    StraightFillStep(grid, w, h, gap, diagonal, k);
    StraightGapsStep(gaps, g, diagonal, k);
    var ngaps := if k < gap.n2 - gap.n1 - 1 then StraightGaps(gaps, g, diagonal, k) else RemoveAt(gaps, g);
    WalkStep(grid, StraightFill(grid, w, h, gap, diagonal, k - 1), StraightGaps(gaps, g, diagonal, k - 1),
             StraightFill(grid, w, h, gap, diagonal, k), ngaps, w, h, diagonal, g, gap, k);
  }

  /** The first k steps of a straight run over empty squares keep a consistent grid consistent. */
  lemma {:induction false} StraightPrefixConsistent(grid: seq<int>, gaps: seq<Gap>, w: int, h: int, diagonal: bool, g: int, k: int)
    requires StateOk(grid, gaps, w, h) && 0 <= g < |gaps| && StraightApplies(gaps[g], diagonal)
    requires InGrid(gaps[g].l1, w, h) && InGrid(gaps[g].l2, w, h)
    requires LineInGrid(gaps[g], diagonal, w, h, gaps[g].n2 - gaps[g].n1)
    requires 0 <= k < gaps[g].n2 - gaps[g].n1
    requires forall j :: 1 <= j <= k ==> StepEmpty(grid, w, h, diagonal, gaps[g], j)
    requires Consistent(grid, w, h, diagonal)
    ensures Consistent(StraightFill(grid, w, h, gaps[g], diagonal, k), w, h, diagonal)
  {
    if k > 0 {
      StraightPrefixConsistent(grid, gaps, w, h, diagonal, g, k - 1);
      StraightConsistentStep(grid, gaps, w, h, diagonal, g, k);
    }
  }

  /** The inductive step of StraightPrefixConsistent. */
  lemma StraightConsistentStep(grid: seq<int>, gaps: seq<Gap>, w: int, h: int, diagonal: bool, g: int, k: int)
    requires 0 <= g < |gaps| && StraightApplies(gaps[g], diagonal)
    requires InGrid(gaps[g].l1, w, h) && InGrid(gaps[g].l2, w, h)
    requires LineInGrid(gaps[g], diagonal, w, h, gaps[g].n2 - gaps[g].n1)
    requires 1 <= k < gaps[g].n2 - gaps[g].n1
    requires StateOk(grid, gaps, w, h)
    requires forall j :: 1 <= j <= k ==> StepEmpty(grid, w, h, diagonal, gaps[g], j)
    requires Consistent(StraightFill(grid, w, h, gaps[g], diagonal, k - 1), w, h, diagonal)
    ensures Consistent(StraightFill(grid, w, h, gaps[g], diagonal, k), w, h, diagonal)
  {
    var gap := gaps[g];
    StraightMidState(grid, gaps, w, h, diagonal, g, k);
    StraightFillStep(grid, w, h, gap, diagonal, k);
    WalkStepConsistent(StraightFill(grid, w, h, gap, diagonal, k - 1), StraightGaps(gaps, g, diagonal, k - 1),
                       w, h, diagonal, g, gap, k);
  }

  /** Before step k of a straight run: the invariant holds, the gap starts at square k - 1 and square k is empty. */
  lemma StraightMidState(grid: seq<int>, gaps: seq<Gap>, w: int, h: int, diagonal: bool, g: int, k: int)
    requires 0 <= g < |gaps|
    requires LineInGrid(gaps[g], diagonal, w, h, gaps[g].n2 - gaps[g].n1)
    requires 1 <= k < gaps[g].n2 - gaps[g].n1
    requires StateOk(grid, gaps, w, h)
    requires forall j :: 1 <= j <= k ==> StepEmpty(grid, w, h, diagonal, gaps[g], j)
    ensures StateOk(StraightFill(grid, w, h, gaps[g], diagonal, k - 1), StraightGaps(gaps, g, diagonal, k - 1), w, h)
    ensures StraightGaps(gaps, g, diagonal, k - 1)[g]
            == Gap(gaps[g].n1 + k - 1, LineSquare(gaps[g], diagonal, k - 1), gaps[g].n2, gaps[g].l2)
    ensures InGrid(LineSquare(gaps[g], diagonal, k), w, h)
    ensures At(StraightFill(grid, w, h, gaps[g], diagonal, k - 1), w, h, LineSquare(gaps[g], diagonal, k)) == 0
  {
    StraightPrefix(grid, gaps, w, h, diagonal, g, k - 1);
    assert StepEmpty(grid, w, h, diagonal, gaps[g], k);
  }

  /** A straight run that went through every step keeps the invariant with the gap removed. */
  lemma StraightCompleted(grid: seq<int>, gaps: seq<Gap>, w: int, h: int, diagonal: bool, g: int)
    requires StateOk(grid, gaps, w, h) && 0 <= g < |gaps| && StraightApplies(gaps[g], diagonal)
    requires InGrid(gaps[g].l1, w, h) && InGrid(gaps[g].l2, w, h)
    requires LineInGrid(gaps[g], diagonal, w, h, gaps[g].n2 - gaps[g].n1)
    requires forall j :: 1 <= j <= gaps[g].n2 - gaps[g].n1 - 1 ==> StepClear(grid, gaps, w, h, diagonal, gaps[g], j)
    ensures StateOk(StraightFill(grid, w, h, gaps[g], diagonal, gaps[g].n2 - gaps[g].n1 - 1), RemoveAt(gaps, g), w, h)
    ensures Extends(grid, StraightFill(grid, w, h, gaps[g], diagonal, gaps[g].n2 - gaps[g].n1 - 1))
    ensures ZeroCount(StraightFill(grid, w, h, gaps[g], diagonal, gaps[g].n2 - gaps[g].n1 - 1)) < ZeroCount(grid)
    ensures Consistent(grid, w, h, diagonal) ==>
            Consistent(StraightFill(grid, w, h, gaps[g], diagonal, gaps[g].n2 - gaps[g].n1 - 1), w, h, diagonal)
  {
    var len := gaps[g].n2 - gaps[g].n1 - 1;
    var fill := StraightFill(grid, w, h, gaps[g], diagonal, len);
    ClearStepsEmpty(grid, gaps, w, h, diagonal, gaps[g], gaps[g].n2 - gaps[g].n1, len);
    assert StateOk(fill, RemoveAt(gaps, g), w, h) && Extends(grid, fill) && ZeroCount(fill) < ZeroCount(grid) by {
      StraightPrefix(grid, gaps, w, h, diagonal, g, len);
    }
    if Consistent(grid, w, h, diagonal) {
      assert Consistent(fill, w, h, diagonal) by {
        StraightPrefixConsistent(grid, gaps, w, h, diagonal, g, len);
      }
    }
  }

  /** A straight run that stopped at step k has only filled empty squares. */
  lemma StraightStopped(grid: seq<int>, gaps: seq<Gap>, w: int, h: int, diagonal: bool, g: int, k: int, grid': seq<int>)
    requires StateOk(grid, gaps, w, h) && 0 <= g < |gaps| && StraightApplies(gaps[g], diagonal)
    requires InGrid(gaps[g].l1, w, h) && InGrid(gaps[g].l2, w, h)
    requires LineInGrid(gaps[g], diagonal, w, h, gaps[g].n2 - gaps[g].n1)
    requires 1 <= k <= gaps[g].n2 - gaps[g].n1 - 1
    requires StraightStopsAt(grid, gaps, w, h, diagonal, gaps[g], k, grid')
    ensures Extends(grid, grid')
  {
    var gap := gaps[g];
    ClearStepsEmpty(grid, gaps, w, h, diagonal, gap, gap.n2 - gap.n1, k - 1);
    assert Extends(grid, StraightFill(grid, w, h, gap, diagonal, k - 1)) by {
      StraightPrefix(grid, gaps, w, h, diagonal, g, k - 1);
    }
    if grid' != StraightFill(grid, w, h, gap, diagonal, k - 1) {
      assert StepEmpty(grid, w, h, diagonal, gap, k);
      FillOnEmptyExtends(grid, w, h, diagonal, gap, gaps, k);
    }
  }

  /** Writing step k on its empty square keeps every number the grid held. */
  lemma FillOnEmptyExtends(grid: seq<int>, w: int, h: int, diagonal: bool, gap: Gap, gaps: seq<Gap>, k: int)
    requires |grid| == w * h && 1 <= k && LineInGrid(gap, diagonal, w, h, k)
    requires StepEmpty(grid, w, h, diagonal, gap, k)
    requires Extends(grid, StraightFill(grid, w, h, gap, diagonal, k - 1))
    ensures Extends(grid, StraightFill(grid, w, h, gap, diagonal, k))
  {
    var prev := StraightFill(grid, w, h, gap, diagonal, k - 1);
    StraightFillStep(grid, w, h, gap, diagonal, k);
    PutOnEmpty(prev, w, h, gaps, LineSquare(gap, diagonal, k), gap.n1 + k);
    ExtendsTransitive(grid, prev, StraightFill(grid, w, h, gap, diagonal, k));
  }

  /**
   * Whatever do_straight_path answers, every number stays on its square; a
   * completed run removes the gap, fills its squares and keeps the state
   * invariant and consistency.
   */
  lemma StraightKeeps(grid: seq<int>, gaps: seq<Gap>, w: int, h: int, diagonal: bool,
                      g: int, r: MoveResult, grid': seq<int>, gaps': seq<Gap>)
    requires StateOk(grid, gaps, w, h) && 0 <= g < |gaps|
    requires StraightOutcome(grid, gaps, w, h, diagonal, g, r, grid', gaps')
    ensures Extends(grid, grid')
    ensures r != Moved ==> gaps' == gaps
    ensures r == Moved ==> StateOk(grid', gaps', w, h) && ZeroCount(grid') < ZeroCount(grid)
    ensures r == Moved && Consistent(grid, w, h, diagonal) ==> Consistent(grid', w, h, diagonal)
  {
    var gap := gaps[g];
    var len := gap.n2 - gap.n1 - 1;
    if StraightApplies(gap, diagonal) {
      StraightWalk(grid, gaps, w, h, diagonal, g);
      assert GapOk(gap, grid, w, h);
      if r == Moved {
        StraightCompleted(grid, gaps, w, h, diagonal, g);
      } else {
        var k :| 1 <= k <= len && StraightStopsAt(grid, gaps, w, h, diagonal, gap, k, grid');
        StraightStopped(grid, gaps, w, h, diagonal, g, k, grid');
      }
    }
  }

  /** Writing n1 + k on the empty square k of the walk after k - 1 steps gives the grid after k steps. */
  lemma AdvanceFill(grid: seq<int>, cur: seq<int>, w: int, h: int, gaps: seq<Gap>, diagonal: bool, gap: Gap, k: int)
    requires |grid| == w * h && 1 <= k && LineInGrid(gap, diagonal, w, h, k)
    requires cur == StraightFill(grid, w, h, gap, diagonal, k - 1)
    requires At(cur, w, h, LineSquare(gap, diagonal, k)) == 0
    requires UpperAnchorsHeld(cur, w, h, gaps)
    ensures StepEmpty(grid, w, h, diagonal, gap, k)
    ensures Put(cur, w, h, LineSquare(gap, diagonal, k), gap.n1 + k) == StraightFill(grid, w, h, gap, diagonal, k)
    ensures UpperAnchorsHeld(Put(cur, w, h, LineSquare(gap, diagonal, k), gap.n1 + k), w, h, gaps)
  {
    PutOnEmpty(cur, w, h, gaps, LineSquare(gap, diagonal, k), gap.n1 + k);
  }

  /** do_straight_path stops at step k when square k is taken, with the first k - 1 steps written. */
  lemma StopsWhenTaken(grid: seq<int>, gaps: seq<Gap>, w: int, h: int, diagonal: bool, gap: Gap, k: int)
    requires |grid| == w * h && 1 <= k && LineInGrid(gap, diagonal, w, h, k)
    requires forall j :: 1 <= j < k ==> StepClear(grid, gaps, w, h, diagonal, gap, j)
    requires !StepEmpty(grid, w, h, diagonal, gap, k)
    ensures StraightStopsAt(grid, gaps, w, h, diagonal, gap, k, StraightFill(grid, w, h, gap, diagonal, k - 1))
  {
  }

  /** do_straight_path stops at step k when the number written there blocks a number nearby. */
  lemma StopsWhenBlocked(grid: seq<int>, gaps: seq<Gap>, w: int, h: int, diagonal: bool, gap: Gap, k: int)
    requires |grid| == w * h && 1 <= k && LineInGrid(gap, diagonal, w, h, k)
    requires forall j :: 1 <= j < k ==> StepClear(grid, gaps, w, h, diagonal, gap, j)
    requires StepEmpty(grid, w, h, diagonal, gap, k)
    requires NearbyBlocked(StraightFill(grid, w, h, gap, diagonal, k), w, h, diagonal, gaps, LineSquare(gap, diagonal, k))
    ensures StraightStopsAt(grid, gaps, w, h, diagonal, gap, k, StraightFill(grid, w, h, gap, diagonal, k))
  {
  }

  /** Neither kind of necessary move applies to a gap any more: the state do_necessary_moves stops in. */
  predicate Settled(grid: seq<int>, w: int, h: int, diagonal: bool, gap: Gap)
    requires |grid| == w * h
  {
    !StraightApplies(gap, diagonal)
    && OnlyMoveFrom(grid, w, h, diagonal, gap.l1).None?
    && OnlyMoveFrom(grid, w, h, diagonal, gap.l2).None?
  }

  // ---------------------------------------------------------------------
  // Moves and solutions
  // ---------------------------------------------------------------------

  /** No number of a grid that a solution extends is blocked, so check_blocked_numbers_nearby finds nothing. */
  lemma NotBlockedNearby(grid: seq<int>, s: seq<int>, w: int, h: int, diagonal: bool, gaps: seq<Gap>, c: Location)
    requires |grid| == w * h && Completes(grid, s, w, h, diagonal)
    ensures !NearbyBlocked(grid, w, h, diagonal, gaps, c)
  {
    if NearbyBlocked(grid, w, h, diagonal, gaps, c) {
      var j :| 0 <= j < |gaps| && BlockedBy(grid, w, h, diagonal, gaps[j], c);
      CheckBlockedNumberSound(grid, s, w, h, diagonal, gaps[j].l2);
    }
  }

  /**
   * place_number_l1 on the square where a solution puts n1 + 1 passes the
   * distance check and the blocked-number check, and the grid it leaves
   * still extends to that solution.
   */
  lemma PlaceL1KeepsSolution(grid: seq<int>, gaps: seq<Gap>, w: int, h: int, diagonal: bool, g: int, c: Location,
                             ok: bool, grid': seq<int>, gaps': seq<Gap>, s: seq<int>)
    requires StateOk(grid, gaps, w, h) && 0 <= g < |gaps| && InGrid(c, w, h)
    requires PlaceL1Outcome(grid, gaps, w, h, diagonal, g, c, ok, grid', gaps')
    requires Completes(grid, s, w, h, diagonal) && At(s, w, h, c) == gaps[g].n1 + 1
    ensures ok && Completes(grid', s, w, h, diagonal)
  {
    var gap := gaps[g];
    assert GapOk(gap, grid, w, h);
    if gap.l2.x != NoCoord {
      IdxInRange(gap.l2, w, h);
      assert At(s, w, h, gap.l2) == gap.n2;
      PathDistance(s, w, h, diagonal, c, gap.l2);
    }
    PutCompletes(grid, s, w, h, diagonal, c);
    NotBlockedNearby(grid', s, w, h, diagonal, gaps, c);
  }

  /** The mirror image of PlaceL1KeepsSolution for place_number_l2 and n2 - 1. */
  lemma PlaceL2KeepsSolution(grid: seq<int>, gaps: seq<Gap>, w: int, h: int, diagonal: bool, g: int, c: Location,
                             ok: bool, grid': seq<int>, gaps': seq<Gap>, s: seq<int>)
    requires StateOk(grid, gaps, w, h) && 0 <= g < |gaps| && InGrid(c, w, h)
    requires PlaceL2Outcome(grid, gaps, w, h, diagonal, g, c, ok, grid', gaps')
    requires Completes(grid, s, w, h, diagonal) && At(s, w, h, c) == gaps[g].n2 - 1
    ensures ok && Completes(grid', s, w, h, diagonal)
  {
    var gap := gaps[g];
    assert GapOk(gap, grid, w, h);
    if gap.l1.x != NoCoord {
      IdxInRange(gap.l1, w, h);
      assert At(s, w, h, gap.l1) == gap.n1;
      PathDistance(s, w, h, diagonal, gap.l1, c);
      DistanceSymmetric(gap.l1, c, diagonal);
    }
    PutCompletes(grid, s, w, h, diagonal, c);
    NotBlockedNearby(grid', s, w, h, diagonal, gaps, c);
  }

  /** A solution puts n1 + 1 on an empty square next to the gap's lower end. */
  lemma SolutionLeavesL1(grid: seq<int>, s: seq<int>, w: int, h: int, diagonal: bool, gap: Gap) returns (d: Location)
    requires |grid| == w * h && GapOk(gap, grid, w, h) && gap.l1.x != NoCoord
    requires Completes(grid, s, w, h, diagonal)
    ensures EmptyNeighbour(grid, w, h, diagonal, gap.l1, d) && At(s, w, h, d) == gap.n1 + 1
  {
    IdxInRange(gap.l1, w, h);
    assert At(s, w, h, gap.l1) == gap.n1;
    d := SquareOf(s, w, h, gap.n1 + 1);
    MissingIsEmpty(grid, s, w, h, diagonal, d);
  }

  /** A solution puts n2 - 1 on an empty square next to the gap's upper end. */
  lemma SolutionReachesL2(grid: seq<int>, s: seq<int>, w: int, h: int, diagonal: bool, gap: Gap) returns (d: Location)
    requires |grid| == w * h && GapOk(gap, grid, w, h) && gap.l2.x != NoCoord
    requires Completes(grid, s, w, h, diagonal)
    ensures EmptyNeighbour(grid, w, h, diagonal, gap.l2, d) && At(s, w, h, d) == gap.n2 - 1
  {
    IdxInRange(gap.l2, w, h);
    assert At(s, w, h, gap.l2) == gap.n2;
    d := SquareOf(s, w, h, gap.n2 - 1);
    AdjacentSymmetric(d, gap.l2, diagonal);
    MissingIsEmpty(grid, s, w, h, diagonal, d);
  }

  /** do_only_move never reports a grid unsolvable that has a solution, and keeps that solution. */
  lemma OnlyMoveKeepsSolution(grid: seq<int>, gaps: seq<Gap>, w: int, h: int, diagonal: bool,
                              g: int, r: MoveResult, grid': seq<int>, gaps': seq<Gap>, s: seq<int>)
    requires StateOk(grid, gaps, w, h) && 0 <= g < |gaps|
    requires OnlyMoveOutcome(grid, gaps, w, h, diagonal, g, r, grid', gaps')
    requires Completes(grid, s, w, h, diagonal)
    ensures r != Unsolvable && Completes(grid', s, w, h, diagonal)
  {
    var gap := gaps[g];
    var m1 := OnlyMoveFrom(grid, w, h, diagonal, gap.l1);
    var m2 := OnlyMoveFrom(grid, w, h, diagonal, gap.l2);
    assert GapOk(gap, grid, w, h);
    if m1.Some? {
      FindOnlyMoveSound(grid, w, h, diagonal, gap.l1);
      var d := SolutionLeavesL1(grid, s, w, h, diagonal, gap);
      PlaceL1KeepsSolution(grid, gaps, w, h, diagonal, g, m1.value, r == Moved, grid', gaps', s);
    } else if m2.Some? {
      FindOnlyMoveSound(grid, w, h, diagonal, gap.l2);
      var d := SolutionReachesL2(grid, s, w, h, diagonal, gap);
      PlaceL2KeepsSolution(grid, gaps, w, h, diagonal, g, m2.value, r == Moved, grid', gaps', s);
    }
  }

  /**
   * do_straight_path's test makes the straight walk the only way: a square
   * at most k steps from l1 and at most n2 - n1 - k steps from l2 is square
   * k of the walk.
   */
  lemma OnlyStraightPath(gap: Gap, diagonal: bool, p: Location, k: int)
    requires StraightApplies(gap, diagonal) && 0 <= k <= gap.n2 - gap.n1
    requires Distance(gap.l1, p, diagonal) <= k && Distance(p, gap.l2, diagonal) <= gap.n2 - gap.n1 - k
    ensures p == LineSquare(gap, diagonal, k)
  {
  }

  /** A solution of a grid puts n1 + k on square k of a straight gap's walk. */
  lemma SolutionAlongWalk(grid: seq<int>, gaps: seq<Gap>, w: int, h: int, diagonal: bool, g: int, s: seq<int>, k: int)
    requires StateOk(grid, gaps, w, h) && 0 <= g < |gaps| && StraightApplies(gaps[g], diagonal)
    requires Completes(grid, s, w, h, diagonal) && 1 <= k <= gaps[g].n2 - gaps[g].n1 - 1
    ensures InGrid(LineSquare(gaps[g], diagonal, k), w, h)
    ensures At(s, w, h, LineSquare(gaps[g], diagonal, k)) == gaps[g].n1 + k
  {
    var gap := gaps[g];
    StraightWalk(grid, gaps, w, h, diagonal, g);
    assert GapOk(gap, grid, w, h);
    IdxInRange(gap.l1, w, h);
    IdxInRange(gap.l2, w, h);
    var p := SquareOf(s, w, h, gap.n1 + k);
    PathDistance(s, w, h, diagonal, gap.l1, p);
    PathDistance(s, w, h, diagonal, p, gap.l2);
    OnlyStraightPath(gap, diagonal, p, k);
  }

  /** The first k steps of the walk leave every other square as it was. */
  lemma {:induction false} StraightFillElsewhere(grid: seq<int>, w: int, h: int, gap: Gap, diagonal: bool, k: int, a: Location)
    requires |grid| == w * h && 0 <= k && LineInGrid(gap, diagonal, w, h, k) && InGrid(a, w, h)
    requires forall j :: 1 <= j <= k ==> LineSquare(gap, diagonal, j) != a
    ensures At(StraightFill(grid, w, h, gap, diagonal, k), w, h, a) == At(grid, w, h, a)
  {
    if k > 0 {
      StraightFillElsewhere(grid, w, h, gap, diagonal, k - 1, a);
      PutAt(StraightFill(grid, w, h, gap, diagonal, k - 1), w, h, LineSquare(gap, diagonal, k), gap.n1 + k, a);
    }
  }

  /**
   * A solution survives the first k steps of do_straight_path: each square
   * is empty when the walk reaches it, no number nearby is blocked, and the
   * grid still extends to the solution.
   */
  lemma {:induction false} StraightKeepsSolutionUpTo(grid: seq<int>, gaps: seq<Gap>, w: int, h: int, diagonal: bool,
                                                     g: int, s: seq<int>, k: int)
    requires StateOk(grid, gaps, w, h) && 0 <= g < |gaps| && StraightApplies(gaps[g], diagonal)
    requires LineInGrid(gaps[g], diagonal, w, h, gaps[g].n2 - gaps[g].n1)
    requires Completes(grid, s, w, h, diagonal) && 0 <= k <= gaps[g].n2 - gaps[g].n1 - 1
    ensures Completes(StraightFill(grid, w, h, gaps[g], diagonal, k), s, w, h, diagonal)
    ensures forall j :: 1 <= j <= k ==> StepClear(grid, gaps, w, h, diagonal, gaps[g], j)
  {
    if k > 0 {
      StraightKeepsSolutionUpTo(grid, gaps, w, h, diagonal, g, s, k - 1);
      StraightStepKeepsSolution(grid, gaps, w, h, diagonal, g, s, k);
      StepsClearExtend(grid, gaps, w, h, diagonal, gaps[g], gaps[g].n2 - gaps[g].n1, k);
    }
  }

  /** Steps that are clear are empty when the walk reaches them. */
  lemma ClearStepsEmpty(grid: seq<int>, gaps: seq<Gap>, w: int, h: int, diagonal: bool, gap: Gap, n: int, k: int)
    requires |grid| == w * h && LineInGrid(gap, diagonal, w, h, n) && k <= n
    requires forall j :: 1 <= j <= k ==> StepClear(grid, gaps, w, h, diagonal, gap, j)
    ensures forall j :: 1 <= j <= k ==> StepEmpty(grid, w, h, diagonal, gap, j)
  {
    forall j | 1 <= j <= k ensures StepEmpty(grid, w, h, diagonal, gap, j) {
      assert StepClear(grid, gaps, w, h, diagonal, gap, j);
    }
  }

  /** Steps 1 .. k - 1 clear and step k clear make steps 1 .. k clear. */
  lemma StepsClearExtend(grid: seq<int>, gaps: seq<Gap>, w: int, h: int, diagonal: bool, gap: Gap, n: int, k: int)
    requires |grid| == w * h && LineInGrid(gap, diagonal, w, h, n) && 1 <= k <= n
    requires forall j :: 1 <= j < k ==> StepClear(grid, gaps, w, h, diagonal, gap, j)
    requires StepClear(grid, gaps, w, h, diagonal, gap, k)
    ensures forall j :: 1 <= j <= k ==> StepClear(grid, gaps, w, h, diagonal, gap, j)
  {
    forall j | 1 <= j <= k ensures StepClear(grid, gaps, w, h, diagonal, gap, j) {
      if j < k {
        assert StepClear(grid, gaps, w, h, diagonal, gap, j);
      }
    }
  }

  /** The inductive step of StraightKeepsSolutionUpTo. */
  lemma StraightStepKeepsSolution(grid: seq<int>, gaps: seq<Gap>, w: int, h: int, diagonal: bool,
                                  g: int, s: seq<int>, k: int)
    requires StateOk(grid, gaps, w, h) && 0 <= g < |gaps| && StraightApplies(gaps[g], diagonal)
    requires LineInGrid(gaps[g], diagonal, w, h, gaps[g].n2 - gaps[g].n1)
    requires Completes(grid, s, w, h, diagonal) && 1 <= k <= gaps[g].n2 - gaps[g].n1 - 1
    requires Completes(StraightFill(grid, w, h, gaps[g], diagonal, k - 1), s, w, h, diagonal)
    ensures Completes(StraightFill(grid, w, h, gaps[g], diagonal, k), s, w, h, diagonal)
    ensures StepClear(grid, gaps, w, h, diagonal, gaps[g], k)
  {
    var gap := gaps[g];
    var c := LineSquare(gap, diagonal, k);
    SolutionAlongWalk(grid, gaps, w, h, diagonal, g, s, k);
    StraightStepEmpty(grid, gaps, w, h, diagonal, g, s, k);
    StraightStepCompletes(grid, w, h, diagonal, gap, s, k);
    NotBlockedNearby(StraightFill(grid, w, h, gap, diagonal, k), s, w, h, diagonal, gaps, c);
  }

  /** The square of step k is still empty when the walk reaches it. */
  lemma StraightStepEmpty(grid: seq<int>, gaps: seq<Gap>, w: int, h: int, diagonal: bool,
                          g: int, s: seq<int>, k: int)
    requires StateOk(grid, gaps, w, h) && 0 <= g < |gaps| && StraightApplies(gaps[g], diagonal)
    requires LineInGrid(gaps[g], diagonal, w, h, gaps[g].n2 - gaps[g].n1)
    requires Completes(grid, s, w, h, diagonal) && 1 <= k <= gaps[g].n2 - gaps[g].n1 - 1
    requires InGrid(LineSquare(gaps[g], diagonal, k), w, h)
    requires At(s, w, h, LineSquare(gaps[g], diagonal, k)) == gaps[g].n1 + k
    ensures StepEmpty(grid, w, h, diagonal, gaps[g], k)
  {
    var gap := gaps[g];
    var c := LineSquare(gap, diagonal, k);
    assert GapOk(gap, grid, w, h);
    MissingIsEmpty(grid, s, w, h, diagonal, c);
    StraightWalk(grid, gaps, w, h, diagonal, g);
    StraightLine(gap, diagonal, w, h);
    StraightFillElsewhere(grid, w, h, gap, diagonal, k - 1, c);
  }

  /** Writing n1 + k on the square of step k keeps the solution. */
  lemma StraightStepCompletes(grid: seq<int>, w: int, h: int, diagonal: bool, gap: Gap, s: seq<int>, k: int)
    requires |grid| == w * h && 1 <= k && LineInGrid(gap, diagonal, w, h, k)
    requires Completes(StraightFill(grid, w, h, gap, diagonal, k - 1), s, w, h, diagonal)
    requires At(s, w, h, LineSquare(gap, diagonal, k)) == gap.n1 + k
    ensures Completes(StraightFill(grid, w, h, gap, diagonal, k), s, w, h, diagonal)
  {
    var c := LineSquare(gap, diagonal, k);
    var prev := StraightFill(grid, w, h, gap, diagonal, k - 1);
    PutCompletes(prev, s, w, h, diagonal, c);
    StraightFillStep(grid, w, h, gap, diagonal, k);
  }

  /** do_straight_path never reports a grid unsolvable that has a solution, and keeps that solution. */
  lemma StraightKeepsSolution(grid: seq<int>, gaps: seq<Gap>, w: int, h: int, diagonal: bool,
                              g: int, r: MoveResult, grid': seq<int>, gaps': seq<Gap>, s: seq<int>)
    requires StateOk(grid, gaps, w, h) && 0 <= g < |gaps|
    requires StraightOutcome(grid, gaps, w, h, diagonal, g, r, grid', gaps')
    requires Completes(grid, s, w, h, diagonal)
    ensures r != Unsolvable && Completes(grid', s, w, h, diagonal)
  {
    var gap := gaps[g];
    var len := gap.n2 - gap.n1 - 1;
    if StraightApplies(gap, diagonal) {
      StraightWalk(grid, gaps, w, h, diagonal, g);
      StraightKeepsSolutionUpTo(grid, gaps, w, h, diagonal, g, s, len);
      forall k | 1 <= k <= len ensures !StraightStopsAt(grid, gaps, w, h, diagonal, gap, k, grid') {
        assert StepClear(grid, gaps, w, h, diagonal, gap, k);
      }
    }
  }

  // ---------------------------------------------------------------------
  // solver_state_t
  // ---------------------------------------------------------------------

  /** dup_grid: a fresh array holding a copy of the grid. */
  method DupGrid(src: seq<int>) returns (a: array<int>)
    ensures fresh(a) && a[..] == src
  {
    a := new int[|src|](i requires 0 <= i < |src| => src[i]);
  }

  /** Gaps in increasing order do not overlap. */
  lemma OrderedDisjoint(gaps: seq<Gap>, grid: seq<int>, w: int, h: int)
    requires IsGapList(gaps, grid, w, h)
    ensures IsGapSet(gaps, grid, w, h)
  {
  }

  /**
   * solver_state_t: the grid being filled in, and the gaps still open in it.
   * The dimensions, the diagonal rule and the step limit never change.
   */
  class SolverState {
    const w: int
    const h: int
    const diagonal: bool
    const stepsLimit: int
    const grid: array<int>
    var gaps: seq<Gap>

    /** The gaps are exactly the runs of numbers missing from the grid. */
    ghost predicate Valid()
      reads this, grid
    {
      grid.Length == w * h && StateOk(grid[..], gaps, w, h)
    }

    constructor FromParts(w: int, h: int, diagonal: bool, stepsLimit: int, grid: array<int>, gaps: seq<Gap>)
      ensures this.w == w && this.h == h && this.diagonal == diagonal && this.stepsLimit == stepsLimit
      ensures this.grid == grid && this.gaps == gaps
    {
      this.w := w;
      this.h := h;
      this.diagonal := diagonal;
      this.stepsLimit := stepsLimit;
      this.grid := grid;
      this.gaps := gaps;
    }

    /**
     * init_solver_state: a state over a fresh copy of the grid with its gaps
     * computed, and the length of the longest gap.
     */
    static method Init(grid: seq<int>, w: int, h: int, diagonal: bool, stepsLimit: int)
      returns (state: SolverState, longest: int)
      requires ValidGrid(grid, w, h) && h <= CoordMax && |grid| <= NumberMax
      requires exists k :: 0 <= k < |grid| && grid[k] != 0
      ensures fresh(state) && fresh(state.grid) && state.Valid()
      ensures state.w == w && state.h == h && state.diagonal == diagonal && state.stepsLimit == stepsLimit
      ensures state.grid[..] == grid && IsGapList(state.gaps, grid, w, h)
      ensures longest == MaxGapLength(state.gaps)
    {
      var copy := DupGrid(grid);
      var gaps;
      gaps, longest := ComputeGaps(grid, w, h);
      OrderedDisjoint(gaps, grid, w, h);
      state := new SolverState.FromParts(w, h, diagonal, stepsLimit, copy, gaps);
    }

    /** copy_solver_state: an independent state with the same grid and gaps. */
    method Copy() returns (s: SolverState)
      ensures fresh(s) && fresh(s.grid)
      ensures s.w == w && s.h == h && s.diagonal == diagonal && s.stepsLimit == stepsLimit
      ensures s.grid[..] == grid[..] && s.gaps == gaps
    {
      var copy := DupGrid(grid[..]);
      s := new SolverState.FromParts(w, h, diagonal, stepsLimit, copy, gaps);
    }

    /** check_blocked_numbers_nearby: the loop over the gaps' upper ends. */
    method CheckBlockedNumbersNearby(c: Location) returns (r: bool)
      requires UpperAnchorsHeld(grid[..], w, h, gaps) && grid.Length == w * h
      ensures r == NearbyBlocked(grid[..], w, h, diagonal, gaps, c)
    {
      var g := 0;
      while g < |gaps|
        invariant 0 <= g <= |gaps|
        invariant forall j :: 0 <= j < g ==> !BlockedBy(grid[..], w, h, diagonal, gaps[j], c)
      {
        var gap := gaps[g];
        if gap.l2.x != NoCoord {
          if Distance(gap.l2, c, diagonal) == 1 {
            if CheckBlockedNumber(grid[..], w, h, diagonal, gap.l2) {
              return true;
            }
          }
        }
        g := g + 1;
      }
      return false;
    }

    /** place_number_l1: put n1 + 1 on the empty square c, then check the distance and the numbers nearby. */
    method PlaceNumberL1(g: int, c: Location) returns (ok: bool)
      requires Valid() && 0 <= g < |gaps| && InGrid(c, w, h) && At(grid[..], w, h, c) == 0
      modifies this, grid
      ensures PlaceL1Outcome(old(grid[..]), old(gaps), w, h, diagonal, g, c, ok, grid[..], gaps)
      ensures Extends(old(grid[..]), grid[..]) && grid.Length == w * h
      ensures ok ==> Valid() && ZeroCount(grid[..]) < old(ZeroCount(grid[..]))
      ensures !ok ==> gaps == old(gaps)
    {
      var gap := gaps[g];
      var n := gap.n1 + 1;
      if gap.l2.x != NoCoord && Distance(c, gap.l2, diagonal) > gap.n2 - gap.n1 - 1 {
        return false;
      }
      ghost var before := grid[..];
      StateAnchorsHeld(before, gaps, w, h);
      PutOnEmpty(before, w, h, gaps, c, n);
      IdxInRange(c, w, h);
      grid[c.y * w + c.x] := n;
      assert grid[..] == Put(before, w, h, c, n);
      var blocked := CheckBlockedNumbersNearby(c);
      ok := !blocked;
      if ok {
        if n + 1 == gap.n2 {
          gaps := gaps[..g] + gaps[g + 1..];
        } else {
          gaps := gaps[g := Gap(n, c, gap.n2, gap.l2)];
        }
        assert gaps == RaiseGaps(old(gaps), g, c);
        PlaceL1Keeps(before, old(gaps), w, h, diagonal, g, c, ok, grid[..], gaps);
      }
    }

    /** place_number_l2: put n2 - 1 on the empty square c, then check the distance and the numbers nearby. */
    method PlaceNumberL2(g: int, c: Location) returns (ok: bool)
      requires Valid() && 0 <= g < |gaps| && InGrid(c, w, h) && At(grid[..], w, h, c) == 0
      modifies this, grid
      ensures PlaceL2Outcome(old(grid[..]), old(gaps), w, h, diagonal, g, c, ok, grid[..], gaps)
      ensures Extends(old(grid[..]), grid[..]) && grid.Length == w * h
      ensures ok ==> Valid() && ZeroCount(grid[..]) < old(ZeroCount(grid[..]))
      ensures !ok ==> gaps == old(gaps)
    {
      var gap := gaps[g];
      var n := gap.n2 - 1;
      if gap.l1.x != NoCoord && Distance(c, gap.l1, diagonal) > gap.n2 - gap.n1 - 1 {
        return false;
      }
      ghost var before := grid[..];
      StateAnchorsHeld(before, gaps, w, h);
      PutOnEmpty(before, w, h, gaps, c, n);
      IdxInRange(c, w, h);
      grid[c.y * w + c.x] := n;
      assert grid[..] == Put(before, w, h, c, n);
      var blocked := CheckBlockedNumbersNearby(c);
      ok := !blocked;
      if ok {
        if n - 1 == gap.n1 {
          gaps := gaps[..g] + gaps[g + 1..];
        } else {
          gaps := gaps[g := Gap(gap.n1, gap.l1, n, c)];
        }
        assert gaps == LowerGaps(old(gaps), g, c);
        PlaceL2Keeps(before, old(gaps), w, h, diagonal, g, c, ok, grid[..], gaps);
      }
    }

    /** do_only_move: the forced square next to the lower end, else next to the upper end. */
    method DoOnlyMove(g: int) returns (r: MoveResult)
      requires Valid() && 0 <= g < |gaps|
      modifies this, grid
      ensures OnlyMoveOutcome(old(grid[..]), old(gaps), w, h, diagonal, g, r, grid[..], gaps)
      ensures Extends(old(grid[..]), grid[..]) && grid.Length == w * h
      ensures r == Moved ==> Valid() && ZeroCount(grid[..]) < old(ZeroCount(grid[..]))
      ensures r == Moved && old(Consistent(grid[..], w, h, diagonal)) ==> Consistent(grid[..], w, h, diagonal)
      ensures r != Moved ==> gaps == old(gaps)
    {
      var gap := gaps[g];
      r := DidntMove;
      var m := None;
      if gap.l1.x != NoCoord {
        m := FindOnlyMove(grid[..], w, h, diagonal, gap.l1);
        if m.Some? {
          FindOnlyMoveSound(grid[..], w, h, diagonal, gap.l1);
          var ok := PlaceNumberL1(g, m.value);
          r := if ok then Moved else Unsolvable;
        }
      }
      if m.None? && gap.l2.x != NoCoord {
        m := FindOnlyMove(grid[..], w, h, diagonal, gap.l2);
        if m.Some? {
          FindOnlyMoveSound(grid[..], w, h, diagonal, gap.l2);
          var ok := PlaceNumberL2(g, m.value);
          r := if ok then Moved else Unsolvable;
        }
      }
      OnlyMoveKeeps(old(grid[..]), old(gaps), w, h, diagonal, g, r, grid[..], gaps);
    }

    /**
     * do_straight_path: when the gap's ends are aligned and exactly as far
     * apart as its numbers, write the numbers along the walk one by one.
     */
    method DoStraightPath(g: int) returns (r: MoveResult)
      requires Valid() && 0 <= g < |gaps|
      modifies this, grid
      ensures StraightOutcome(old(grid[..]), old(gaps), w, h, diagonal, g, r, grid[..], gaps)
      ensures Extends(old(grid[..]), grid[..]) && grid.Length == w * h
      ensures r == Moved ==> Valid() && ZeroCount(grid[..]) < old(ZeroCount(grid[..]))
      ensures r == Moved && old(Consistent(grid[..], w, h, diagonal)) ==> Consistent(grid[..], w, h, diagonal)
      ensures r != Moved ==> gaps == old(gaps)
    {
      var gap := gaps[g];
      if !StraightApplies(gap, diagonal) {
        return DidntMove;
      }
      StraightWalk(grid[..], gaps, w, h, diagonal, g);
      StateAnchorsHeld(grid[..], gaps, w, h);
      var moved := WalkStraight(g);
      if !moved {
        r := Unsolvable;
      } else {
        gaps := gaps[..g] + gaps[g + 1..];
        r := Moved;
      }
      StraightKeeps(old(grid[..]), old(gaps), w, h, diagonal, g, r, grid[..], gaps);
    }

    /**
     * The loop of do_straight_path: step from l1 towards l2 writing
     * n1 + 1 .. n2 - 1, and stop at the first square that is taken or whose
     * number blocks a number nearby.
     */
    method WalkStraight(g: int) returns (moved: bool)
      requires grid.Length == w * h && 0 <= g < |gaps| && gaps[g].n1 < gaps[g].n2
      requires LineInGrid(gaps[g], diagonal, w, h, gaps[g].n2 - gaps[g].n1)
      requires UpperAnchorsHeld(grid[..], w, h, gaps)
      modifies grid
      ensures moved ==>
        (forall k :: 1 <= k <= gaps[g].n2 - gaps[g].n1 - 1 ==> StepClear(old(grid[..]), gaps, w, h, diagonal, gaps[g], k))
        && grid[..] == StraightFill(old(grid[..]), w, h, gaps[g], diagonal, gaps[g].n2 - gaps[g].n1 - 1)
      ensures !moved ==> exists k :: 1 <= k <= gaps[g].n2 - gaps[g].n1 - 1
                                     && StraightStopsAt(old(grid[..]), gaps, w, h, diagonal, gaps[g], k, grid[..])
    {
      var gap := gaps[g];
      var step := StraightStep(gap, diagonal);
      var sx, sy := step.0, step.1;
      ghost var grid0 := grid[..];
      var x, y := gap.l1.x, gap.l1.y;
      var n := gap.n1 + 1;
      while n < gap.n2
        invariant gap.n1 + 1 <= n <= gap.n2
        invariant Location(x, y) == LineSquare(gap, diagonal, n - gap.n1 - 1)
        invariant grid[..] == StraightFill(grid0, w, h, gap, diagonal, n - gap.n1 - 1)
        invariant forall j :: 1 <= j < n - gap.n1 ==> StepClear(grid0, gaps, w, h, diagonal, gap, j)
        invariant UpperAnchorsHeld(grid[..], w, h, gaps)
      {
        x, y := x + sx, y + sy;
        ghost var k := n - gap.n1;
        var c := Location(x, y);
        assert c == LineSquare(gap, diagonal, k);
        ghost var cur := grid[..];
        IdxInRange(c, w, h);
        if grid[y * w + x] != 0 {
          StopsWhenTaken(grid0, gaps, w, h, diagonal, gap, k);
          return false;
        }
        AdvanceFill(grid0, cur, w, h, gaps, diagonal, gap, k);
        grid[y * w + x] := n;
        assert grid[..] == Put(cur, w, h, c, n);
        var blocked := CheckBlockedNumbersNearby(c);
        if blocked {
          StopsWhenBlocked(grid0, gaps, w, h, diagonal, gap, k);
          return false;
        }
        StepsClearExtend(grid0, gaps, w, h, diagonal, gap, gap.n2 - gap.n1, k);
        n := n + 1;
      }
      return true;
    }

    /**
     * do_necessary_moves: sweep the gaps, playing straight runs and forced
     * squares, until a sweep changes nothing or a move proves the puzzle
     * unsolvable.  Each move fills at least one square, so the sweeps end.
     */
    method DoNecessaryMoves() returns (ok: bool)
      requires Valid()
      modifies this, grid
      ensures Extends(old(grid[..]), grid[..]) && grid.Length == w * h
      ensures ok ==> Valid() && forall j :: 0 <= j < |gaps| ==> Settled(grid[..], w, h, diagonal, gaps[j])
      ensures ok && old(Consistent(grid[..], w, h, diagonal)) ==> Consistent(grid[..], w, h, diagonal)
      ensures forall s :: Completes(old(grid[..]), s, w, h, diagonal) ==> ok && Completes(grid[..], s, w, h, diagonal)
    {
      ghost var consistent := Consistent(grid[..], w, h, diagonal);
      var changed := true;
      while changed
        invariant Valid() && Extends(old(grid[..]), grid[..])
        invariant consistent ==> Consistent(grid[..], w, h, diagonal)
        invariant !changed ==> forall j :: 0 <= j < |gaps| ==> Settled(grid[..], w, h, diagonal, gaps[j])
        invariant forall s :: Completes(old(grid[..]), s, w, h, diagonal) ==> Completes(grid[..], s, w, h, diagonal)
        decreases ZeroCount(grid[..]), changed
      {
        changed := false;
        ghost var zeros := ZeroCount(grid[..]);
        var g := 0;
        while g < |gaps|
          invariant Valid() && Extends(old(grid[..]), grid[..]) && 0 <= g <= |gaps|
          invariant consistent ==> Consistent(grid[..], w, h, diagonal)
          invariant changed ==> ZeroCount(grid[..]) < zeros
          invariant !changed ==> ZeroCount(grid[..]) == zeros
          invariant !changed ==> forall j :: 0 <= j < g ==> Settled(grid[..], w, h, diagonal, gaps[j])
          invariant forall s :: Completes(old(grid[..]), s, w, h, diagonal) ==> Completes(grid[..], s, w, h, diagonal)
          decreases ZeroCount(grid[..]), |gaps| - g
        {
          ghost var before := grid[..];
          var r := NecessaryMoveAt(g);
          ExtendsTransitive(old(grid[..]), before, grid[..]);
          if r == Unsolvable {
            return false;
          }
          if r == Moved {
            changed := true;
            continue;
          }
          g := g + 1;
        }
      }
      return true;
    }

    /** The body of do_necessary_moves' sweep for gap g: a straight run first, else a forced square. */
    method NecessaryMoveAt(g: int) returns (r: MoveResult)
      requires Valid() && 0 <= g < |gaps|
      modifies this, grid
      ensures Extends(old(grid[..]), grid[..]) && grid.Length == w * h
      ensures r == Moved ==> Valid() && ZeroCount(grid[..]) < old(ZeroCount(grid[..]))
      ensures r == Moved && old(Consistent(grid[..], w, h, diagonal)) ==> Consistent(grid[..], w, h, diagonal)
      ensures r == DidntMove ==> grid[..] == old(grid[..]) && gaps == old(gaps) && Settled(grid[..], w, h, diagonal, gaps[g])
      ensures |old(gaps)| - 1 <= |gaps| <= |old(gaps)|
      ensures forall s :: Completes(old(grid[..]), s, w, h, diagonal) ==>
                r != Unsolvable && Completes(grid[..], s, w, h, diagonal)
    {
      ghost var grid0, gaps0 := grid[..], gaps;
      r := DoStraightPath(g);
      forall s | Completes(grid0, s, w, h, diagonal)
        ensures r != Unsolvable && Completes(grid[..], s, w, h, diagonal)
      {
        StraightKeepsSolution(grid0, gaps0, w, h, diagonal, g, r, grid[..], gaps, s);
      }
      if r == DidntMove {
        r := DoOnlyMove(g);
        forall s | Completes(grid0, s, w, h, diagonal)
          ensures r != Unsolvable && Completes(grid[..], s, w, h, diagonal)
        {
          OnlyMoveKeepsSolution(grid0, gaps0, w, h, diagonal, g, r, grid[..], gaps, s);
        }
      }
    }
  }
}
