/**
 * The gap model of the Hamilton solver (hamilton.c): a gap is a run of
 * numbers missing from the grid, anchored at the present numbers on either
 * side.  Open ends use the numbers 0 and area + 1 with the location
 * (NO_COORD, NO_COORD).
 */
module Gaps {
  import opened Geometry

  /**
   * gap_t: n1 and n2 are present on the grid at l1 and l2 (or are 0 and
   * area + 1 at an open end); the missing numbers are those strictly between.
   */
  datatype Gap = Gap(n1: int, l1: Location, n2: int, l2: Location)

  /** How many numbers a gap is missing. */
  function GapLength(g: Gap): int
  {
    g.n2 - g.n1 - 1
  }

  /** A puzzle grid: w * h cells in row-major order, each 0 (empty) or a number 1 .. area. */
  ghost predicate ValidGrid(grid: seq<int>, w: int, h: int)
  {
    1 <= w <= CoordMax && 1 <= h && |grid| == w * h
    && forall k :: 0 <= k < |grid| ==> 0 <= grid[k] <= w * h
  }

  /** The square l is on the grid and holds n. */
  ghost predicate Holds(grid: seq<int>, w: int, h: int, l: Location, n: int)
  {
    InGrid(l, w, h) && 0 <= Idx(l, w) < |grid| && grid[Idx(l, w)] == n
  }

  /** Each end is open exactly when its number is the sentinel, and otherwise anchored on its number. */
  ghost predicate AnchorsOk(g: Gap, grid: seq<int>, w: int, h: int)
  {
    (g.l1 == NoLocation <==> g.n1 == 0) && (g.n1 != 0 ==> Holds(grid, w, h, g.l1, g.n1))
    && (g.l2 == NoLocation <==> g.n2 == |grid| + 1) && (g.n2 != |grid| + 1 ==> Holds(grid, w, h, g.l2, g.n2))
  }

  /** A gap of the grid: at least one missing number, all numbers strictly inside missing. */
  ghost predicate GapOk(g: Gap, grid: seq<int>, w: int, h: int)
  {
    0 <= g.n1 && g.n1 + 1 < g.n2 <= |grid| + 1
    && AnchorsOk(g, grid, w, h)
    && forall m :: g.n1 < m < g.n2 ==> m !in grid
  }

  /** Gaps listed in increasing order of their numbers. */
  ghost predicate Ordered(gaps: seq<Gap>)
  {
    forall a, b :: 0 <= a < b < |gaps| ==> gaps[a].n2 <= gaps[b].n1
  }

  /** Every number of 1 .. area missing from the grid lies in some gap. */
  ghost predicate Covers(gaps: seq<Gap>, grid: seq<int>, w: int, h: int)
  {
    forall m :: 1 <= m <= |grid| && m !in grid ==>
      exists j :: 0 <= j < |gaps| && gaps[j].n1 < m < gaps[j].n2
  }

  /** The gaps are exactly the maximal runs of missing numbers, in order. */
  ghost predicate IsGapList(gaps: seq<Gap>, grid: seq<int>, w: int, h: int)
  {
    (forall j :: 0 <= j < |gaps| ==> GapOk(gaps[j], grid, w, h))
    && Ordered(gaps) && Covers(gaps, grid, w, h)
  }

  /** The length of the longest gap, 0 for no gaps. */
  function MaxGapLength(gaps: seq<Gap>): (r: int)
    ensures gaps == [] ==> r == 0
  {
    if gaps == [] then 0 else Max(MaxGapLength(gaps[..|gaps| - 1]), GapLength(gaps[|gaps| - 1]))
  }

  /** MaxGapLength is an upper bound on every gap and, for a non-empty list, is reached. */
  lemma {:induction false} MaxGapLengthIsMax(gaps: seq<Gap>)
    ensures forall j :: 0 <= j < |gaps| ==> GapLength(gaps[j]) <= MaxGapLength(gaps)
    ensures MaxGapLength(gaps) == 0 || exists j :: 0 <= j < |gaps| && GapLength(gaps[j]) == MaxGapLength(gaps)
  {
    if gaps != [] {
      var front := gaps[..|gaps| - 1];
      MaxGapLengthIsMax(front);
      forall j | 0 <= j < |front| ensures gaps[j] == front[j] { }
      if MaxGapLength(front) >= GapLength(gaps[|gaps| - 1]) {
        if MaxGapLength(front) != 0 {
          var j :| 0 <= j < |front| && GapLength(front[j]) == MaxGapLength(front);
          assert GapLength(gaps[j]) == MaxGapLength(gaps);
        }
      } else {
        assert GapLength(gaps[|gaps| - 1]) == MaxGapLength(gaps);
      }
    }
  }

  /** In a grid, the square listed for a present number; NoLocation when the number is absent. */
  ghost predicate LastHolder(grid: seq<int>, w: int, h: int, n: int, l: Location, scanned: int)
  {
    0 <= scanned <= |grid|
    && (l == NoLocation <==> n !in grid[..scanned])
    && (l != NoLocation ==>
          Holds(grid, w, h, l, n) && Idx(l, w) < scanned
          && forall k :: Idx(l, w) < k < scanned ==> grid[k] != n)
  }

  /** Scanning one more cell keeps entry n of the number map up to date. */
  lemma ScanStep(grid: seq<int>, w: int, h: int, n: int, l: Location, k: int, c: Location)
    requires w <= CoordMax
    requires LastHolder(grid, w, h, n, l, k) && k < |grid| && Holds(grid, w, h, c, grid[k]) && Idx(c, w) == k
    ensures grid[k] == n ==> LastHolder(grid, w, h, n, c, k + 1)
    ensures grid[k] != n ==> LastHolder(grid, w, h, n, l, k + 1)
  {
    assert grid[..k + 1] == grid[..k] + [grid[k]];
  }

  /**
   * compute_number_to_location_map: entry n is where n stands on the grid
   * (the last such square in row-major order), or (NO_COORD, NO_COORD);
   * entry 0 is always (NO_COORD, NO_COORD).
   */
  method ComputeNumberToLocationMap(grid: seq<int>, w: int, h: int) returns (numberMap: array<Location>)
    requires ValidGrid(grid, w, h)
    ensures fresh(numberMap) && numberMap.Length == w * h + 1
    ensures numberMap[0] == NoLocation
    ensures forall n :: 1 <= n <= w * h ==> LastHolder(grid, w, h, n, numberMap[n], |grid|)
  {
    var area := w * h;
    numberMap := new Location[area + 1](_ => NoLocation);
    var y := 0;
    ghost var row := 0;
    while y < h
      invariant 0 <= y <= h && numberMap.Length == area + 1 && numberMap[0] == NoLocation
      invariant row == y * w && 0 <= row <= area
      invariant forall n :: 1 <= n <= area ==> LastHolder(grid, w, h, n, numberMap[n], row)
    {
      RowFits(y, w, h);
      ScanRow(grid, w, h, numberMap, y);
      y := y + 1;
      row := row + w;
    }
    assert row == |grid|;
  }

  /** The inner loop of compute_number_to_location_map: record the numbers of row y. */
  method ScanRow(grid: seq<int>, w: int, h: int, numberMap: array<Location>, y: int)
    requires ValidGrid(grid, w, h) && 0 <= y < h && numberMap.Length == |grid| + 1 && numberMap[0] == NoLocation
    requires y * w + w <= |grid| && 0 <= y * w
    requires forall n :: 1 <= n <= |grid| ==> LastHolder(grid, w, h, n, numberMap[n], y * w)
    modifies numberMap
    ensures numberMap[0] == NoLocation
    ensures forall n :: 1 <= n <= |grid| ==> LastHolder(grid, w, h, n, numberMap[n], y * w + w)
  {
    var x := 0;
    while x < w
      invariant 0 <= x <= w && numberMap[0] == NoLocation
      invariant forall n :: 1 <= n <= |grid| ==> LastHolder(grid, w, h, n, numberMap[n], y * w + x)
    {
      var k := y * w + x;
      var c := Location(x, y);
      assert Idx(c, w) == k && Holds(grid, w, h, c, grid[k]);
      var clue := grid[k];
      ghost var before := numberMap[..];
      if clue > 0 {
        numberMap[clue] := c;
      }
      forall n | 1 <= n <= |grid| ensures LastHolder(grid, w, h, n, numberMap[n], k + 1) {
        ScanStep(grid, w, h, n, before[n], k, c);
      }
      x := x + 1;
    }
  }

  /** The last gap is still open at its upper end: compute_gaps has not met its n2 yet. */
  predicate IsPending(gaps: seq<Gap>)
  {
    |gaps| > 0 && gaps[|gaps| - 1].n2 == 0
  }

  /** How many gaps are complete. */
  function Closed(gaps: seq<Gap>): nat
  {
    if IsPending(gaps) then |gaps| - 1 else |gaps|
  }

  /** What compute_gaps knows when it has looked at the numbers below bound. */
  ghost predicate Scanned(gaps: seq<Gap>, longest: int, grid: seq<int>, w: int, h: int, bound: int)
  {
    (IsPending(gaps) ==>
      var g := gaps[|gaps| - 1];
      1 <= g.n1 < bound && Holds(grid, w, h, g.l1, g.n1) && g.l1 != NoLocation && g.l2 == NoLocation
      && g.n1 + 1 !in grid && forall m :: g.n1 < m < bound ==> m !in grid)
    && (forall j :: 0 <= j < Closed(gaps) ==> GapOk(gaps[j], grid, w, h) && gaps[j].n2 <= bound)
    && Ordered(gaps)
    && (forall m :: 1 <= m < bound && m !in grid ==>
          exists j :: 0 <= j < |gaps| && gaps[j].n1 < m && (m < gaps[j].n2 || (IsPending(gaps) && j == |gaps| - 1)))
    && longest == MaxGapLength(gaps[..Closed(gaps)])
  }

  /** The invariant of compute_gaps's main loop at the top of iteration i. */
  ghost predicate LoopInv(gaps: seq<Gap>, longest: int, grid: seq<int>, w: int, h: int, first: int, last: int, i: int)
  {
    first <= i <= last + 1
    && Scanned(gaps, longest, grid, w, h, i)
    && (first < i <= last && i !in grid ==> IsPending(gaps))
    && (first < i && i - 1 !in grid ==> IsPending(gaps))
    && (IsPending(gaps) ==> gaps[|gaps| - 1].n1 < last)
  }

  /** The invariant of compute_gaps's main loop between its two tests at i. */
  ghost predicate MidInv(gaps: seq<Gap>, longest: int, grid: seq<int>, w: int, h: int, first: int, last: int, i: int)
  {
    first <= i <= last
    && Scanned(gaps, longest, grid, w, h, i + 1)
    && (i in grid ==> !IsPending(gaps))
    && (first < i && i !in grid ==> IsPending(gaps))
    && (IsPending(gaps) ==> gaps[|gaps| - 1].n1 < last)
  }

  /** Facts every step lemma of compute_gaps relies on. */
  ghost predicate Bounds(grid: seq<int>, w: int, h: int, first: int, last: int)
  {
    1 <= w <= CoordMax && 1 <= first <= last <= |grid| && first in grid && last in grid
    && (forall m :: 1 <= m < first ==> m !in grid)
  }

  /** An anchored square is never (NO_COORD, NO_COORD). */
  lemma HoldsIsReal(grid: seq<int>, w: int, h: int, l: Location, n: int)
    requires w <= CoordMax && Holds(grid, w, h, l, n)
    ensures l != NoLocation && l.x != NoCoord
  {
  }

  /** A number anchored on the grid is present in it. */
  lemma HeldIsIn(grid: seq<int>, w: int, h: int, l: Location, n: int)
    requires Holds(grid, w, h, l, n)
    ensures n in grid
  {
    assert grid[Idx(l, w)] == n;
  }

  lemma CloseGap(gaps: seq<Gap>, longest: int, grid: seq<int>, w: int, h: int, first: int, last: int, i: int, loc: Location)
    requires Bounds(grid, w, h, first, last) && LoopInv(gaps, longest, grid, w, h, first, last, i) && i <= last
    requires i > first && i in grid && i - 1 !in grid && Holds(grid, w, h, loc, i)
    ensures IsPending(gaps)
    ensures var gap := gaps[|gaps| - 1];
      MidInv(gaps[|gaps| - 1 := gap.(n2 := i, l2 := loc)], Max(longest, i - gap.n1 - 1), grid, w, h, first, last, i)
  {
    var gap := gaps[|gaps| - 1];
    var gaps' := gaps[|gaps| - 1 := gap.(n2 := i, l2 := loc)];
    var longest' := Max(longest, i - gap.n1 - 1);
    HoldsIsReal(grid, w, h, loc, i);
    assert gap.n1 + 1 < i;
    assert !IsPending(gaps') && Closed(gaps') == |gaps'| && Closed(gaps) == |gaps| - 1;
    forall j | 0 <= j < |gaps'| ensures GapOk(gaps'[j], grid, w, h) && gaps'[j].n2 <= i + 1 {
      if j < |gaps| - 1 {
        assert gaps'[j] == gaps[j];
      }
    }
    forall a, b | 0 <= a < b < |gaps'| ensures gaps'[a].n2 <= gaps'[b].n1 {
      assert gaps'[a] == gaps[a] && gaps'[b].n1 == gaps[b].n1;
    }
    CloseGapCovers(gaps, grid, i, loc);
    assert gaps'[..|gaps'| - 1] == gaps[..Closed(gaps)];
    assert gaps'[..Closed(gaps')] == gaps';
    assert longest' == MaxGapLength(gaps'[..Closed(gaps')]);
    assert Scanned(gaps', longest', grid, w, h, i + 1);
  }

  /** Closing the pending gap at i leaves every missing number below i inside a closed gap. */
  lemma CloseGapCovers(gaps: seq<Gap>, grid: seq<int>, i: int, loc: Location)
    requires IsPending(gaps) && gaps[|gaps| - 1].n1 < i && i in grid
    requires forall m :: 1 <= m < i && m !in grid ==>
               exists j :: 0 <= j < |gaps| && gaps[j].n1 < m && (m < gaps[j].n2 || (IsPending(gaps) && j == |gaps| - 1))
    ensures var gaps' := gaps[|gaps| - 1 := gaps[|gaps| - 1].(n2 := i, l2 := loc)];
            forall m :: 1 <= m < i + 1 && m !in grid ==>
              exists j :: 0 <= j < |gaps'| && gaps'[j].n1 < m && m < gaps'[j].n2
  {
    var gaps' := gaps[|gaps| - 1 := gaps[|gaps| - 1].(n2 := i, l2 := loc)];
    forall m | 1 <= m < i + 1 && m !in grid
      ensures exists j :: 0 <= j < |gaps'| && gaps'[j].n1 < m && m < gaps'[j].n2
    {
      var j :| 0 <= j < |gaps| && gaps[j].n1 < m && (m < gaps[j].n2 || (IsPending(gaps) && j == |gaps| - 1));
      assert gaps'[j].n1 < m && m < gaps'[j].n2;
    }
  }

  /** Opening a gap at i keeps every missing number below i + 1 inside a gap. */
  lemma OpenGapCovers(gaps: seq<Gap>, grid: seq<int>, i: int, loc: Location)
    requires !IsPending(gaps) && i in grid
    requires forall m :: 1 <= m < i + 1 && m !in grid ==>
               exists j :: 0 <= j < |gaps| && gaps[j].n1 < m && (m < gaps[j].n2 || (IsPending(gaps) && j == |gaps| - 1))
    ensures var gaps' := gaps + [Gap(i, loc, 0, NoLocation)];
            forall m :: 1 <= m < i + 1 && m !in grid ==>
              exists j :: 0 <= j < |gaps'| && gaps'[j].n1 < m && m < gaps'[j].n2
  {
    var gaps' := gaps + [Gap(i, loc, 0, NoLocation)];
    forall m | 1 <= m < i + 1 && m !in grid
      ensures exists j :: 0 <= j < |gaps'| && gaps'[j].n1 < m && m < gaps'[j].n2
    {
      var j :| 0 <= j < |gaps| && gaps[j].n1 < m && m < gaps[j].n2;
      assert gaps'[j] == gaps[j];
    }
  }

  lemma NoCloseGap(gaps: seq<Gap>, longest: int, grid: seq<int>, w: int, h: int, first: int, last: int, i: int)
    requires Bounds(grid, w, h, first, last) && LoopInv(gaps, longest, grid, w, h, first, last, i) && i <= last
    requires !(i > first && i in grid && i - 1 !in grid)
    ensures MidInv(gaps, longest, grid, w, h, first, last, i)
  {
    if IsPending(gaps) {
      var g := gaps[|gaps| - 1];
      HeldIsIn(grid, w, h, g.l1, g.n1);
    }
  }

  lemma OpenGap(gaps: seq<Gap>, longest: int, grid: seq<int>, w: int, h: int, first: int, last: int, i: int, loc: Location)
    requires Bounds(grid, w, h, first, last) && MidInv(gaps, longest, grid, w, h, first, last, i)
    requires i < last && i in grid && i + 1 !in grid && Holds(grid, w, h, loc, i)
    ensures LoopInv(gaps + [Gap(i, loc, 0, NoLocation)], longest, grid, w, h, first, last, i + 1)
  {
    var gaps' := gaps + [Gap(i, loc, 0, NoLocation)];
    HoldsIsReal(grid, w, h, loc, i);
    assert !IsPending(gaps) && IsPending(gaps');
    assert Closed(gaps') == |gaps| == Closed(gaps);
    assert gaps'[..Closed(gaps')] == gaps == gaps[..Closed(gaps)];
    OpenGapKeepsClosed(gaps, longest, grid, w, h, first, last, i, loc);
    OpenGapCovers(gaps, grid, i, loc);
    assert Scanned(gaps', longest, grid, w, h, i + 1);
  }

  /** Opening a gap at i keeps the closed gaps valid, below i + 1 and in order. */
  lemma OpenGapKeepsClosed(gaps: seq<Gap>, longest: int, grid: seq<int>, w: int, h: int, first: int, last: int,
                           i: int, loc: Location)
    requires Bounds(grid, w, h, first, last) && MidInv(gaps, longest, grid, w, h, first, last, i) && i in grid
    ensures var gaps' := gaps + [Gap(i, loc, 0, NoLocation)];
            (forall j :: 0 <= j < |gaps| ==> GapOk(gaps'[j], grid, w, h) && gaps'[j].n2 <= i + 1)
            && Ordered(gaps')
  {
    var gaps' := gaps + [Gap(i, loc, 0, NoLocation)];
    forall j | 0 <= j < |gaps| ensures gaps[j].n2 <= i {
      if gaps[j].n2 != |grid| + 1 {
        HeldIsIn(grid, w, h, gaps[j].l2, gaps[j].n2);
      }
    }
    forall j | 0 <= j < |gaps| ensures GapOk(gaps'[j], grid, w, h) && gaps'[j].n2 <= i + 1 {
      assert gaps'[j] == gaps[j];
    }
    forall a, b | 0 <= a < b < |gaps'| ensures gaps'[a].n2 <= gaps'[b].n1 {
      assert gaps'[a] == gaps[a];
      if b < |gaps| {
        assert gaps'[b] == gaps[b];
      }
    }
  }

  lemma NoOpenGap(gaps: seq<Gap>, longest: int, grid: seq<int>, w: int, h: int, first: int, last: int, i: int)
    requires Bounds(grid, w, h, first, last) && MidInv(gaps, longest, grid, w, h, first, last, i)
    requires !(i < last && i in grid && i + 1 !in grid)
    ensures LoopInv(gaps, longest, grid, w, h, first, last, i + 1)
  {
  }

  /** What compute_gaps reads from the number map: where each present number stands. */
  ghost predicate MapOk(numberMap: seq<Location>, grid: seq<int>, w: int, h: int)
  {
    |numberMap| == |grid| + 1
    && forall n :: 1 <= n <= |grid| ==>
         (numberMap[n].x == NoCoord <==> n !in grid)
         && (numberMap[n].x != NoCoord ==> Holds(grid, w, h, numberMap[n], n))
  }

  lemma NumberMapOk(numberMap: seq<Location>, grid: seq<int>, w: int, h: int)
    requires ValidGrid(grid, w, h) && |numberMap| == |grid| + 1
    requires forall n :: 1 <= n <= |grid| ==> LastHolder(grid, w, h, n, numberMap[n], |grid|)
    ensures MapOk(numberMap, grid, w, h)
  {
    assert grid[..|grid|] == grid;
    forall n | 1 <= n <= |grid| && numberMap[n] != NoLocation
      ensures numberMap[n].x != NoCoord
    {
      HoldsIsReal(grid, w, h, numberMap[n], n);
    }
  }

  /** The main loop starts with the leading gap 0 .. first, if there is one. */
  lemma LeadingGap(grid: seq<int>, w: int, h: int, first: int, last: int, loc: Location)
    requires Bounds(grid, w, h, first, last) && first != 1 && Holds(grid, w, h, loc, first)
    ensures LoopInv([Gap(0, NoLocation, first, loc)], first - 1, grid, w, h, first, last, first)
  {
    var gaps := [Gap(0, NoLocation, first, loc)];
    HoldsIsReal(grid, w, h, loc, first);
    assert gaps[..Closed(gaps)] == gaps;
    assert GapOk(gaps[0], grid, w, h);
    forall m | 1 <= m < first && m !in grid
      ensures exists j :: 0 <= j < |gaps| && gaps[j].n1 < m && m < gaps[j].n2
    {
      assert gaps[0].n1 < m < gaps[0].n2;
    }
  }

  /**
   * compute_gaps: the gap list of a grid with at least one number (the
   * source asserts this), together with the length of its longest gap.
   */
  method ComputeGaps(grid: seq<int>, w: int, h: int) returns (gaps: seq<Gap>, longest: int)
    requires ValidGrid(grid, w, h)
    requires exists k :: 0 <= k < |grid| && grid[k] > 0
    ensures IsGapList(gaps, grid, w, h)
    ensures longest == MaxGapLength(gaps)
  {
    var area := w * h;
    var mapArray := ComputeNumberToLocationMap(grid, w, h);
    // the map is only read from here on
    var numberMap := mapArray[..];
    NumberMapOk(numberMap, grid, w, h);

    // the first and last numbers on the grid
    var first := FirstNumber(numberMap, grid, w, h);
    var last := LastNumber(numberMap, grid, w, h, first);

    gaps := [];
    longest := 0;
    // the leading gap, from 1 up to the first number
    if first != 1 {
      var loc := numberMap[first];
      LeadingGap(grid, w, h, first, last, loc);
      gaps := [Gap(0, NoLocation, first, loc)];
      longest := Max(longest, first - 1);
    }

    gaps, longest := GapsBetween(numberMap, grid, w, h, first, last, gaps, longest);

    // the trailing gap, from the last number up to area
    if last != area {
      var loc := numberMap[last];
      TrailingGap(gaps, longest, grid, w, h, first, last, loc, area);
      gaps := gaps + [Gap(last, loc, area + 1, NoLocation)];
      longest := Max(longest, area - last);
    } else {
      NoTrailingGap(gaps, longest, grid, w, h, first, last);
    }
  }

  /** The first loop of compute_gaps: the least number on the grid. */
  method FirstNumber(numberMap: seq<Location>, grid: seq<int>, w: int, h: int) returns (first: int)
    requires MapOk(numberMap, grid, w, h)
    requires exists k :: 0 <= k < |grid| && grid[k] > 0
    requires forall k :: 0 <= k < |grid| ==> grid[k] <= |grid|
    ensures 1 <= first <= |grid| && first in grid
    ensures forall m :: 1 <= m < first ==> m !in grid
  {
    ghost var clue :| 0 <= clue < |grid| && grid[clue] > 0;
    assert grid[clue] in grid;
    first := 1;
    while first <= |grid| && numberMap[first].x == NoCoord
      invariant 1 <= first <= grid[clue]
      invariant forall m :: 1 <= m < first ==> m !in grid
    {
      first := first + 1;
    }
  }

  /** The second loop of compute_gaps: the greatest number on the grid. */
  method LastNumber(numberMap: seq<Location>, grid: seq<int>, w: int, h: int, first: int) returns (last: int)
    requires MapOk(numberMap, grid, w, h)
    requires 1 <= first <= |grid| && first in grid
    ensures first <= last <= |grid| && last in grid
    ensures forall m :: last < m <= |grid| ==> m !in grid
  {
    last := |grid|;
    while last >= first && numberMap[last].x == NoCoord
      invariant first <= last <= |grid|
      invariant forall m :: last < m <= |grid| ==> m !in grid
    {
      last := last - 1;
    }
  }

  /** The main loop of compute_gaps: the gaps between the first and the last number. */
  method GapsBetween(numberMap: seq<Location>, grid: seq<int>, w: int, h: int, first: int, last: int,
                     gaps: seq<Gap>, longest: int) returns (gaps': seq<Gap>, longest': int)
    requires MapOk(numberMap, grid, w, h)
    requires Bounds(grid, w, h, first, last) && LoopInv(gaps, longest, grid, w, h, first, last, first)
    ensures LoopInv(gaps', longest', grid, w, h, first, last, last + 1)
  {
    gaps', longest' := gaps, longest;
    var i := first;
    while i <= last
      // stated as an equation, so that the verifier takes the invariant as one fact
      invariant LoopInv(gaps', longest', grid, w, h, first, last, i) == true
    {
      gaps', longest' := GapsAt(numberMap, grid, w, h, first, last, i, gaps', longest');
      i := i + 1;
    }
  }

  /** One pass of compute_gaps's main loop: close the current gap at i, open the next one at i. */
  method GapsAt(numberMap: seq<Location>, grid: seq<int>, w: int, h: int, first: int, last: int, i: int,
                gaps: seq<Gap>, longest: int) returns (gaps': seq<Gap>, longest': int)
    requires MapOk(numberMap, grid, w, h)
    requires Bounds(grid, w, h, first, last) && LoopInv(gaps, longest, grid, w, h, first, last, i) && i <= last
    ensures LoopInv(gaps', longest', grid, w, h, first, last, i + 1)
  {
    gaps', longest' := gaps, longest;
    var loc := numberMap[i];
    // (i) is present and (i - 1) is not: the current gap ends at i
    if i > first && loc.x != NoCoord && numberMap[i - 1].x == NoCoord {
      CloseGap(gaps', longest', grid, w, h, first, last, i, loc);
      var gap := gaps'[|gaps'| - 1];
      gaps' := gaps'[|gaps'| - 1 := gap.(n2 := i, l2 := loc)];
      longest' := Max(longest', i - gap.n1 - 1);
    } else {
      NoCloseGap(gaps', longest', grid, w, h, first, last, i);
    }
    // (i) is present and (i + 1) is not: the next gap starts at i
    if i < last && loc.x != NoCoord && numberMap[i + 1].x == NoCoord {
      OpenGap(gaps', longest', grid, w, h, first, last, i, loc);
      gaps' := gaps' + [Gap(i, loc, 0, NoLocation)];
    } else {
      NoOpenGap(gaps', longest', grid, w, h, first, last, i);
    }
  }

  lemma NoTrailingGap(gaps: seq<Gap>, longest: int, grid: seq<int>, w: int, h: int, first: int, last: int)
    requires Bounds(grid, w, h, first, last) && LoopInv(gaps, longest, grid, w, h, first, last, last + 1)
    requires last == |grid|
    ensures IsGapList(gaps, grid, w, h) && longest == MaxGapLength(gaps)
  {
    NotPendingAtEnd(gaps, longest, grid, w, h, first, last);
  }

  /** After the main loop no gap is waiting for its upper end. */
  lemma NotPendingAtEnd(gaps: seq<Gap>, longest: int, grid: seq<int>, w: int, h: int, first: int, last: int)
    requires Bounds(grid, w, h, first, last) && LoopInv(gaps, longest, grid, w, h, first, last, last + 1)
    ensures !IsPending(gaps) && gaps[..Closed(gaps)] == gaps
  {
    if IsPending(gaps) {
      assert false;
    }
  }

  lemma TrailingGap(gaps: seq<Gap>, longest: int, grid: seq<int>, w: int, h: int, first: int, last: int, loc: Location, area: int)
    requires Bounds(grid, w, h, first, last) && LoopInv(gaps, longest, grid, w, h, first, last, last + 1)
    requires area == |grid| && last < area && Holds(grid, w, h, loc, last)
    requires forall m :: last < m <= |grid| ==> m !in grid
    ensures IsGapList(gaps + [Gap(last, loc, area + 1, NoLocation)], grid, w, h)
    ensures Max(longest, area - last) == MaxGapLength(gaps + [Gap(last, loc, area + 1, NoLocation)])
  {
    var gaps' := gaps + [Gap(last, loc, |grid| + 1, NoLocation)];
    HoldsIsReal(grid, w, h, loc, last);
    NotPendingAtEnd(gaps, longest, grid, w, h, first, last);
    assert gaps'[..|gaps|] == gaps;
    forall m | 1 <= m <= |grid| && m !in grid
      ensures exists j :: 0 <= j < |gaps'| && gaps'[j].n1 < m < gaps'[j].n2
    {
      if m <= last {
        var j :| 0 <= j < |gaps| && gaps[j].n1 < m && m < gaps[j].n2;
        assert gaps'[j] == gaps[j];
      } else {
        assert gaps'[|gaps|].n1 < m < gaps'[|gaps|].n2;
      }
    }
  }
}

module GapsExample {
  import opened Geometry
  import opened Gaps

  /** The 4 x 4 grid of the worked example beside compute_gaps. */
  function ExampleGrid(): seq<int>
  {
    [0, 5, 4, 0,
     0, 0, 0, 0,
     14, 0, 0, 9,
     13, 12, 11, 0]
  }

  /** The gap list that compute_gaps documents for the example grid. */
  function ExampleGaps(): seq<Gap>
  {
    [Gap(0, NoLocation, 4, Location(2, 0)),
     Gap(5, Location(1, 0), 9, Location(3, 2)),
     Gap(9, Location(3, 2), 11, Location(2, 3)),
     Gap(14, Location(0, 2), 17, NoLocation)]
  }

  /** The numbers on the example grid. */
  lemma ExampleNumbers()
    ensures forall m :: m in ExampleGrid() <==> m == 0 || m == 4 || m == 5 || m == 9 || 11 <= m <= 14
  {
    var grid := ExampleGrid();
    forall m | m in grid ensures m == 0 || m == 4 || m == 5 || m == 9 || 11 <= m <= 14 {
      var k :| 0 <= k < |grid| && grid[k] == m;
    }
    assert grid[0] == 0 && grid[2] == 4 && grid[1] == 5 && grid[11] == 9;
    assert grid[14] == 11 && grid[13] == 12 && grid[12] == 13 && grid[8] == 14;
  }

  /** Each documented gap is a gap of the example grid. */
  lemma ExampleGapsOk()
    ensures forall j :: 0 <= j < |ExampleGaps()| ==> GapOk(ExampleGaps()[j], ExampleGrid(), 4, 4)
  {
    ExampleNumbers();
  }

  /** The documented gaps cover every missing number. */
  lemma ExampleCovers()
    ensures Covers(ExampleGaps(), ExampleGrid(), 4, 4)
  {
    var grid := ExampleGrid();
    var gaps := ExampleGaps();
    ExampleNumbers();
    forall m | 1 <= m <= |grid| && m !in grid
      ensures exists j :: 0 <= j < |gaps| && gaps[j].n1 < m < gaps[j].n2
    {
      if m < 4 {
        assert gaps[0].n1 < m < gaps[0].n2;
      } else if m < 9 {
        assert gaps[1].n1 < m < gaps[1].n2;
      } else if m < 11 {
        assert gaps[2].n1 < m < gaps[2].n2;
      } else {
        assert gaps[3].n1 < m < gaps[3].n2;
      }
    }
  }

  /** The documented gaps are a gap list of the example grid, and the longest is 3 long. */
  lemma ExampleGapList()
    ensures ValidGrid(ExampleGrid(), 4, 4)
    ensures IsGapList(ExampleGaps(), ExampleGrid(), 4, 4)
    ensures MaxGapLength(ExampleGaps()) == 3
  {
    ExampleNumbers();
    ExampleGapsOk();
    ExampleCovers();
    var gaps := ExampleGaps();
    assert MaxGapLength(gaps[..1]) == 3 by {
      assert gaps[..1][..0] == [];
    }
    assert MaxGapLength(gaps[..2]) == 3 by {
      assert gaps[..2][..1] == gaps[..1];
    }
    assert MaxGapLength(gaps[..3]) == 3 by {
      assert gaps[..3][..2] == gaps[..2];
    }
    assert gaps[..3] == gaps[..|gaps| - 1];
  }
}
