/**
 * What the Hamilton solver keeps true of its state (a grid and a list of
 * gaps) while it places numbers: the gaps are exactly the runs of missing
 * numbers, every number stands on one square only, and consecutive numbers
 * stand on adjacent squares.  Placing a number at either end of a gap, as
 * place_number_l1 and place_number_l2 do when they succeed, keeps all of it.
 */
module Consistency {
  import opened Geometry
  import opened Gaps
  import opened Rules

  /** No two gaps share a missing number. */
  ghost predicate Disjoint(gaps: seq<Gap>)
  {
    forall a, b :: 0 <= a < |gaps| && 0 <= b < |gaps| && a != b ==>
      gaps[a].n2 <= gaps[b].n1 || gaps[b].n2 <= gaps[a].n1
  }

  /** The gaps are exactly the maximal runs of missing numbers, in any order. */
  ghost predicate IsGapSet(gaps: seq<Gap>, grid: seq<int>, w: int, h: int)
  {
    (forall j :: 0 <= j < |gaps| ==> GapOk(gaps[j], grid, w, h))
    && Disjoint(gaps) && Covers(gaps, grid, w, h)
  }

  /** Each number appears on one square only, and n and n + 1 stand on adjacent squares. */
  ghost predicate Consistent(grid: seq<int>, w: int, h: int, diagonal: bool)
  {
    |grid| == w * h
    && (forall a, b ::
          (InGrid(a, w, h) && InGrid(b, w, h) && At(grid, w, h, a) > 0 && At(grid, w, h, a) == At(grid, w, h, b))
          ==> a == b)
    && (forall a, b ::
          (InGrid(a, w, h) && InGrid(b, w, h) && At(grid, w, h, a) > 0 && At(grid, w, h, b) == At(grid, w, h, a) + 1)
          ==> Adjacent(a, b, diagonal))
  }

  /**
   * The solver state invariant: a grid of at most NUMBER_MAX squares whose
   * gaps are exactly its runs of missing numbers (in any order).
   */
  ghost predicate StateOk(grid: seq<int>, gaps: seq<Gap>, w: int, h: int)
  {
    ValidGrid(grid, w, h) && h <= CoordMax && |grid| <= NumberMax && IsGapSet(gaps, grid, w, h)
  }

  /** A solved grid: every number 1 .. area present, once each, consecutive numbers adjacent. */
  ghost predicate Solved(grid: seq<int>, w: int, h: int, diagonal: bool)
  {
    ValidGrid(grid, w, h) && (forall n :: 1 <= n <= |grid| ==> n in grid) && Consistent(grid, w, h, diagonal)
  }

  /** With no gap left, a consistent state is a solution. */
  lemma SolvedWhenNoGaps(grid: seq<int>, w: int, h: int, diagonal: bool)
    requires StateOk(grid, [], w, h) && Consistent(grid, w, h, diagonal)
    ensures Solved(grid, w, h, diagonal)
  {
  }

  /** b keeps every number of a on its square (b is a, with some empty squares filled). */
  ghost predicate Extends(a: seq<int>, b: seq<int>)
  {
    |a| == |b| && forall k :: 0 <= k < |a| && a[k] != 0 ==> b[k] == a[k]
  }

  /** The number of empty squares. */
  function ZeroCount(s: seq<int>): nat
  {
    if s == [] then 0 else (if s[|s| - 1] == 0 then 1 else 0) + ZeroCount(s[..|s| - 1])
  }

  /** Filling an empty square leaves one empty square fewer. */
  lemma {:induction false} ZeroCountFill(s: seq<int>, k: int, v: int)
    requires 0 <= k < |s| && s[k] == 0 && v != 0
    ensures ZeroCount(s[k := v]) == ZeroCount(s) - 1
  {
    var t := s[k := v];
    if k == |s| - 1 {
      assert t[..|t| - 1] == s[..|s| - 1];
    } else {
      assert t[..|t| - 1] == s[..|s| - 1][k := v];
      ZeroCountFill(s[..|s| - 1], k, v);
    }
  }

  /** Filling squares never adds empty squares. */
  lemma {:induction false} ZeroCountExtends(a: seq<int>, b: seq<int>)
    requires Extends(a, b)
    ensures ZeroCount(b) <= ZeroCount(a)
  {
    if a != [] {
      ZeroCountExtends(a[..|a| - 1], b[..|b| - 1]);
    }
  }

  /** The gap list with entry g taken out (the memmove of the placing functions). */
  function RemoveAt(gaps: seq<Gap>, g: int): (r: seq<Gap>)
    requires 0 <= g < |gaps|
    ensures |r| == |gaps| - 1
    ensures forall j :: 0 <= j < g ==> r[j] == gaps[j]
    ensures forall j :: g <= j < |r| ==> r[j] == gaps[j + 1]
  {
    gaps[..g] + gaps[g + 1..]
  }

  /**
   * place_number_l1's update of the gaps once n1 + 1 stands on c: the gap
   * goes if that closes it, otherwise only its lower end moves to c.
   */
  function RaiseGaps(gaps: seq<Gap>, g: int, c: Location): seq<Gap>
    requires 0 <= g < |gaps|
  {
    var gap := gaps[g];
    if gap.n1 + 2 == gap.n2 then RemoveAt(gaps, g)
    else gaps[g := Gap(gap.n1 + 1, c, gap.n2, gap.l2)]
  }

  /**
   * place_number_l2's update of the gaps once n2 - 1 stands on c: the gap
   * goes if that closes it, otherwise only its upper end moves to c.
   */
  function LowerGaps(gaps: seq<Gap>, g: int, c: Location): seq<Gap>
    requires 0 <= g < |gaps|
  {
    var gap := gaps[g];
    if gap.n2 - 2 == gap.n1 then RemoveAt(gaps, g)
    else gaps[g := Gap(gap.n1, gap.l1, gap.n2 - 1, c)]
  }

  /** The distance test of the placing functions: c is too far from the other anchored end. */
  predicate TooFar(c: Location, end: Location, gap: Gap, diagonal: bool)
  {
    end.x != NoCoord && Distance(c, end, diagonal) > gap.n2 - gap.n1 - 1
  }

  // ---------------------------------------------------------------------
  // Writing one number on an empty square
  // ---------------------------------------------------------------------

  lemma WriteMembers(grid: seq<int>, k: int, v: int)
    requires 0 <= k < |grid| && grid[k] == 0
    ensures forall m :: m in grid[k := v] ==> m in grid || m == v
    ensures forall m :: m in grid && m != 0 ==> m in grid[k := v]
  {
    var g' := grid[k := v];
    forall m | m in g' ensures m in grid || m == v {
      var i :| 0 <= i < |g'| && g'[i] == m;
      if i != k {
        assert grid[i] == m;
      }
    }
    forall m | m in grid && m != 0 ensures m in g' {
      var i :| 0 <= i < |grid| && grid[i] == m;
      assert g'[i] == m;
    }
  }

  /** A number other than 0 stays on its square when an empty square is written. */
  lemma HoldsAfterPut(grid: seq<int>, w: int, h: int, c: Location, v: int, l: Location, n: int)
    requires |grid| == w * h && InGrid(c, w, h) && At(grid, w, h, c) == 0
    requires Holds(grid, w, h, l, n) && n != 0
    ensures Holds(Put(grid, w, h, c, v), w, h, l, n)
  {
    IdxInRange(c, w, h);
    assert Idx(l, w) != Idx(c, w);
  }

  /** A gap whose numbers and anchors do not involve the written square stays a gap. */
  lemma GapOkAfterWrite(gap: Gap, grid: seq<int>, w: int, h: int, c: Location, v: int)
    requires |grid| == w * h && InGrid(c, w, h) && At(grid, w, h, c) == 0 && v >= 1
    requires GapOk(gap, grid, w, h) && !(gap.n1 < v < gap.n2)
    ensures GapOk(gap, Put(grid, w, h, c, v), w, h)
  {
    var g' := Put(grid, w, h, c, v);
    IdxInRange(c, w, h);
    WriteMembers(grid, Idx(c, w), v);
    if gap.n1 != 0 {
      HoldsAfterPut(grid, w, h, c, v, gap.l1, gap.n1);
    }
    if gap.n2 != |grid| + 1 {
      HoldsAfterPut(grid, w, h, c, v, gap.l2, gap.n2);
    }
    assert AnchorsOk(gap, g', w, h);
    forall m | gap.n1 < m < gap.n2 ensures m !in g' {
      assert m !in grid;
    }
  }

  /** Writing an absent number n on an empty square next to its neighbours in sequence keeps the grid consistent. */
  lemma ConsistentAfterWrite(grid: seq<int>, w: int, h: int, diagonal: bool, c: Location, n: int)
    requires Consistent(grid, w, h, diagonal) && InGrid(c, w, h) && At(grid, w, h, c) == 0
    requires n >= 1 && n !in grid
    requires forall a :: InGrid(a, w, h) && At(grid, w, h, a) == n - 1 && n - 1 > 0 ==> Adjacent(a, c, diagonal)
    requires forall b :: InGrid(b, w, h) && At(grid, w, h, b) == n + 1 ==> Adjacent(c, b, diagonal)
    ensures Consistent(Put(grid, w, h, c, n), w, h, diagonal)
  {
    var g' := Put(grid, w, h, c, n);
    IdxInRange(c, w, h);
    forall a | InGrid(a, w, h) ensures At(g', w, h, a) == if a == c then n else At(grid, w, h, a) {
      PutAt(grid, w, h, c, n, a);
    }
    forall a | InGrid(a, w, h) && a != c ensures At(grid, w, h, a) != n {
      IdxInRange(a, w, h);
      assert grid[Idx(a, w)] in grid;
    }
  }

  // ---------------------------------------------------------------------
  // place_number_l1
  // ---------------------------------------------------------------------

  /** Taking a gap out of a disjoint list leaves it disjoint. */
  lemma DisjointRemoveAt(gaps: seq<Gap>, g: int)
    requires Disjoint(gaps) && 0 <= g < |gaps|
    ensures Disjoint(RemoveAt(gaps, g))
  {
    var r := RemoveAt(gaps, g);
    forall a, b | 0 <= a < |r| && 0 <= b < |r| && a != b
      ensures r[a].n2 <= r[b].n1 || r[b].n2 <= r[a].n1
    {
      var a' := if a < g then a else a + 1;
      var b' := if b < g then b else b + 1;
      assert r[a] == gaps[a'] && r[b] == gaps[b'];
    }
  }

  /** Narrowing one gap of a disjoint list leaves it disjoint. */
  lemma DisjointNarrow(gaps: seq<Gap>, g: int, gap': Gap)
    requires Disjoint(gaps) && 0 <= g < |gaps|
    requires gaps[g].n1 <= gap'.n1 && gap'.n2 <= gaps[g].n2
    ensures Disjoint(gaps[g := gap'])
  {
  }

  /** Filling a square with a missing number n keeps the other gaps of the list. */
  lemma OthersAfterFill(grid: seq<int>, gaps: seq<Gap>, w: int, h: int, g: int, c: Location, n: int)
    requires IsGapSet(gaps, grid, w, h) && |grid| == w * h && 0 <= g < |gaps|
    requires InGrid(c, w, h) && At(grid, w, h, c) == 0 && gaps[g].n1 < n < gaps[g].n2
    ensures forall j :: 0 <= j < |gaps| && j != g ==> GapOk(gaps[j], Put(grid, w, h, c, n), w, h)
  {
    forall j | 0 <= j < |gaps| && j != g ensures GapOk(gaps[j], Put(grid, w, h, c, n), w, h) {
      assert !(gaps[j].n1 < n < gaps[j].n2);
      GapOkAfterWrite(gaps[j], grid, w, h, c, n);
    }
  }

  /** Dropping gap g keeps every missing number covered when the numbers of g are all present now. */
  lemma CoversRemoveAt(gaps: seq<Gap>, grid: seq<int>, grid': seq<int>, w: int, h: int, g: int)
    requires Covers(gaps, grid, w, h) && 0 <= g < |gaps| && |grid'| == |grid|
    requires forall m :: m in grid && m != 0 ==> m in grid'
    requires forall m :: gaps[g].n1 < m < gaps[g].n2 ==> m in grid'
    ensures Covers(RemoveAt(gaps, g), grid', w, h)
  {
    var r := RemoveAt(gaps, g);
    forall m | 1 <= m <= |grid'| && m !in grid'
      ensures exists j :: 0 <= j < |r| && r[j].n1 < m < r[j].n2
    {
      assert m !in grid;
      var j :| 0 <= j < |gaps| && gaps[j].n1 < m < gaps[j].n2;
      if j < g {
        assert r[j] == gaps[j];
      } else {
        assert r[j - 1] == gaps[j];
      }
    }
  }

  /** Narrowing gap g keeps every missing number covered when what it gives up is present now. */
  lemma CoversNarrow(gaps: seq<Gap>, grid: seq<int>, grid': seq<int>, w: int, h: int, g: int, gap': Gap)
    requires Covers(gaps, grid, w, h) && 0 <= g < |gaps| && |grid'| == |grid|
    requires forall m :: m in grid && m != 0 ==> m in grid'
    requires forall m :: gaps[g].n1 < m < gaps[g].n2 && m !in grid' ==> gap'.n1 < m < gap'.n2
    ensures Covers(gaps[g := gap'], grid', w, h)
  {
    var r := gaps[g := gap'];
    forall m | 1 <= m <= |grid'| && m !in grid'
      ensures exists j :: 0 <= j < |r| && r[j].n1 < m < r[j].n2
    {
      assert m !in grid;
      var j :| 0 <= j < |gaps| && gaps[j].n1 < m < gaps[j].n2;
      assert r[j].n1 < m < r[j].n2;
    }
  }

  /** Filling the one missing number of gap g: the list without g is the gap set of the new grid. */
  lemma FillCloses(grid: seq<int>, gaps: seq<Gap>, w: int, h: int, g: int, c: Location)
    requires IsGapSet(gaps, grid, w, h) && |grid| == w * h && 0 <= g < |gaps|
    requires InGrid(c, w, h) && At(grid, w, h, c) == 0 && gaps[g].n1 + 2 == gaps[g].n2
    ensures IsGapSet(RemoveAt(gaps, g), Put(grid, w, h, c, gaps[g].n1 + 1), w, h)
  {
    var n := gaps[g].n1 + 1;
    var g' := Put(grid, w, h, c, n);
    OthersAfterFill(grid, gaps, w, h, g, c, n);
    DisjointRemoveAt(gaps, g);
    IdxInRange(c, w, h);
    WriteMembers(grid, Idx(c, w), n);
    assert g'[Idx(c, w)] == n;
    CoversRemoveAt(gaps, grid, g', w, h, g);
  }

  /**
   * Filling n, the lowest or the highest missing number of gap g, when
   * gap' is g without n: the list with g replaced by gap' is the gap set of
   * the new grid.
   */
  lemma FillNarrows(grid: seq<int>, gaps: seq<Gap>, w: int, h: int, g: int, c: Location, n: int, gap': Gap)
    requires IsGapSet(gaps, grid, w, h) && |grid| == w * h && 0 <= g < |gaps|
    requires InGrid(c, w, h) && At(grid, w, h, c) == 0 && gaps[g].n1 < n < gaps[g].n2
    requires GapOk(gap', Put(grid, w, h, c, n), w, h)
    requires (gap'.n1 == n == gaps[g].n1 + 1 && gap'.n2 == gaps[g].n2)
          || (gap'.n1 == gaps[g].n1 && gap'.n2 == n == gaps[g].n2 - 1)
    ensures IsGapSet(gaps[g := gap'], Put(grid, w, h, c, n), w, h)
  {
    var g' := Put(grid, w, h, c, n);
    OthersAfterFill(grid, gaps, w, h, g, c, n);
    DisjointNarrow(gaps, g, gap');
    IdxInRange(c, w, h);
    WriteMembers(grid, Idx(c, w), n);
    assert g'[Idx(c, w)] == n;
    CoversNarrow(gaps, grid, g', w, h, g, gap');
  }

  /** The gap set after place_number_l1 writes n1 + 1 on c. */
  lemma GapsAfterRaise(grid: seq<int>, gaps: seq<Gap>, w: int, h: int, g: int, c: Location)
    requires IsGapSet(gaps, grid, w, h) && |grid| == w * h && 0 <= g < |gaps|
    requires InGrid(c, w, h) && At(grid, w, h, c) == 0 && w <= CoordMax
    ensures IsGapSet(RaiseGaps(gaps, g, c), Put(grid, w, h, c, gaps[g].n1 + 1), w, h)
  {
    var gap := gaps[g];
    var n := gap.n1 + 1;
    if gap.n1 + 2 == gap.n2 {
      FillCloses(grid, gaps, w, h, g, c);
    } else {
      var g' := Put(grid, w, h, c, n);
      var gap' := Gap(n, c, gap.n2, gap.l2);
      IdxInRange(c, w, h);
      WriteMembers(grid, Idx(c, w), n);
      assert GapOk(gap, grid, w, h);
      if gap.l2 != NoLocation {
        HoldsAfterPut(grid, w, h, c, n, gap.l2, gap.n2);
      }
      assert Holds(g', w, h, c, n);
      forall m | n < m < gap.n2 ensures m !in g' {
        assert m !in grid;
      }
      assert GapOk(gap', g', w, h);
      FillNarrows(grid, gaps, w, h, g, c, n, gap');
    }
  }

  /** The gap set after place_number_l2 writes n2 - 1 on c. */
  lemma GapsAfterLower(grid: seq<int>, gaps: seq<Gap>, w: int, h: int, g: int, c: Location)
    requires IsGapSet(gaps, grid, w, h) && |grid| == w * h && 0 <= g < |gaps|
    requires InGrid(c, w, h) && At(grid, w, h, c) == 0 && w <= CoordMax
    ensures IsGapSet(LowerGaps(gaps, g, c), Put(grid, w, h, c, gaps[g].n2 - 1), w, h)
  {
    var gap := gaps[g];
    var n := gap.n2 - 1;
    if gap.n2 - 2 == gap.n1 {
      FillCloses(grid, gaps, w, h, g, c);
    } else {
      var g' := Put(grid, w, h, c, n);
      var gap' := Gap(gap.n1, gap.l1, n, c);
      IdxInRange(c, w, h);
      WriteMembers(grid, Idx(c, w), n);
      assert GapOk(gap, grid, w, h);
      if gap.l1 != NoLocation {
        HoldsAfterPut(grid, w, h, c, n, gap.l1, gap.n1);
      }
      assert Holds(g', w, h, c, n);
      forall m | gap.n1 < m < n ensures m !in g' {
        assert m !in grid;
      }
      assert GapOk(gap', g', w, h);
      FillNarrows(grid, gaps, w, h, g, c, n, gap');
    }
  }

  /** Writing n1 + 1 on an empty square and raising the gap keeps the state invariant. */
  lemma RaisePreservesStateOk(grid: seq<int>, gaps: seq<Gap>, w: int, h: int, g: int, c: Location)
    requires StateOk(grid, gaps, w, h) && 0 <= g < |gaps|
    requires InGrid(c, w, h) && At(grid, w, h, c) == 0
    ensures StateOk(Put(grid, w, h, c, gaps[g].n1 + 1), RaiseGaps(gaps, g, c), w, h)
  {
    var g' := Put(grid, w, h, c, gaps[g].n1 + 1);
    GapsAfterRaise(grid, gaps, w, h, g, c);
    IdxInRange(c, w, h);
    forall k | 0 <= k < |g'| ensures 0 <= g'[k] <= w * h {
      if k != Idx(c, w) {
        assert g'[k] == grid[k];
      }
    }
  }

  /**
   * place_number_l1, when it succeeds, keeps a consistent grid consistent:
   * n1 + 1 is written on an empty square next to n1's and, by the distance
   * test, next to n2's square when that closes the gap.
   */
  lemma RaiseKeepsConsistent(grid: seq<int>, gaps: seq<Gap>, w: int, h: int, diagonal: bool, g: int, c: Location)
    requires StateOk(grid, gaps, w, h) && Consistent(grid, w, h, diagonal) && 0 <= g < |gaps|
    requires gaps[g].l1 != NoLocation
    requires InGrid(c, w, h) && At(grid, w, h, c) == 0 && Adjacent(gaps[g].l1, c, diagonal)
    requires !TooFar(c, gaps[g].l2, gaps[g], diagonal)
    ensures Consistent(Put(grid, w, h, c, gaps[g].n1 + 1), w, h, diagonal)
  {
    var gap := gaps[g];
    var n := gap.n1 + 1;
    assert GapOk(gap, grid, w, h);
    assert n !in grid;
    assert Holds(grid, w, h, gap.l1, gap.n1);
    forall a | InGrid(a, w, h) && At(grid, w, h, a) == n - 1 && n - 1 > 0 ensures Adjacent(a, c, diagonal) {
      assert a == gap.l1;
    }
    forall b | InGrid(b, w, h) && At(grid, w, h, b) == n + 1 ensures Adjacent(c, b, diagonal) {
      IdxInRange(b, w, h);
      assert grid[Idx(b, w)] in grid;
      assert gap.n2 == n + 1;
      assert Holds(grid, w, h, gap.l2, gap.n2);
      assert b == gap.l2;
      DistanceOneIffAdjacent(c, b, diagonal);
    }
    ConsistentAfterWrite(grid, w, h, diagonal, c, n);
  }

  // ---------------------------------------------------------------------
  // place_number_l2
  // ---------------------------------------------------------------------

  /** Writing n2 - 1 on an empty square and lowering the gap keeps the state invariant. */
  lemma LowerPreservesStateOk(grid: seq<int>, gaps: seq<Gap>, w: int, h: int, g: int, c: Location)
    requires StateOk(grid, gaps, w, h) && 0 <= g < |gaps|
    requires InGrid(c, w, h) && At(grid, w, h, c) == 0
    ensures StateOk(Put(grid, w, h, c, gaps[g].n2 - 1), LowerGaps(gaps, g, c), w, h)
  {
    var g' := Put(grid, w, h, c, gaps[g].n2 - 1);
    GapsAfterLower(grid, gaps, w, h, g, c);
    IdxInRange(c, w, h);
    forall k | 0 <= k < |g'| ensures 0 <= g'[k] <= w * h {
      if k != Idx(c, w) {
        assert g'[k] == grid[k];
      }
    }
  }

  /**
   * place_number_l2, when it succeeds, keeps a consistent grid consistent:
   * n2 - 1 is written on an empty square next to n2's and, by the distance
   * test, next to n1's square when that closes the gap.
   */
  lemma LowerKeepsConsistent(grid: seq<int>, gaps: seq<Gap>, w: int, h: int, diagonal: bool, g: int, c: Location)
    requires StateOk(grid, gaps, w, h) && Consistent(grid, w, h, diagonal) && 0 <= g < |gaps|
    requires gaps[g].l2 != NoLocation
    requires InGrid(c, w, h) && At(grid, w, h, c) == 0 && Adjacent(gaps[g].l2, c, diagonal)
    requires !TooFar(c, gaps[g].l1, gaps[g], diagonal)
    ensures Consistent(Put(grid, w, h, c, gaps[g].n2 - 1), w, h, diagonal)
  {
    var gap := gaps[g];
    var n := gap.n2 - 1;
    assert GapOk(gap, grid, w, h);
    assert n !in grid;
    assert Holds(grid, w, h, gap.l2, gap.n2);
    forall b | InGrid(b, w, h) && At(grid, w, h, b) == n + 1 ensures Adjacent(c, b, diagonal) {
      assert b == gap.l2;
      AdjacentSymmetric(gap.l2, c, diagonal);
    }
    forall a | InGrid(a, w, h) && At(grid, w, h, a) == n - 1 && n - 1 > 0 ensures Adjacent(a, c, diagonal) {
      IdxInRange(a, w, h);
      assert grid[Idx(a, w)] in grid;
      assert gap.n1 == n - 1;
      assert Holds(grid, w, h, gap.l1, gap.n1);
      assert a == gap.l1;
      DistanceSymmetric(c, a, diagonal);
      DistanceOneIffAdjacent(a, c, diagonal);
    }
    ConsistentAfterWrite(grid, w, h, diagonal, c, n);
  }

  // ---------------------------------------------------------------------
  // check_blocked_number and solutions
  // ---------------------------------------------------------------------

  /** A number present on the grid stands on some square. */
  lemma SquareOf(grid: seq<int>, w: int, h: int, m: int) returns (a: Location)
    requires |grid| == w * h && w > 0 && m in grid
    ensures InGrid(a, w, h) && At(grid, w, h, a) == m
  {
    var i :| 0 <= i < |grid| && grid[i] == m;
    IdxOfLocOf(i, w, h);
    a := LocOf(i, w);
  }

  /**
   * check_blocked_number, with the threshold of one for the path ends,
   * never reports a number blocked on a grid that some solution extends.
   */
  lemma CheckBlockedNumberSound(grid: seq<int>, s: seq<int>, w: int, h: int, diagonal: bool, l: Location)
    requires |grid| == w * h && InGrid(l, w, h) && At(grid, w, h, l) > 0
    requires Solved(s, w, h, diagonal) && Extends(grid, s)
    ensures !CheckBlockedNumber(grid, w, h, diagonal, l)
  {
    var n := At(grid, w, h, l);
    var cells := Around(l, w, h, diagonal);
    IdxInRange(l, w, h);
    assert At(s, w, h, l) == n;
    AroundSpec(l, w, h, diagonal);
    AvailableAtLeastTwo(grid, w, h, cells, n);
    if n > 1 {
      var a := SquareOf(s, w, h, n - 1);
      IdxInRange(a, w, h);
      AdjacentSymmetric(a, l, diagonal);
      assert Usable(At(grid, w, h, a), n) && a in cells;
      if n < |grid| {
        var b := SquareOf(s, w, h, n + 1);
        IdxInRange(b, w, h);
        assert Usable(At(grid, w, h, b), n) && b in cells;
      }
    } else if n < |grid| {
      var b := SquareOf(s, w, h, n + 1);
      IdxInRange(b, w, h);
      assert Usable(At(grid, w, h, b), n) && b in cells;
    }
  }

  // ---------------------------------------------------------------------
  // Solutions of a partly filled grid
  // ---------------------------------------------------------------------

  /** s is a solution of the puzzle that keeps every number of grid on its square. */
  ghost predicate Completes(grid: seq<int>, s: seq<int>, w: int, h: int, diagonal: bool)
  {
    Solved(s, w, h, diagonal) && Extends(grid, s)
  }

  /** Along a solution, the numbers p < q stand at most q - p squares apart. */
  lemma {:induction false} PathDistance(s: seq<int>, w: int, h: int, diagonal: bool, a: Location, b: Location)
    requires Solved(s, w, h, diagonal) && InGrid(a, w, h) && InGrid(b, w, h)
    requires 0 < At(s, w, h, a) <= At(s, w, h, b)
    ensures Distance(a, b, diagonal) <= At(s, w, h, b) - At(s, w, h, a)
    decreases At(s, w, h, b) - At(s, w, h, a)
  {
    IdxInRange(b, w, h);
    if At(s, w, h, a) < At(s, w, h, b) {
      var c := SquareOf(s, w, h, At(s, w, h, a) + 1);
      PathDistance(s, w, h, diagonal, c, b);
      DistanceOneIffAdjacent(a, c, diagonal);
      DistanceTriangle(a, c, b, diagonal);
    }
  }

  /** Writing on a square the number a solution has there keeps the solution. */
  lemma PutCompletes(grid: seq<int>, s: seq<int>, w: int, h: int, diagonal: bool, c: Location)
    requires |grid| == w * h && InGrid(c, w, h) && Completes(grid, s, w, h, diagonal)
    ensures Completes(Put(grid, w, h, c, At(s, w, h, c)), s, w, h, diagonal)
  {
    IdxInRange(c, w, h);
  }

  /** A square a solution fills with a number missing from the grid is empty on the grid. */
  lemma MissingIsEmpty(grid: seq<int>, s: seq<int>, w: int, h: int, diagonal: bool, c: Location)
    requires |grid| == w * h && InGrid(c, w, h) && Completes(grid, s, w, h, diagonal)
    requires At(s, w, h, c) !in grid
    ensures At(grid, w, h, c) == 0
  {
    IdxInRange(c, w, h);
  }

  /** The index of some square holding m. */
  ghost function IndexOf(s: seq<int>, m: int): (k: int)
    requires m in s
    ensures 0 <= k < |s| && s[k] == m
  {
    var k :| 0 <= k < |s| && s[k] == m; k
  }

  /**
   * Pigeonhole over the numbers: a grid of area squares holding each of
   * 1 .. area has no empty square and no number twice.
   */
  lemma FullGridDistinct(s: seq<int>)
    requires forall k :: 0 <= k < |s| ==> 0 <= s[k] <= |s|
    requires forall n :: 1 <= n <= |s| ==> n in s
    ensures forall k :: 0 <= k < |s| ==> s[k] != 0
    ensures forall i, j :: 0 <= i < |s| && 0 <= j < |s| && s[i] == s[j] ==> i == j
  {
    var q := seq(|s|, n requires 0 <= n < |s| => IndexOf(s, n + 1));
    var all := seq(|s|, k requires 0 <= k < |s| => k);
    SetOfDistinct(q);
    SetOfDistinct(all);
    var held := set n | 0 <= n < |q| :: q[n];
    var squares := set k | 0 <= k < |all| :: all[k];
    forall k | k in held ensures k in squares {
      var n :| 0 <= n < |q| && q[n] == k;
      assert all[k] == k;
    }
    SubsetEqualCard(held, squares);
    forall k | 0 <= k < |s| ensures exists n :: 0 <= n < |q| && q[n] == k && s[k] == n + 1 {
      assert all[k] == k && k in squares;
    }
  }

  /** A grid with no empty square extends only to itself. */
  lemma FullExtendsEqual(a: seq<int>, b: seq<int>)
    requires Extends(a, b) && forall k :: 0 <= k < |a| ==> a[k] != 0
    ensures a == b
  {
    assert forall k :: 0 <= k < |a| ==> a[k] == b[k];
  }

  /** Whatever extends b extends everything b extends. */
  lemma ExtendsThrough(a: seq<int>, b: seq<int>, c: seq<int>)
    requires Extends(a, b)
    ensures Extends(b, c) ==> Extends(a, c)
  {
  }

  /** In a completed grid, a number stands on one square only. */
  lemma SameNumberSameSquare(s: seq<int>, w: int, h: int, a: Location, b: Location)
    requires StateOk(s, [], w, h) && InGrid(a, w, h) && InGrid(b, w, h)
    ensures At(s, w, h, a) == At(s, w, h, b) ==> a == b
  {
    IdxInRange(a, w, h);
    IdxInRange(b, w, h);
    FullGridDistinct(s);
    if At(s, w, h, a) == At(s, w, h, b) {
      IdxInjective(a, b, w, h);
    }
  }

  /** Writing v != 0 on an empty square: s extends the result exactly when it extends the grid and has v there. */
  lemma ExtendsPut(grid: seq<int>, s: seq<int>, w: int, h: int, c: Location, v: int)
    requires |grid| == w * h && InGrid(c, w, h) && At(grid, w, h, c) == 0 && v != 0
    ensures Extends(Put(grid, w, h, c, v), s) <==> Extends(grid, s) && At(s, w, h, c) == v
  {
    IdxInRange(c, w, h);
  }
}
