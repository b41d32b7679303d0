/**
 * The local rules of the Hamilton solver (hamilton.c): the only empty square
 * around a gap end (find_only_move), numbers left without enough free
 * neighbours (check_blocked_number), and gaps whose anchors are so placed
 * that only a straight run of numbers can join them (do_straight_path).
 * Grids are read as values here; the solver state applies the rules.
 */
module Rules {
  import opened Wrappers
  import opened Geometry
  import opened Gaps

  /** The number on square l of a w-wide row-major grid. */
  function At(grid: seq<int>, w: int, h: int, l: Location): int
    requires |grid| == w * h && InGrid(l, w, h)
  {
    IdxInRange(l, w, h);
    grid[Idx(l, w)]
  }

  /** The grid with v written on square l. */
  function Put(grid: seq<int>, w: int, h: int, l: Location, v: int): (r: seq<int>)
    requires |grid| == w * h && InGrid(l, w, h)
    ensures |r| == |grid|
  {
    IdxInRange(l, w, h);
    grid[Idx(l, w) := v]
  }

  /** After Put, square l reads v and every other square reads as before. */
  lemma PutAt(grid: seq<int>, w: int, h: int, l: Location, v: int, a: Location)
    requires |grid| == w * h && InGrid(l, w, h) && InGrid(a, w, h)
    ensures At(Put(grid, w, h, l, v), w, h, a) == if a == l then v else At(grid, w, h, a)
  {
    IdxInRange(l, w, h);
    IdxInRange(a, w, h);
    if Idx(a, w) == Idx(l, w) {
      IdxInjective(a, l, w, h);
    }
  }

  /** The in-grid squares around l, in the order find_only_move and check_blocked_number test them. */
  function Around(l: Location, w: int, h: int, diagonal: bool): (r: seq<Location>)
    ensures forall c :: c in r ==> InGrid(c, w, h)
  {
    NeighboursInOrder(l, w, h, ScanOrder(diagonal))
  }

  /** Around lists each in-grid square adjacent to l exactly once. */
  lemma AroundSpec(l: Location, w: int, h: int, diagonal: bool)
    ensures forall c :: c in Around(l, w, h, diagonal) <==> InGrid(c, w, h) && Adjacent(l, c, diagonal)
    ensures var r := Around(l, w, h, diagonal);
      forall i, j :: 0 <= i < j < |r| ==> r[i] != r[j]
  {
    OrdersAreOffsetOrders(diagonal);
    NeighboursInOrderSpec(l, w, h, ScanOrder(diagonal), diagonal);
  }

  // ---------------------------------------------------------------------
  // find_only_move
  // ---------------------------------------------------------------------

  /**
   * find_only_move_helper applied to each square in turn: the empty square
   * met so far, or NoLocation once a second empty square shows up.
   */
  function OnlyEmpty(grid: seq<int>, w: int, h: int, cells: seq<Location>, found: Location): (r: Location)
    requires |grid| == w * h && forall c :: c in cells ==> InGrid(c, w, h)
    ensures r == found || r == NoLocation || r in cells
  {
    if cells == [] then found
    else if At(grid, w, h, cells[0]) == 0 then
      if found.x != NoCoord then NoLocation
      else OnlyEmpty(grid, w, h, cells[1..], cells[0])
    else OnlyEmpty(grid, w, h, cells[1..], found)
  }

  /** find_only_move: the square next to l that is the only empty one, if there is exactly one. */
  function FindOnlyMove(grid: seq<int>, w: int, h: int, diagonal: bool, l: Location): (r: Option<Location>)
    requires |grid| == w * h
    ensures r.Some? ==> InGrid(r.value, w, h)
  {
    var c := OnlyEmpty(grid, w, h, Around(l, w, h, diagonal), NoLocation);
    if c.x != NoCoord then Some(c) else None
  }

  /** An empty in-grid square adjacent to l. */
  ghost predicate EmptyNeighbour(grid: seq<int>, w: int, h: int, diagonal: bool, l: Location, c: Location)
    requires |grid| == w * h
  {
    InGrid(c, w, h) && Adjacent(l, c, diagonal) && At(grid, w, h, c) == 0
  }

  /** c is the one and only empty square next to l. */
  ghost predicate OnlyEmptyNeighbour(grid: seq<int>, w: int, h: int, diagonal: bool, l: Location, c: Location)
    requires |grid| == w * h
  {
    EmptyNeighbour(grid, w, h, diagonal, l, c)
    && forall d :: EmptyNeighbour(grid, w, h, diagonal, l, d) ==> d == c
  }

  /** Once an empty square has been found, any further empty square spoils the scan. */
  lemma {:induction false} OnlyEmptyAfterFound(grid: seq<int>, w: int, h: int, cells: seq<Location>, found: Location)
    requires |grid| == w * h && forall c :: c in cells ==> InGrid(c, w, h)
    requires found.x != NoCoord
    ensures OnlyEmpty(grid, w, h, cells, found)
      == if exists c :: c in cells && At(grid, w, h, c) == 0 then NoLocation else found
  {
    if cells != [] {
      OnlyEmptyAfterFound(grid, w, h, cells[1..], found);
      assert forall c :: c in cells <==> c == cells[0] || c in cells[1..];
    }
  }

  /** Starting with nothing found, the scan ends on a square exactly when the list has one empty square. */
  lemma {:induction false} OnlyEmptyFromStart(grid: seq<int>, w: int, h: int, cells: seq<Location>)
    requires w <= CoordMax && |grid| == w * h && forall c :: c in cells ==> InGrid(c, w, h)
    requires forall i, j :: 0 <= i < j < |cells| ==> cells[i] != cells[j]
    ensures var r := OnlyEmpty(grid, w, h, cells, NoLocation);
      (r.x != NoCoord ==> r in cells && At(grid, w, h, r) == 0
                           && forall d :: d in cells && At(grid, w, h, d) == 0 ==> d == r)
      && (r.x == NoCoord ==> r == NoLocation
                             && forall c :: c in cells && At(grid, w, h, c) == 0 ==>
                                  exists d :: d in cells && At(grid, w, h, d) == 0 && d != c)
  {
    if cells != [] {
      var c0 := cells[0];
      var rest := cells[1..];
      assert forall c :: c in cells <==> c == c0 || c in rest;
      assert c0 !in rest by {
        forall i | 0 <= i < |rest| ensures rest[i] != c0 {
          assert rest[i] == cells[i + 1];
        }
      }
      forall i, j | 0 <= i < j < |rest| ensures rest[i] != rest[j] {
        assert rest[i] == cells[i + 1] && rest[j] == cells[j + 1];
      }
      if At(grid, w, h, c0) == 0 {
        OnlyEmptyAfterFound(grid, w, h, rest, c0);
      } else {
        OnlyEmptyFromStart(grid, w, h, rest);
      }
    }
  }

  /** When find_only_move answers TRUE, the square it names is the only empty one next to l. */
  lemma FindOnlyMoveSound(grid: seq<int>, w: int, h: int, diagonal: bool, l: Location)
    requires w <= CoordMax && |grid| == w * h
    requires FindOnlyMove(grid, w, h, diagonal, l).Some?
    ensures OnlyEmptyNeighbour(grid, w, h, diagonal, l, FindOnlyMove(grid, w, h, diagonal, l).value)
  {
    var cells := Around(l, w, h, diagonal);
    AroundSpec(l, w, h, diagonal);
    OnlyEmptyFromStart(grid, w, h, cells);
    var r := OnlyEmpty(grid, w, h, cells, NoLocation);
    assert r in cells;
    forall d | EmptyNeighbour(grid, w, h, diagonal, l, d) ensures d == r {
      assert d in cells;
    }
  }

  /** When exactly one square next to l is empty, find_only_move finds it. */
  lemma FindOnlyMoveComplete(grid: seq<int>, w: int, h: int, diagonal: bool, l: Location, c: Location)
    requires w <= CoordMax && |grid| == w * h
    requires OnlyEmptyNeighbour(grid, w, h, diagonal, l, c)
    ensures FindOnlyMove(grid, w, h, diagonal, l) == Some(c)
  {
    AroundSpec(l, w, h, diagonal);
    OnlyEmptyFindsOnly(grid, w, h, diagonal, l, Around(l, w, h, diagonal), c);
  }

  /** The scan over a list holding each neighbour of l once ends on the only empty neighbour. */
  lemma OnlyEmptyFindsOnly(grid: seq<int>, w: int, h: int, diagonal: bool, l: Location, cells: seq<Location>, c: Location)
    requires w <= CoordMax && |grid| == w * h
    requires forall x :: x in cells <==> InGrid(x, w, h) && Adjacent(l, x, diagonal)
    requires forall i, j :: 0 <= i < j < |cells| ==> cells[i] != cells[j]
    requires OnlyEmptyNeighbour(grid, w, h, diagonal, l, c)
    ensures OnlyEmpty(grid, w, h, cells, NoLocation) == c
  {
    OnlyEmptyListed(grid, w, h, diagonal, l, cells, c);
    OnlyEmptyUnique(grid, w, h, cells, c);
  }

  /** The only empty neighbour of l is the only empty square of a list of l's neighbours. */
  lemma OnlyEmptyListed(grid: seq<int>, w: int, h: int, diagonal: bool, l: Location, cells: seq<Location>, c: Location)
    requires |grid| == w * h
    requires forall x :: x in cells <==> InGrid(x, w, h) && Adjacent(l, x, diagonal)
    requires OnlyEmptyNeighbour(grid, w, h, diagonal, l, c)
    ensures c in cells && At(grid, w, h, c) == 0
    ensures forall d :: d in cells && At(grid, w, h, d) == 0 ==> d == c
  {
    forall d | d in cells && At(grid, w, h, d) == 0 ensures d == c {
      NeighbourListed(grid, w, h, diagonal, l, cells, d);
    }
  }

  /** The scan ends on the one empty square of a list without repeats. */
  lemma OnlyEmptyUnique(grid: seq<int>, w: int, h: int, cells: seq<Location>, c: Location)
    requires w <= CoordMax && |grid| == w * h && forall x :: x in cells ==> InGrid(x, w, h)
    requires forall i, j :: 0 <= i < j < |cells| ==> cells[i] != cells[j]
    requires c in cells && At(grid, w, h, c) == 0
    requires forall d :: d in cells && At(grid, w, h, d) == 0 ==> d == c
    ensures OnlyEmpty(grid, w, h, cells, NoLocation) == c
  {
    OnlyEmptyFromStart(grid, w, h, cells);
  }

  /** An empty square of a list of l's neighbours is an empty neighbour of l. */
  lemma NeighbourListed(grid: seq<int>, w: int, h: int, diagonal: bool, l: Location, cells: seq<Location>, d: Location)
    requires |grid| == w * h
    requires forall x :: x in cells <==> InGrid(x, w, h) && Adjacent(l, x, diagonal)
    requires d in cells && At(grid, w, h, d) == 0
    ensures EmptyNeighbour(grid, w, h, diagonal, l, d)
  {
  }

  /**
   * find_only_move answers TRUE exactly when one square next to l is empty,
   * and then it names that square.
   */
  lemma FindOnlyMoveSpec(grid: seq<int>, w: int, h: int, diagonal: bool, l: Location, c: Location)
    requires w <= CoordMax && |grid| == w * h
    ensures FindOnlyMove(grid, w, h, diagonal, l) == Some(c) <==> OnlyEmptyNeighbour(grid, w, h, diagonal, l, c)
  {
    if FindOnlyMove(grid, w, h, diagonal, l) == Some(c) {
      FindOnlyMoveSound(grid, w, h, diagonal, l);
    }
    if OnlyEmptyNeighbour(grid, w, h, diagonal, l, c) {
      FindOnlyMoveComplete(grid, w, h, diagonal, l, c);
    }
  }

  /** find_only_move answers FALSE when no square next to l is empty, or when two are. */
  lemma FindOnlyMoveNone(grid: seq<int>, w: int, h: int, diagonal: bool, l: Location)
    requires w <= CoordMax && |grid| == w * h
    ensures FindOnlyMove(grid, w, h, diagonal, l) == None <==>
      forall c :: EmptyNeighbour(grid, w, h, diagonal, l, c) ==>
        exists d :: EmptyNeighbour(grid, w, h, diagonal, l, d) && d != c
  {
    var cells := Around(l, w, h, diagonal);
    AroundSpec(l, w, h, diagonal);
    OnlyEmptyFromStart(grid, w, h, cells);
    var r := OnlyEmpty(grid, w, h, cells, NoLocation);
    if r.x != NoCoord {
      assert EmptyNeighbour(grid, w, h, diagonal, l, r);
      forall d | EmptyNeighbour(grid, w, h, diagonal, l, d) ensures d == r {
        assert d in cells;
      }
    } else {
      forall c | EmptyNeighbour(grid, w, h, diagonal, l, c)
        ensures exists d :: EmptyNeighbour(grid, w, h, diagonal, l, d) && d != c
      {
        assert c in cells;
        var d :| d in cells && At(grid, w, h, d) == 0 && d != c;
        assert EmptyNeighbour(grid, w, h, diagonal, l, d);
      }
    }
  }

  // ---------------------------------------------------------------------
  // check_blocked_number
  // ---------------------------------------------------------------------

  /** check_blocked_number_helper's test: the square is empty or holds a neighbouring number of n. */
  predicate Usable(o: int, n: int)
  {
    o == 0 || o == n - 1 || o == n + 1
  }

  /** How many of the squares are usable by n (the count check_blocked_number accumulates). */
  function Available(grid: seq<int>, w: int, h: int, cells: seq<Location>, n: int): nat
    requires |grid| == w * h && forall c :: c in cells ==> InGrid(c, w, h)
  {
    if cells == [] then 0
    else (if Usable(At(grid, w, h, cells[0]), n) then 1 else 0) + Available(grid, w, h, cells[1..], n)
  }

  /**
   * check_blocked_number as written: the number on l has fewer than two
   * usable squares around it.  The same threshold applies to every number,
   * the path ends 1 and area included.
   */
  predicate CheckBlockedNumberAsWritten(grid: seq<int>, w: int, h: int, diagonal: bool, l: Location)
    requires |grid| == w * h && InGrid(l, w, h) && At(grid, w, h, l) > 0
    ensures 1 < At(grid, w, h, l) < |grid| ==>
              (CheckBlockedNumberAsWritten(grid, w, h, diagonal, l) <==> CheckBlockedNumber(grid, w, h, diagonal, l))
  {
    Available(grid, w, h, Around(l, w, h, diagonal), At(grid, w, h, l)) < 2
  }

  /**
   * How many usable squares the number n needs: one for each of n - 1 and
   * n + 1 that lies within 1 .. area (so one for the path ends 1 and area).
   */
  function Needed(n: int, area: int): int
  {
    (if n > 1 then 1 else 0) + (if n < area then 1 else 0)
  }

  /**
   * check_blocked_number as its documentation describes it: the number on l
   * has fewer usable squares around it than it needs.
   */
  predicate CheckBlockedNumber(grid: seq<int>, w: int, h: int, diagonal: bool, l: Location)
    requires |grid| == w * h && InGrid(l, w, h) && At(grid, w, h, l) > 0
    ensures CheckBlockedNumber(grid, w, h, diagonal, l) ==> Available(grid, w, h, Around(l, w, h, diagonal), At(grid, w, h, l)) < 2
    ensures At(grid, w, h, l) == 1 < |grid| ==>
              (CheckBlockedNumber(grid, w, h, diagonal, l) <==> Available(grid, w, h, Around(l, w, h, diagonal), 1) == 0)
  {
    Available(grid, w, h, Around(l, w, h, diagonal), At(grid, w, h, l)) < Needed(At(grid, w, h, l), |grid|)
  }

  /** A square next to l that the number n could use. */
  ghost predicate UsableNeighbour(grid: seq<int>, w: int, h: int, diagonal: bool, l: Location, n: int, c: Location)
    requires |grid| == w * h
  {
    InGrid(c, w, h) && Adjacent(l, c, diagonal) && Usable(At(grid, w, h, c), n)
  }

  /** A list of distinct squares has at least two usable ones exactly when the count reaches 2. */
  lemma {:induction false} AvailableAtLeastTwo(grid: seq<int>, w: int, h: int, cells: seq<Location>, n: int)
    requires |grid| == w * h && forall c :: c in cells ==> InGrid(c, w, h)
    requires forall i, j :: 0 <= i < j < |cells| ==> cells[i] != cells[j]
    ensures Available(grid, w, h, cells, n) >= 1 <==> exists a :: a in cells && Usable(At(grid, w, h, a), n)
    ensures Available(grid, w, h, cells, n) >= 2 <==>
      exists a, b :: a in cells && b in cells && a != b
                     && Usable(At(grid, w, h, a), n) && Usable(At(grid, w, h, b), n)
  {
    if cells != [] {
      var c0 := cells[0];
      var rest := cells[1..];
      assert forall c :: c in cells <==> c == c0 || c in rest;
      assert c0 !in rest by {
        forall i | 0 <= i < |rest| ensures rest[i] != c0 {
          assert rest[i] == cells[i + 1];
        }
      }
      forall i, j | 0 <= i < j < |rest| ensures rest[i] != rest[j] {
        assert rest[i] == cells[i + 1] && rest[j] == cells[j + 1];
      }
      AvailableAtLeastTwo(grid, w, h, rest, n);
    }
  }

  /** check_blocked_number as written reports "blocked" exactly when no two distinct squares next to l are usable. */
  lemma CheckBlockedNumberAsWrittenSpec(grid: seq<int>, w: int, h: int, diagonal: bool, l: Location)
    requires |grid| == w * h && InGrid(l, w, h) && At(grid, w, h, l) > 0
    ensures CheckBlockedNumberAsWritten(grid, w, h, diagonal, l) <==>
      forall a, b :: (UsableNeighbour(grid, w, h, diagonal, l, At(grid, w, h, l), a)
                      && UsableNeighbour(grid, w, h, diagonal, l, At(grid, w, h, l), b)) ==> a == b
  {
    var n := At(grid, w, h, l);
    var cells := Around(l, w, h, diagonal);
    AroundSpec(l, w, h, diagonal);
    AvailableAtLeastTwo(grid, w, h, cells, n);
    if CheckBlockedNumberAsWritten(grid, w, h, diagonal, l) {
      forall a, b | UsableNeighbour(grid, w, h, diagonal, l, n, a) && UsableNeighbour(grid, w, h, diagonal, l, n, b)
        ensures a == b
      {
        assert a in cells && b in cells;
      }
    } else {
      var a, b :| a in cells && b in cells && a != b && Usable(At(grid, w, h, a), n) && Usable(At(grid, w, h, b), n);
      assert UsableNeighbour(grid, w, h, diagonal, l, n, a) && UsableNeighbour(grid, w, h, diagonal, l, n, b);
    }
  }

  /** For the path ends, check_blocked_number (as documented) reports "blocked" exactly when no square next to l is usable. */
  lemma CheckBlockedEndSpec(grid: seq<int>, w: int, h: int, diagonal: bool, l: Location)
    requires |grid| == w * h && InGrid(l, w, h) && At(grid, w, h, l) > 0
    requires At(grid, w, h, l) == 1 || At(grid, w, h, l) == |grid|
    requires |grid| >= 2
    ensures CheckBlockedNumber(grid, w, h, diagonal, l) <==>
      forall a :: !UsableNeighbour(grid, w, h, diagonal, l, At(grid, w, h, l), a)
  {
    var n := At(grid, w, h, l);
    var cells := Around(l, w, h, diagonal);
    AroundSpec(l, w, h, diagonal);
    AvailableAtLeastTwo(grid, w, h, cells, n);
    if !CheckBlockedNumber(grid, w, h, diagonal, l) {
      var a :| a in cells && Usable(At(grid, w, h, a), n);
      assert UsableNeighbour(grid, w, h, diagonal, l, n, a);
    }
  }

  /** For the other numbers, check_blocked_number (as documented) is the check as written. */
  lemma CheckBlockedMiddleSpec(grid: seq<int>, w: int, h: int, diagonal: bool, l: Location)
    requires |grid| == w * h && InGrid(l, w, h) && 1 < At(grid, w, h, l) < |grid|
    ensures CheckBlockedNumber(grid, w, h, diagonal, l) <==>
      forall a, b :: (UsableNeighbour(grid, w, h, diagonal, l, At(grid, w, h, l), a)
                      && UsableNeighbour(grid, w, h, diagonal, l, At(grid, w, h, l), b)) ==> a == b
  {
    CheckBlockedNumberAsWrittenSpec(grid, w, h, diagonal, l);
  }

  // ---------------------------------------------------------------------
  // do_straight_path's test
  // ---------------------------------------------------------------------

  /**
   * The test do_straight_path makes on the raw anchor coordinates (an open
   * end is (NO_COORD, NO_COORD)): the anchors lie on one diagonal (with
   * diagonal moves) or on one row or column (without), and the gap's numbers
   * are exactly as far apart as the anchors.
   */
  predicate StraightApplies(g: Gap, diagonal: bool)
  {
    if diagonal then
      var dx := g.l2.x - g.l1.x;
      var dy := g.l2.y - g.l1.y;
      (dx == dy || dx == -dy) && g.n2 - g.n1 == Abs(dx)
    else if g.l1.x == g.l2.x then g.n2 - g.n1 == Abs(g.l2.y - g.l1.y)
    else if g.l1.y == g.l2.y then g.n2 - g.n1 == Abs(g.l2.x - g.l1.x)
    else false
  }

  /** Anchors in line for the mode: on one diagonal with diagonal moves, on one row or column without. */
  predicate Aligned(a: Location, b: Location, diagonal: bool)
  {
    if diagonal then Abs(b.x - a.x) == Abs(b.y - a.y) else a.x == b.x || a.y == b.y
  }

  /**
   * For anchored ends, do_straight_path's test is: anchors in line and the
   * gap's numbers as far apart as the anchors.
   */
  lemma StraightAppliesIff(g: Gap, diagonal: bool)
    ensures StraightApplies(g, diagonal) <==>
      Aligned(g.l1, g.l2, diagonal) && g.n2 - g.n1 == Distance(g.l1, g.l2, diagonal)
  {
  }

  /** The unit step do_straight_path walks from l1 towards l2. */
  function StraightStep(g: Gap, diagonal: bool): (int, int)
  {
    if diagonal then
      (if g.l2.x - g.l1.x > 0 then 1 else -1, if g.l2.y - g.l1.y > 0 then 1 else -1)
    else if g.l1.x == g.l2.x then (0, if g.l2.y - g.l1.y > 0 then 1 else -1)
    else (if g.l2.x - g.l1.x > 0 then 1 else -1, 0)
  }

  /** a moved k times by the unit step s (s is -1, 0 or 1). */
  function Along(a: int, s: int, k: int): int
  {
    if s > 0 then a + k else if s < 0 then a - k else a
  }

  /** The square do_straight_path reaches after k steps from l1. */
  function LineSquare(g: Gap, diagonal: bool, k: int): Location
  {
    var s := StraightStep(g, diagonal);
    Location(Along(g.l1.x, s.0, k), Along(g.l1.y, s.1, k))
  }

  /**
   * When do_straight_path's test passes on two squares of the grid, the walk
   * from l1 reaches l2 after n2 - n1 unit steps through squares of the grid,
   * each one step closer to l2, all distinct.
   */
  lemma StraightLine(g: Gap, diagonal: bool, w: int, h: int)
    requires StraightApplies(g, diagonal) && g.n1 < g.n2 && InGrid(g.l1, w, h) && InGrid(g.l2, w, h)
    ensures LineSquare(g, diagonal, g.n2 - g.n1) == g.l2
    ensures forall k :: 0 <= k <= g.n2 - g.n1 ==>
      InGrid(LineSquare(g, diagonal, k), w, h)
      && Distance(LineSquare(g, diagonal, k), g.l2, diagonal) == g.n2 - g.n1 - k
    ensures forall k :: 0 <= k < g.n2 - g.n1 ==>
      Adjacent(LineSquare(g, diagonal, k), LineSquare(g, diagonal, k + 1), diagonal)
    ensures forall k, k' :: 0 <= k < k' <= g.n2 - g.n1 ==> LineSquare(g, diagonal, k) != LineSquare(g, diagonal, k')
  {
  }

  /**
   * On a grid of at most 99 squares (and sides below NO_COORD), the test of
   * do_straight_path never passes for a gap with an open end: the sentinel
   * coordinate 255 is too far from every square.
   */
  lemma StraightOnlyAnchored(g: Gap, diagonal: bool, w: int, h: int)
    requires w * h <= NumberMax && 1 <= w && 1 <= h
    requires 0 <= g.n1 && g.n1 + 1 < g.n2 <= w * h + 1
    requires g.l1 == NoLocation || InGrid(g.l1, w, h)
    requires g.l2 == NoLocation || InGrid(g.l2, w, h)
    requires StraightApplies(g, diagonal)
    ensures g.l1 != NoLocation && g.l2 != NoLocation
  {
    assert w <= NumberMax && h <= NumberMax by {
      MulLeftMono(1, h, w);
      MulLeftMono(1, w, h);
    }
  }
}
