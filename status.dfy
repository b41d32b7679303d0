/**
 * Marking bad squares while the puzzle is played (hamilton.c,
 * is_bad_square): a square is bad when the number one below or one above
 * its own stands on the grid but not next to it. The game keeps, for each
 * number, the square it stands on (NO_COORD when it is not on the grid);
 * with that map, a grid with each number on one square has no bad square
 * exactly when it is consistent.
 */
module GameStatus {
  import opened Geometry
  import opened Gaps
  import opened Rules
  import opened Consistency

  /** The number m, when it is within 1 .. area and on the grid, stands on a square not next to c. */
  predicate Misplaced(numberLocs: seq<Location>, c: Location, m: int, area: int, diagonal: bool)
    requires |numberLocs| == area + 1
  {
    1 <= m <= area && numberLocs[m].x != NoCoord && !Adjacent(c, numberLocs[m], diagonal)
  }

  /** is_bad_square: the square c, holding n, against the squares of n - 1 and n + 1. */
  function IsBadSquare(numberLocs: seq<Location>, w: int, h: int, diagonal: bool, c: Location, n: int): (bad: bool)
    requires |numberLocs| == w * h + 1 && 0 <= n <= w * h
    ensures bad <==> (n > 0 && (Misplaced(numberLocs, c, n - 1, w * h, diagonal) || Misplaced(numberLocs, c, n + 1, w * h, diagonal)))
  {
    if n == 0 then false
    else if n > 1 && numberLocs[n - 1].x != NoCoord && Distance(c, numberLocs[n - 1], diagonal) != 1 then true
    else if n < w * h && numberLocs[n + 1].x != NoCoord && Distance(c, numberLocs[n + 1], diagonal) != 1 then true
    else false
  }

  /** Each number stands on one square at most. */
  ghost predicate NumbersOnce(grid: seq<int>, w: int, h: int)
    requires |grid| == w * h
  {
    forall a, b ::
      (InGrid(a, w, h) && InGrid(b, w, h) && At(grid, w, h, a) > 0 && At(grid, w, h, a) == At(grid, w, h, b))
      ==> a == b
  }

  /** The square c is bad for the number it holds. */
  ghost predicate BadAt(numberLocs: seq<Location>, grid: seq<int>, w: int, h: int, diagonal: bool, c: Location)
    requires ValidGrid(grid, w, h) && |numberLocs| == w * h + 1 && InGrid(c, w, h)
  {
    AtInRange(grid, w, h, c);
    IsBadSquare(numberLocs, w, h, diagonal, c, At(grid, w, h, c))
  }

  /** No square of the grid is bad. */
  ghost predicate NoBadSquare(numberLocs: seq<Location>, grid: seq<int>, w: int, h: int, diagonal: bool)
    requires ValidGrid(grid, w, h) && |numberLocs| == w * h + 1
  {
    forall c :: InGrid(c, w, h) ==> !BadAt(numberLocs, grid, w, h, diagonal, c)
  }

  /** A square holds a number the grid allows. */
  lemma AtInRange(grid: seq<int>, w: int, h: int, c: Location)
    requires ValidGrid(grid, w, h) && InGrid(c, w, h)
    ensures 0 <= At(grid, w, h, c) <= w * h
  {
    IdxInRange(c, w, h);
  }

  /**
   * With the number map of the grid and each number on one square, no
   * square is bad exactly when consecutive numbers stand on adjacent
   * squares.
   */
  lemma NoBadSquareIffConsistent(numberLocs: seq<Location>, grid: seq<int>, w: int, h: int, diagonal: bool)
    requires ValidGrid(grid, w, h) && MapOk(numberLocs, grid, w, h) && NumbersOnce(grid, w, h)
    ensures NoBadSquare(numberLocs, grid, w, h, diagonal) <==> Consistent(grid, w, h, diagonal)
  {
    if Consistent(grid, w, h, diagonal) {
      ConsistentHasNoBadSquare(numberLocs, grid, w, h, diagonal);
    }
    if NoBadSquare(numberLocs, grid, w, h, diagonal) {
      NoBadSquareIsConsistent(numberLocs, grid, w, h, diagonal);
    }
  }

  lemma ConsistentHasNoBadSquare(numberLocs: seq<Location>, grid: seq<int>, w: int, h: int, diagonal: bool)
    requires ValidGrid(grid, w, h) && MapOk(numberLocs, grid, w, h) && Consistent(grid, w, h, diagonal)
    ensures NoBadSquare(numberLocs, grid, w, h, diagonal)
  {
    forall c | InGrid(c, w, h)
      ensures !BadAt(numberLocs, grid, w, h, diagonal, c)
    {
      NotBadWhenConsistent(numberLocs, grid, w, h, diagonal, c);
    }
  }

  lemma NotBadWhenConsistent(numberLocs: seq<Location>, grid: seq<int>, w: int, h: int, diagonal: bool, c: Location)
    requires ValidGrid(grid, w, h) && MapOk(numberLocs, grid, w, h) && Consistent(grid, w, h, diagonal)
    requires InGrid(c, w, h)
    ensures !BadAt(numberLocs, grid, w, h, diagonal, c)
  {
    AtInRange(grid, w, h, c);
    var n := At(grid, w, h, c);
    if n > 1 && numberLocs[n - 1].x != NoCoord {
      var p := numberLocs[n - 1];
      assert Holds(grid, w, h, p, n - 1);
      assert Adjacent(p, c, diagonal);
      AdjacentSymmetric(p, c, diagonal);
      DistanceOneIffAdjacent(c, p, diagonal);
    }
    if 0 < n < w * h && numberLocs[n + 1].x != NoCoord {
      var q := numberLocs[n + 1];
      assert Holds(grid, w, h, q, n + 1);
      assert Adjacent(c, q, diagonal);
      DistanceOneIffAdjacent(c, q, diagonal);
    }
  }

  lemma NoBadSquareIsConsistent(numberLocs: seq<Location>, grid: seq<int>, w: int, h: int, diagonal: bool)
    requires ValidGrid(grid, w, h) && MapOk(numberLocs, grid, w, h) && NumbersOnce(grid, w, h)
    requires NoBadSquare(numberLocs, grid, w, h, diagonal)
    ensures Consistent(grid, w, h, diagonal)
  {
    forall a, b | InGrid(a, w, h) && InGrid(b, w, h) && At(grid, w, h, a) > 0 && At(grid, w, h, b) == At(grid, w, h, a) + 1
      ensures Adjacent(a, b, diagonal)
    {
      AtInRange(grid, w, h, a);
      AtInRange(grid, w, h, b);
      var n := At(grid, w, h, a);
      IdxInRange(b, w, h);
      assert grid[Idx(b, w)] == n + 1;
      assert n + 1 in grid;
      var q := numberLocs[n + 1];
      assert Holds(grid, w, h, q, n + 1);
      assert At(grid, w, h, q) == n + 1;
      assert q == b;
      assert !BadAt(numberLocs, grid, w, h, diagonal, a);
      DistanceOneIffAdjacent(a, b, diagonal);
    }
  }

  // ---------------------------------------------------------------------
  // The example of the source's comment
  // ---------------------------------------------------------------------

  /**
   * The 4 x 4 grid
   *   10  .  .  .
   *    . 12  .  6
   *   16  .  2  7
   *    .  .  9  8
   * as its number map: 2 at (2,2), 6 at (3,1), 7 at (3,2), 8 at (3,3),
   * 9 at (2,3), 10 at (0,0), 12 at (1,1), 16 at (0,2).
   */
  function ExampleLocs(): seq<Location>
  {
    var o := NoLocation;
    [o, o, Location(2, 2), o, o, o, Location(3, 1), Location(3, 2), Location(3, 3),
     Location(2, 3), Location(0, 0), o, Location(1, 1), o, o, o, Location(0, 2)]
  }

  /** In that grid the squares of 10 and 9 are bad and every other numbered square is not. */
  lemma ExampleBadSquares()
    ensures var m := ExampleLocs();
            IsBadSquare(m, 4, 4, false, Location(0, 0), 10)
            && IsBadSquare(m, 4, 4, false, Location(2, 3), 9)
            && !IsBadSquare(m, 4, 4, false, Location(1, 1), 12)
            && !IsBadSquare(m, 4, 4, false, Location(3, 1), 6)
            && !IsBadSquare(m, 4, 4, false, Location(0, 2), 16)
            && !IsBadSquare(m, 4, 4, false, Location(2, 2), 2)
            && !IsBadSquare(m, 4, 4, false, Location(3, 2), 7)
            && !IsBadSquare(m, 4, 4, false, Location(3, 3), 8)
  {
    var m := ExampleLocs();
    ExampleBad(m);
    ExampleNotBadUpper(m);
    ExampleNotBadLower(m);
  }

  /** 10 has no 9 next to it, and 9 has no 10 next to it. */
  lemma ExampleBad(m: seq<Location>)
    requires m == ExampleLocs()
    ensures IsBadSquare(m, 4, 4, false, Location(0, 0), 10)
    ensures IsBadSquare(m, 4, 4, false, Location(2, 3), 9)
  {
    assert m[9] == Location(2, 3) && m[10] == Location(0, 0);
  }

  lemma ExampleNotBadUpper(m: seq<Location>)
    requires m == ExampleLocs()
    ensures !IsBadSquare(m, 4, 4, false, Location(1, 1), 12)
    ensures !IsBadSquare(m, 4, 4, false, Location(3, 1), 6)
    ensures !IsBadSquare(m, 4, 4, false, Location(0, 2), 16)
  {
    assert m[11] == m[13] == m[15] == m[5] == NoLocation;
    assert m[7] == Location(3, 2);
  }

  lemma ExampleNotBadLower(m: seq<Location>)
    requires m == ExampleLocs()
    ensures !IsBadSquare(m, 4, 4, false, Location(2, 2), 2)
    ensures !IsBadSquare(m, 4, 4, false, Location(3, 2), 7)
    ensures !IsBadSquare(m, 4, 4, false, Location(3, 3), 8)
  {
    assert m[1] == m[3] == NoLocation;
    assert m[6] == Location(3, 1) && m[7] == Location(3, 2) && m[8] == Location(3, 3) && m[9] == Location(2, 3);
  }
}
