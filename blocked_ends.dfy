/**
 * A grid on which check_blocked_number, as written in hamilton.c, reports
 * a path end blocked although the grid extends to a solution (see the
 * corrected threshold Rules.CheckBlockedNumber, which the solver model
 * uses).
 */
module BlockedEnds {
  import opened Geometry
  import opened Gaps
  import opened Rules
  import opened Consistency
  import opened HamPath
  import opened Generator

  /** A 3 x 3 solution (no diagonal moves): 9 in the top-left corner, 4 below it, 8 to its right. */
  function CornerSolution(): seq<int>
  {
    [9, 8, 7,
     4, 5, 6,
     3, 2, 1]
  }

  /**
   * The same grid while solving from the clues 9 and 4: the gap 4 .. 9 has
   * its upper end on the 9, and place_number_l2 has just written 8 next to
   * it, which makes check_blocked_numbers_nearby look at the 9.
   */
  function CornerPartial(): seq<int>
  {
    [9, 8, 0,
     4, 0, 0,
     0, 0, 0]
  }

  /** The path the solution numbers: 1 in the bottom-right corner, 9 in the top-left. */
  function CornerPath(): seq<Location>
  {
    [Location(2, 2), Location(1, 2), Location(0, 2),
     Location(0, 1), Location(1, 1), Location(2, 1),
     Location(2, 0), Location(1, 0), Location(0, 0)]
  }

  lemma CornerPathHamiltonian()
    ensures IsHamiltonianPath(CornerPath(), 3, 3, false)
  {
    CornerPathInGrid();
    CornerPathAdjacent();
    CornerPathDistinct();
  }

  lemma CornerPathInGrid()
    ensures forall i :: 0 <= i < 9 ==> InGrid(CornerPath()[i], 3, 3)
  {
    var p := CornerPath();
    forall i | 0 <= i < 9
      ensures InGrid(p[i], 3, 3)
    {
      assert i == 0 || i == 1 || i == 2 || i == 3 || i == 4 || i == 5 || i == 6 || i == 7 || i == 8;
    }
  }

  lemma CornerPathAdjacent()
    ensures forall i :: 0 < i < 9 ==> Adjacent(CornerPath()[i - 1], CornerPath()[i], false)
  {
    var p := CornerPath();
    forall i | 0 < i < 9
      ensures Adjacent(p[i - 1], p[i], false)
    {
      assert i == 1 || i == 2 || i == 3 || i == 4 || i == 5 || i == 6 || i == 7 || i == 8;
    }
  }

  lemma CornerPathDistinct()
    ensures Distinct(CornerPath())
  {
    var p := CornerPath();
    CornerNumbersPath();
    forall i, j | 0 <= i < j < 9
      ensures p[i] != p[j]
    {
      assert CornerSolution()[Idx(p[i], 3)] == i + 1 && CornerSolution()[Idx(p[j], 3)] == j + 1;
    }
  }

  lemma CornerNumbersPath()
    ensures NumbersPath(CornerSolution(), CornerPath(), 3)
  {
    var p := CornerPath();
    forall i | 0 <= i < 9
      ensures 0 <= Idx(p[i], 3) < 9 && CornerSolution()[Idx(p[i], 3)] == i + 1
    {
      assert i == 0 || i == 1 || i == 2 || i == 3 || i == 4 || i == 5 || i == 6 || i == 7 || i == 8;
    }
  }

  lemma CornerSolutionSolved()
    ensures Solved(CornerSolution(), 3, 3, false)
  {
    CornerPathHamiltonian();
    CornerNumbersPath();
    PathGridSolved(CornerSolution(), CornerPath(), 3, 3, false);
  }

  /**
   * check_blocked_number as written reports the 9 blocked although the grid
   * extends to a solution: the 9 ends the path and needs only the 8.
   */
  lemma CheckBlockedNumberAsWrittenRejectsSolvable()
    ensures Solved(CornerSolution(), 3, 3, false) && Extends(CornerPartial(), CornerSolution())
    ensures CheckBlockedNumberAsWritten(CornerPartial(), 3, 3, false, Location(0, 0))
    ensures !CheckBlockedNumber(CornerPartial(), 3, 3, false, Location(0, 0))
  {
    CornerSolutionSolved();
    CornerExtends();
    CornerNine(CornerPartial());
  }

  lemma CornerExtends()
    ensures Extends(CornerPartial(), CornerSolution())
  {
    forall k | 0 <= k < 9 && CornerPartial()[k] != 0
      ensures CornerSolution()[k] == CornerPartial()[k]
    {
      assert k == 0 || k == 1 || k == 3;
    }
  }

  /**
   * On a 3 x 3 grid with 9 in the top-left corner, 8 to its right and 4
   * below it, the 9 has one usable square around it: blocked as written,
   * not when the last number needs only one.
   */
  lemma CornerNine(g: seq<int>)
    requires |g| == 9 && g[0] == 9 && g[1] == 8 && g[3] == 4
    ensures CheckBlockedNumberAsWritten(g, 3, 3, false, Location(0, 0))
    ensures !CheckBlockedNumber(g, 3, 3, false, Location(0, 0))
  {
    CornerAround();
    CornerAvailable(g);
    assert At(g, 3, 3, Location(0, 0)) == 9;
  }

  lemma CornerAvailable(g: seq<int>)
    requires |g| == 9 && g[1] == 8 && g[3] == 4
    ensures Available(g, 3, 3, [Location(1, 0), Location(0, 1)], 9) == 1
  {
    var cells := [Location(1, 0), Location(0, 1)];
    assert At(g, 3, 3, Location(1, 0)) == 8;
    assert At(g, 3, 3, Location(0, 1)) == 4;
    assert |cells[1..][1..]| == 0;
    assert Available(g, 3, 3, cells[1..], 9) == 0;
  }

  lemma CornerAround()
    ensures Around(Location(0, 0), 3, 3, false) == [Location(1, 0), Location(0, 1)]
  {
    var o: seq<(int, int)> := [(-1, 0), (1, 0), (0, -1), (0, 1)];
    assert ScanOrder(false) == o;
    assert o[1..] == [(1, 0), (0, -1), (0, 1)];
    CornerEastward();
  }

  lemma CornerEastward()
    ensures NeighboursInOrder(Location(0, 0), 3, 3, [(1, 0), (0, -1), (0, 1)]) == [Location(1, 0), Location(0, 1)]
  {
    var o: seq<(int, int)> := [(1, 0), (0, -1), (0, 1)];
    assert o[1..] == [(0, -1), (0, 1)];
    CornerUpward();
  }

  lemma CornerUpward()
    ensures NeighboursInOrder(Location(0, 0), 3, 3, [(0, -1), (0, 1)]) == [Location(0, 1)]
  {
    var o: seq<(int, int)> := [(0, -1), (0, 1)];
    assert o[1..] == [(0, 1)];
    CornerDownward();
  }

  lemma CornerDownward()
    ensures NeighboursInOrder(Location(0, 0), 3, 3, [(0, 1)]) == [Location(0, 1)]
  {
    var o: seq<(int, int)> := [(0, 1)];
    assert |o[1..]| == 0;
  }
}
