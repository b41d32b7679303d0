/**
 * Grid geometry shared by the Hamilton puzzle engine (hamilton.c): locations,
 * the two distance metrics, adjacency, cell indices and the neighbour
 * enumeration orders that the individual functions of the source use.
 */
module Geometry {

  /** Largest number a grid may hold (NUMBER_MAX). */
  const NumberMax := 99
  /** Largest coordinate (COORD_MAX). */
  const CoordMax := 254
  /** The "no coordinate" value (NO_COORD); kept numeric because gap sorting computes with it. */
  const NoCoord := 255

  datatype Location = Location(x: int, y: int)

  /** (NO_COORD, NO_COORD): an unknown location, the open end of a gap. */
  const NoLocation := Location(NoCoord, NoCoord)

  function Abs(a: int): nat { if a < 0 then -a else a }

  function Max(a: int, b: int): int { if a < b then b else a }

  /** manhattan_distance: abs(x2 - x1) + abs(y2 - y1). */
  function ManhattanDistance(x1: int, y1: int, x2: int, y2: int): (d: nat)
    ensures d == 0 <==> x1 == x2 && y1 == y2
    ensures d >= Abs(x2 - x1) && d >= Abs(y2 - y1)
  {
    Abs(x2 - x1) + Abs(y2 - y1)
  }

  /** chebyshev_distance: max(abs(x2 - x1), abs(y2 - y1)). */
  function ChebyshevDistance(x1: int, y1: int, x2: int, y2: int): (d: nat)
    ensures d == 0 <==> x1 == x2 && y1 == y2
    ensures d >= Abs(x2 - x1) && d >= Abs(y2 - y1)
    ensures d == Abs(x2 - x1) || d == Abs(y2 - y1)
  {
    Max(Abs(x2 - x1), Abs(y2 - y1))
  }

  /**
   * distance: Chebyshev when diagonal moves are allowed, Manhattan
   * otherwise; zero only from a square to itself.
   */
  function Distance(a: Location, b: Location, diagonal: bool): (d: nat)
    ensures d == 0 <==> a == b
  {
    if diagonal then ChebyshevDistance(a.x, a.y, b.x, b.y)
    else ManhattanDistance(a.x, a.y, b.x, b.y)
  }

  /**
   * Two squares are adjacent when one is a king move (diagonal) or a rook
   * move of length one (no diagonal) away from the other.
   */
  predicate Adjacent(a: Location, b: Location, diagonal: bool)
  {
    var dx := b.x - a.x;
    var dy := b.y - a.y;
    -1 <= dx <= 1 && -1 <= dy <= 1 && (dx != 0 || dy != 0) && (diagonal || dx == 0 || dy == 0)
  }

  /** The distance of the active metric is 1 exactly for adjacent squares. */
  lemma DistanceOneIffAdjacent(a: Location, b: Location, diagonal: bool)
    ensures Distance(a, b, diagonal) == 1 <==> Adjacent(a, b, diagonal)
  {
  }

  lemma AdjacentSymmetric(a: Location, b: Location, diagonal: bool)
    ensures Adjacent(a, b, diagonal) <==> Adjacent(b, a, diagonal)
  {
  }

  /** Orthogonal adjacency is adjacency in both modes. */
  lemma OrthogonalIsAdjacent(a: Location, b: Location, diagonal: bool)
    requires Adjacent(a, b, false)
    ensures Adjacent(a, b, diagonal)
  {
  }

  /** Distance is symmetric and a metric on the grid. */
  lemma DistanceSymmetric(a: Location, b: Location, diagonal: bool)
    ensures Distance(a, b, diagonal) == Distance(b, a, diagonal)
  {
  }

  lemma DistanceTriangle(a: Location, b: Location, c: Location, diagonal: bool)
    ensures Distance(a, c, diagonal) <= Distance(a, b, diagonal) + Distance(b, c, diagonal)
  {
  }

  predicate InGrid(l: Location, w: int, h: int)
  {
    0 <= l.x < w && 0 <= l.y < h
  }

  /** Index of a square in the row-major grid array: y * w + x. */
  function Idx(l: Location, w: int): int
  {
    l.y * w + l.x
  }

  /** The square stored at index i of a row-major grid of width w. */
  function LocOf(i: int, w: int): Location
    requires w > 0
  {
    Location(i % w, i / w)
  }

  lemma MulLeftMono(a: int, b: int, w: int)
    requires a <= b && w >= 0
    ensures a * w <= b * w
  {
  }

  /** Row y of a w x h grid occupies the indices y * w .. y * w + w - 1. */
  lemma RowFits(y: int, w: int, h: int)
    requires 0 <= y < h && w >= 0
    ensures y * w + w <= w * h && (y + 1) * w == y * w + w && 0 <= y * w
  {
    MulLeftMono(y + 1, h, w);
    MulLeftMono(0, y, w);
  }

  lemma IdxInRange(l: Location, w: int, h: int)
    requires InGrid(l, w, h)
    ensures 0 <= Idx(l, w) < w * h
  {
    MulLeftMono(l.y + 1, h, w);
    MulLeftMono(0, l.y, w);
  }

  lemma DivModUnique(a: int, w: int, q: int, r: int)
    requires w > 0 && 0 <= r < w && a == q * w + r
    ensures a / w == q && a % w == r
  {
    var q', r' := a / w, a % w;
    assert a == q' * w + r';
    if q' < q {
      MulLeftMono(q' + 1, q, w);
      assert false;
    } else if q < q' {
      MulLeftMono(q + 1, q', w);
      assert false;
    }
  }

  lemma LocOfIdx(l: Location, w: int, h: int)
    requires w > 0 && InGrid(l, w, h)
    ensures LocOf(Idx(l, w), w) == l
  {
    DivModUnique(Idx(l, w), w, l.y, l.x);
  }

  lemma IdxOfLocOf(i: int, w: int, h: int)
    requires w > 0 && 0 <= i < w * h
    ensures InGrid(LocOf(i, w), w, h) && Idx(LocOf(i, w), w) == i
  {
    var q := i / w;
    if q >= h {
      MulLeftMono(h, q, w);
      assert false;
    }
  }

  /** Distinct squares of the grid have distinct indices. */
  lemma IdxInjective(a: Location, b: Location, w: int, h: int)
    requires w > 0 && InGrid(a, w, h) && InGrid(b, w, h) && Idx(a, w) == Idx(b, w)
    ensures a == b
  {
    LocOfIdx(a, w, h);
    LocOfIdx(b, w, h);
  }

  /** The square reached from l by the offset o. */
  function Offset(l: Location, o: (int, int)): Location
  {
    Location(l.x + o.0, l.y + o.1)
  }

  const OrthogonalOffsets: set<(int, int)> := {(0, -1), (0, 1), (-1, 0), (1, 0)}
  const DiagonalOffsets: set<(int, int)> := {(-1, -1), (-1, 1), (1, -1), (1, 1)}

  function AllOffsets(diagonal: bool): set<(int, int)>
  {
    if diagonal then OrthogonalOffsets + DiagonalOffsets else OrthogonalOffsets
  }

  lemma AdjacentIffOffset(a: Location, b: Location, diagonal: bool)
    ensures Adjacent(a, b, diagonal) <==> (b.x - a.x, b.y - a.y) in AllOffsets(diagonal)
  {
  }

  /** A neighbour enumeration order: every offset of the mode exactly once. */
  ghost predicate OffsetOrder(offsets: seq<(int, int)>, diagonal: bool)
  {
    (forall i, j :: 0 <= i < j < |offsets| ==> offsets[i] != offsets[j])
    && (forall o :: o in offsets <==> o in AllOffsets(diagonal))
  }

  /** The in-grid squares around l, in the order the offsets list them. */
  function NeighboursInOrder(l: Location, w: int, h: int, offsets: seq<(int, int)>): (r: seq<Location>)
    ensures forall c :: c in r ==> InGrid(c, w, h)
    ensures |r| <= |offsets|
  {
    if offsets == [] then []
    else
      var c := Offset(l, offsets[0]);
      (if InGrid(c, w, h) then [c] else []) + NeighboursInOrder(l, w, h, offsets[1..])
  }

  lemma {:induction false} NeighboursInOrderMembers(l: Location, w: int, h: int, offsets: seq<(int, int)>, c: Location)
    ensures c in NeighboursInOrder(l, w, h, offsets) <==> InGrid(c, w, h) && (c.x - l.x, c.y - l.y) in offsets
  {
    if offsets != [] {
      NeighboursInOrderMembers(l, w, h, offsets[1..], c);
      assert offsets == [offsets[0]] + offsets[1..];
    }
  }

  lemma {:induction false} NeighboursInOrderDistinct(l: Location, w: int, h: int, offsets: seq<(int, int)>)
    requires forall i, j :: 0 <= i < j < |offsets| ==> offsets[i] != offsets[j]
    ensures var r := NeighboursInOrder(l, w, h, offsets);
      forall i, j :: 0 <= i < j < |r| ==> r[i] != r[j]
  {
    if offsets != [] {
      var c := Offset(l, offsets[0]);
      var rest := NeighboursInOrder(l, w, h, offsets[1..]);
      NeighboursInOrderDistinct(l, w, h, offsets[1..]);
      if InGrid(c, w, h) {
        NeighboursInOrderMembers(l, w, h, offsets[1..], c);
        assert (c.x - l.x, c.y - l.y) == offsets[0];
        assert c !in rest;
        var r := [c] + rest;
        forall i, j | 0 <= i < j < |r| ensures r[i] != r[j] {
          if i == 0 {
            assert r[j] == rest[j - 1];
          } else {
            assert r[i] == rest[i - 1] && r[j] == rest[j - 1];
          }
        }
      }
    }
  }

  /**
   * With an enumeration order of the mode, the list holds exactly the
   * in-grid squares adjacent to l, each once.
   */
  lemma NeighboursInOrderSpec(l: Location, w: int, h: int, offsets: seq<(int, int)>, diagonal: bool)
    requires OffsetOrder(offsets, diagonal)
    ensures var r := NeighboursInOrder(l, w, h, offsets);
      (forall c :: c in r <==> InGrid(c, w, h) && Adjacent(l, c, diagonal))
      && (forall i, j :: 0 <= i < j < |r| ==> r[i] != r[j])
  {
    forall c ensures c in NeighboursInOrder(l, w, h, offsets) <==> InGrid(c, w, h) && Adjacent(l, c, diagonal) {
      NeighboursInOrderMembers(l, w, h, offsets, c);
      AdjacentIffOffset(l, c, diagonal);
    }
    NeighboursInOrderDistinct(l, w, h, offsets);
  }

  /** get_neighbors_except: N, S, W, E, then NW, SW, NE, SE. */
  function ExceptOrder(diagonal: bool): seq<(int, int)>
  {
    [(0, -1), (0, 1), (-1, 0), (1, 0)] + if diagonal then [(-1, -1), (-1, 1), (1, -1), (1, 1)] else []
  }

  /** find_only_move and check_blocked_number: W, E, N, S, then NW, NE, SW, SE. */
  function ScanOrder(diagonal: bool): seq<(int, int)>
  {
    [(-1, 0), (1, 0), (0, -1), (0, 1)] + if diagonal then [(-1, -1), (1, -1), (-1, 1), (1, 1)] else []
  }

  /** do_recursive_solve: W, N, E, S, then NW, SW, NE, SE. */
  function SearchOrder(diagonal: bool): seq<(int, int)>
  {
    [(-1, 0), (0, -1), (1, 0), (0, 1)] + if diagonal then [(-1, -1), (-1, 1), (1, -1), (1, 1)] else []
  }

  lemma OffsetOrderByCases(offsets: seq<(int, int)>, diagonal: bool)
    requires |offsets| == if diagonal then 8 else 4
    requires forall i, j :: 0 <= i < j < |offsets| ==> offsets[i] != offsets[j]
    requires forall i :: 0 <= i < |offsets| ==> offsets[i] in AllOffsets(diagonal)
    ensures OffsetOrder(offsets, diagonal)
  {
    var s := set i | 0 <= i < |offsets| :: offsets[i];
    assert forall o :: o in offsets <==> o in s;
    SetOfDistinct(offsets);
    assert |AllOffsets(diagonal)| == |offsets|;
    SubsetEqualCard(s, AllOffsets(diagonal));
  }

  lemma {:induction false} SetOfDistinct<T>(q: seq<T>)
    requires forall i, j :: 0 <= i < j < |q| ==> q[i] != q[j]
    ensures |set i | 0 <= i < |q| :: q[i]| == |q|
  {
    if q != [] {
      var p := q[..|q| - 1];
      SetOfDistinct(p);
      assert (set i | 0 <= i < |q| :: q[i]) == (set i | 0 <= i < |p| :: p[i]) + {q[|q| - 1]};
    }
  }

  lemma SubsetEqualCard<T>(a: set<T>, b: set<T>)
    requires a <= b && |a| == |b|
    ensures a == b
  {
    if a != b {
      assert b - a != {} by {
        if b - a == {} {
          forall x | x in b ensures x in a {
            assert x !in b - a;
          }
        }
      }
      var x :| x in b - a;
      SubsetCard(a, b - {x});
      assert false;
    }
  }

  /**
   * Pigeonhole over the grid: w * h pairwise distinct squares of the w x h
   * grid cover every square of it.
   */
  lemma DistinctSquaresCover(p: seq<Location>, w: int, h: int, c: Location)
    requires w > 0 && |p| == w * h
    requires forall i :: 0 <= i < |p| ==> InGrid(p[i], w, h)
    requires forall i, j :: 0 <= i < j < |p| ==> p[i] != p[j]
    requires InGrid(c, w, h)
    ensures c in p
  {
    var cells := seq(w * h, i requires 0 <= i < w * h => LocOf(i, w));
    forall i, j | 0 <= i < j < |cells| ensures cells[i] != cells[j] {
      IdxOfLocOf(i, w, h);
      IdxOfLocOf(j, w, h);
    }
    SetOfDistinct(cells);
    SetOfDistinct(p);
    var grid := set i | 0 <= i < |cells| :: cells[i];
    var visited := set i | 0 <= i < |p| :: p[i];
    forall l | l in visited ensures l in grid {
      var i :| 0 <= i < |p| && p[i] == l;
      IdxInRange(l, w, h);
      LocOfIdx(l, w, h);
      assert cells[Idx(l, w)] == l;
    }
    SubsetEqualCard(visited, grid);
    IdxInRange(c, w, h);
    LocOfIdx(c, w, h);
    assert cells[Idx(c, w)] == c;
    assert c in visited;
  }

  lemma {:induction false} SubsetCard<T>(a: set<T>, b: set<T>)
    requires a <= b
    ensures |a| <= |b|
    decreases |b|
  {
    if a != {} {
      var x :| x in a;
      SubsetCard(a - {x}, b - {x});
    }
  }

  lemma OrdersAreOffsetOrders(diagonal: bool)
    ensures OffsetOrder(ExceptOrder(diagonal), diagonal)
    ensures OffsetOrder(ScanOrder(diagonal), diagonal)
    ensures OffsetOrder(SearchOrder(diagonal), diagonal)
  {
    ExceptOrderIsOffsetOrder(diagonal);
    ScanOrderIsOffsetOrder(diagonal);
    SearchOrderIsOffsetOrder(diagonal);
  }

  lemma ExceptOrderIsOffsetOrder(diagonal: bool)
    ensures OffsetOrder(ExceptOrder(diagonal), diagonal)
  {
    OffsetOrderByCases(ExceptOrder(diagonal), diagonal);
  }

  lemma ScanOrderIsOffsetOrder(diagonal: bool)
    ensures OffsetOrder(ScanOrder(diagonal), diagonal)
  {
    OffsetOrderByCases(ScanOrder(diagonal), diagonal);
  }

  lemma SearchOrderIsOffsetOrder(diagonal: bool)
    ensures OffsetOrder(SearchOrder(diagonal), diagonal)
  {
    OffsetOrderByCases(SearchOrder(diagonal), diagonal);
  }
}
