/**
 * The random Hamiltonian path generator of hamilton.c: a winding
 * ("boustrophedon") path over the whole grid, shuffled by reversing prefixes
 * so that it stays Hamiltonian.
 */
module HamPath {
  import opened Geometry
  import opened Randomness

  /** Pairwise distinct elements. */
  ghost predicate Distinct<T>(s: seq<T>)
  {
    forall i, j :: 0 <= i < j < |s| ==> s[i] != s[j]
  }

  /**
   * A Hamiltonian path of the w x h grid: every square exactly once, each
   * step to an adjacent square.
   */
  ghost predicate IsHamiltonianPath(p: seq<Location>, w: int, h: int, diagonal: bool)
  {
    |p| == w * h
    && (forall i :: 0 <= i < |p| ==> InGrid(p[i], w, h))
    && Distinct(p)
    && (forall i :: 0 < i < |p| ==> Adjacent(p[i - 1], p[i], diagonal))
  }

  // ---------------------------------------------------------------- reversal

  function Reverse<T>(s: seq<T>): (r: seq<T>)
    ensures |r| == |s|
    ensures forall i :: 0 <= i < |s| ==> r[i] == s[|s| - 1 - i]
  {
    if s == [] then [] else Reverse(s[1..]) + [s[0]]
  }

  lemma ReverseInvolution<T>(s: seq<T>)
    ensures Reverse(Reverse(s)) == s
  {
  }

  lemma ReversePermutes<T>(s: seq<T>)
    ensures multiset(Reverse(s)) == multiset(s)
  {
    if s != [] {
      ReversePermutes(s[1..]);
      assert s == [s[0]] + s[1..];
    }
  }

  /** reverse_locations: reverses list[0 .. length) in place, the rest untouched. */
  method ReverseLocations(list: array<Location>, length: int)
    requires 0 < length <= list.Length
    modifies list
    ensures list[..] == Reverse(old(list[..length])) + old(list[length..])
  {
    ghost var orig := list[..];
    var a, b := 0, length - 1;
    while a < b
      invariant 0 <= a <= length && b == length - 1 - a
      invariant forall k :: 0 <= k < list.Length && (k < a || b < k < length) ==> list[k] == orig[length - 1 - k]
      invariant forall k :: 0 <= k < list.Length && !(k < a || b < k < length) ==> list[k] == orig[k]
    {
      list[a], list[b] := list[b], list[a];
      a := a + 1;
      b := b - 1;
    }
    assert list[..] == Reverse(orig[..length]) + orig[length..];
  }

  // ------------------------------------------------------------------ search

  /** The first position of x in s. */
  function IndexOf<T(==)>(s: seq<T>, x: T): (i: nat)
    requires x in s
    ensures i < |s| && s[i] == x
    ensures forall j :: 0 <= j < i ==> s[j] != x
  {
    if s[0] == x then 0 else 1 + IndexOf(s[1..], x)
  }

  /** find_location: the first index of l among list[0 .. length); the source asserts it is present. */
  method FindLocation(list: array<Location>, length: int, l: Location) returns (index: int)
    requires 0 <= length <= list.Length && l in list[..length]
    ensures 0 <= index < length && list[index] == l
    ensures forall j :: 0 <= j < index ==> list[j] != l
  {
    index := 0;
    while index < length
      invariant 0 <= index <= length
      invariant forall j :: 0 <= j < index ==> list[j] != l
    {
      if list[index] == l {
        return;
      }
      index := index + 1;
    }
    assert false;
  }

  // ------------------------------------------------------- the simple path

  /** Row y walked left to right when y is even, right to left when odd. */
  function Row(w: nat, y: int): seq<Location>
  {
    if y % 2 == 0 then seq(w, x => Location(x, y)) else seq(w, x => Location(w - 1 - x, y))
  }

  /** The winding path over rows 0 .. h-1: rows in order, alternating direction. */
  function Boustrophedon(w: nat, h: nat): seq<Location>
  {
    if h == 0 then [] else Boustrophedon(w, h - 1) + Row(w, h - 1)
  }

  lemma {:induction false} BoustrophedonShape(w: nat, h: nat)
    ensures |Boustrophedon(w, h)| == w * h
    ensures forall i :: 0 <= i < |Boustrophedon(w, h)| ==> InGrid(Boustrophedon(w, h)[i], w, h)
  {
    if h > 0 {
      BoustrophedonShape(w, h - 1);
      assert w * h == w * (h - 1) + w;
    }
  }

  /** simple_hampath's path is Hamiltonian, whatever w and h. */
  lemma {:induction false} BoustrophedonHamiltonian(w: nat, h: nat, diagonal: bool)
    ensures IsHamiltonianPath(Boustrophedon(w, h), w, h, diagonal)
  {
    BoustrophedonShape(w, h);
    BoustrophedonDistinct(w, h);
    BoustrophedonAdjacent(w, h, diagonal);
  }

  /** No square appears twice on simple_hampath's path. */
  lemma {:induction false} BoustrophedonDistinct(w: nat, h: nat)
    ensures Distinct(Boustrophedon(w, h))
  {
    if h > 0 {
      BoustrophedonDistinct(w, h - 1);
      BoustrophedonShape(w, h - 1);
      var p, r := Boustrophedon(w, h - 1), Row(w, h - 1);
      var q := p + r;
      forall i, j | 0 <= i < j < |q| ensures q[i] != q[j] {
        if j < |p| {
        } else if i < |p| {
          assert InGrid(p[i], w, h - 1);
        } else {
          assert q[i] == r[i - |p|] && q[j] == r[j - |p|];
        }
      }
    }
  }

  /** Consecutive squares of simple_hampath's path are orthogonal neighbours. */
  lemma {:induction false} BoustrophedonAdjacent(w: nat, h: nat, diagonal: bool)
    ensures forall i :: 0 < i < |Boustrophedon(w, h)| ==>
      Adjacent(Boustrophedon(w, h)[i - 1], Boustrophedon(w, h)[i], diagonal)
  {
    if h > 0 {
      BoustrophedonAdjacent(w, h - 1, diagonal);
      BoustrophedonShape(w, h - 1);
      var p, r := Boustrophedon(w, h - 1), Row(w, h - 1);
      var q := p + r;
      forall i | 0 < i < |q| ensures Adjacent(q[i - 1], q[i], diagonal) {
        if i < |p| {
          assert q[i - 1] == p[i - 1] && q[i] == p[i];
        } else if i == |p| {
          if h - 1 > 0 {
            RowJoinAdjacent(w, h - 1, diagonal);
          }
        } else {
          RowAdjacent(w, h - 1, i - |p|, diagonal);
          assert q[i - 1] == r[i - 1 - |p|] && q[i] == r[i - |p|];
        }
      }
    }
  }

  /** Consecutive squares of one row are orthogonal neighbours. */
  lemma RowAdjacent(w: nat, y: int, i: int, diagonal: bool)
    requires 0 < i < w
    ensures Adjacent(Row(w, y)[i - 1], Row(w, y)[i], diagonal)
  {
  }

  /** The path leaves row y - 1 at the column where it enters row y. */
  lemma RowJoinAdjacent(w: nat, y: nat, diagonal: bool)
    requires 0 < y
    ensures var p := Boustrophedon(w, y);
      w > 0 ==> |p| > 0 && Adjacent(p[|p| - 1], Row(w, y)[0], diagonal)
  {
    if w > 0 {
      var p := Boustrophedon(w, y);
      assert p == Boustrophedon(w, y - 1) + Row(w, y - 1);
      assert p[|p| - 1] == Row(w, y - 1)[w - 1];
    }
  }

  /** The ends of simple_hampath: (0, 0), and (w-1, h-1) or (0, h-1) by the parity of h. */
  lemma {:induction false} BoustrophedonEnds(w: nat, h: nat)
    requires w > 0 && h > 0
    ensures var p := Boustrophedon(w, h);
      |p| == w * h && p[0] == Location(0, 0)
      && p[|p| - 1] == if h % 2 == 1 then Location(w - 1, h - 1) else Location(0, h - 1)
  {
    BoustrophedonShape(w, h);
    if h > 1 {
      BoustrophedonEnds(w, h - 1);
      BoustrophedonShape(w, h - 1);
    }
  }

  /** simple_hampath: zig along even rows, zag back along odd rows. */
  method SimpleHampath(w: nat, h: nat) returns (path: array<Location>)
    ensures fresh(path)
    ensures path[..] == Boustrophedon(w, h)
  {
    BoustrophedonShape(w, h);
    path := new Location[w * h](_ => Location(0, 0));
    var y, p := 0, 0;
    while y < h
      invariant 0 <= y <= h && y % 2 == 0
      invariant p == y * w
      invariant path[..p] == Boustrophedon(w, y)
      decreases h - y
    {
      RowFits(y, w, h);
      Zig(path, p, w, y);
      p := p + w;
      y := y + 1;
      if y == h {
        break;
      }
      RowFits(y, w, h);
      Zag(path, p, w, y);
      p := p + w;
      y := y + 1;
    }
    assert y == h && p == h * w && path.Length == w * h;
    assert path[..] == path[..p];
  }

  /** The zig half of simple_hampath's loop: row y left to right from index p. */
  method Zig(path: array<Location>, p: nat, w: nat, y: nat)
    requires p + w <= path.Length && y % 2 == 0
    modifies path
    ensures path[..p + w] == old(path[..p]) + Row(w, y)
  {
    ghost var prefix := path[..p];
    var x := 0;
    while x < w
      invariant 0 <= x <= w
      invariant path[..p] == prefix
      invariant forall j :: p <= j < p + x ==> path[j] == Location(j - p, y)
    {
      path[p + x] := Location(x, y);
      x := x + 1;
    }
    assert path[..p + w] == prefix + Row(w, y);
  }

  /** The zag half of simple_hampath's loop: row y right to left from index p. */
  method Zag(path: array<Location>, p: nat, w: nat, y: nat)
    requires p + w <= path.Length && y % 2 == 1
    modifies path
    ensures path[..p + w] == old(path[..p]) + Row(w, y)
  {
    ghost var prefix := path[..p];
    var x := w - 1;
    while x >= 0
      invariant -1 <= x <= w - 1
      invariant path[..p] == prefix
      invariant forall j :: p <= j < p + (w - 1 - x) ==> path[j] == Location(w - 1 - (j - p), y)
    {
      path[p + (w - 1 - x)] := Location(x, y);
      x := x - 1;
    }
    assert path[..p + w] == prefix + Row(w, y);
  }

  // ------------------------------------------------------------ neighbours

  function Without(s: seq<Location>, except: Location): (r: seq<Location>)
    ensures forall c :: c in r <==> c in s && c != except
    ensures |r| <= |s|
  {
    if s == [] then []
    else (if s[0] == except then [] else [s[0]]) + Without(s[1..], except)
  }

  lemma {:induction false} WithoutDistinct(s: seq<Location>, except: Location)
    requires Distinct(s)
    ensures Distinct(Without(s, except))
  {
    if s != [] {
      WithoutDistinct(s[1..], except);
      var r := Without(s, except);
      var rest := Without(s[1..], except);
      if s[0] != except {
        assert s[0] !in s[1..];
        forall i, j | 0 <= i < j < |r| ensures r[i] != r[j] {
          if i == 0 {
            assert r[j] == rest[j - 1] && r[j] in rest;
          } else {
            assert r[i] == rest[i - 1] && r[j] == rest[j - 1];
          }
        }
      }
    }
  }

  /** The squares get_neighbors_except considers, in its order: N, S, W, E, then NW, SW, NE, SE. */
  function NeighborCandidates(cursor: Location, w: int, h: int, diagonal: bool): seq<Location>
  {
    OrthogonalCandidates(cursor, w, h) + if diagonal then DiagonalCandidates(cursor, w, h) else []
  }

  function OrthogonalCandidates(cursor: Location, w: int, h: int): seq<Location>
  {
    var cx, cy := cursor.x, cursor.y;
    (if cy - 1 >= 0 then [Location(cx, cy - 1)] else [])
    + (if cy + 1 < h then [Location(cx, cy + 1)] else [])
    + (if cx - 1 >= 0 then [Location(cx - 1, cy)] else [])
    + (if cx + 1 < w then [Location(cx + 1, cy)] else [])
  }

  function DiagonalCandidates(cursor: Location, w: int, h: int): seq<Location>
  {
    var cx, cy := cursor.x, cursor.y;
    (if cy - 1 >= 0 && cx - 1 >= 0 then [Location(cx - 1, cy - 1)] else [])
    + (if cy + 1 < h && cx - 1 >= 0 then [Location(cx - 1, cy + 1)] else [])
    + (if cy - 1 >= 0 && cx + 1 < w then [Location(cx + 1, cy - 1)] else [])
    + (if cy + 1 < h && cx + 1 < w then [Location(cx + 1, cy + 1)] else [])
  }

  lemma OrthogonalCandidatesSpec(cursor: Location, w: int, h: int)
    requires InGrid(cursor, w, h)
    ensures var s := OrthogonalCandidates(cursor, w, h);
      (forall c :: c in s <==> InGrid(c, w, h) && Adjacent(cursor, c, false)) && Distinct(s) && |s| <= 4
  {
  }

  lemma DiagonalCandidatesSpec(cursor: Location, w: int, h: int)
    requires InGrid(cursor, w, h)
    ensures var s := DiagonalCandidates(cursor, w, h);
      (forall c :: c in s <==> InGrid(c, w, h) && Adjacent(cursor, c, true) && !Adjacent(cursor, c, false))
      && Distinct(s) && |s| <= 4
  {
  }

  lemma NeighborCandidatesSpec(cursor: Location, w: int, h: int, diagonal: bool)
    requires InGrid(cursor, w, h)
    ensures var s := NeighborCandidates(cursor, w, h, diagonal);
      (forall c :: c in s <==> InGrid(c, w, h) && Adjacent(cursor, c, diagonal))
      && Distinct(s) && |s| <= if diagonal then 8 else 4
  {
    var o := OrthogonalCandidates(cursor, w, h);
    var d := DiagonalCandidates(cursor, w, h);
    OrthogonalCandidatesSpec(cursor, w, h);
    DiagonalCandidatesSpec(cursor, w, h);
    if diagonal {
      var s := o + d;
      forall i, j | 0 <= i < j < |s| ensures s[i] != s[j] {
        if j < |o| {
        } else if i < |o| {
          assert s[i] in o && s[j] == d[j - |o|] && s[j] in d;
        } else {
          assert s[i] == d[i - |o|] && s[j] == d[j - |o|];
        }
      }
    } else {
      assert NeighborCandidates(cursor, w, h, diagonal) == o;
    }
  }

  /**
   * get_neighbors_except: the squares adjacent to cursor other than except;
   * the source asserts that except is itself a neighbour of cursor.
   */
  function GetNeighborsExcept(cursor: Location, except: Location, w: int, h: int, diagonal: bool): (r: seq<Location>)
    requires Distance(cursor, except, diagonal) == 1
    ensures InGrid(cursor, w, h) ==>
      (forall c :: c in r <==> InGrid(c, w, h) && Adjacent(cursor, c, diagonal) && c != except)
      && Distinct(r)
    ensures |r| < if diagonal then 8 else 4
  {
    NeighborFacts(cursor, except, w, h, diagonal);
    Without(NeighborCandidates(cursor, w, h, diagonal), except)
  }

  lemma NeighborFacts(cursor: Location, except: Location, w: int, h: int, diagonal: bool)
    requires Distance(cursor, except, diagonal) == 1
    ensures var r := Without(NeighborCandidates(cursor, w, h, diagonal), except);
      (InGrid(cursor, w, h) ==>
        (forall c :: c in r <==> InGrid(c, w, h) && Adjacent(cursor, c, diagonal) && c != except)
        && Distinct(r))
      && |r| < if diagonal then 8 else 4
  {
    var s := NeighborCandidates(cursor, w, h, diagonal);
    if InGrid(cursor, w, h) {
      NeighborCandidatesSpec(cursor, w, h, diagonal);
      WithoutDistinct(s, except);
    }
    WithoutShorterOrthogonal(cursor, except, w, h, diagonal);
  }

  lemma {:induction false} WithoutShorter(s: seq<Location>, except: Location)
    requires except in s
    ensures |Without(s, except)| < |s|
  {
    if s[0] != except {
      WithoutShorter(s[1..], except);
    }
  }

  /**
   * Without except among them, the candidates cannot fill every slot: the
   * neighbour except lies on one side of cursor, so the check towards that
   * side either fails or names except.
   */
  lemma WithoutShorterOrthogonal(cursor: Location, except: Location, w: int, h: int, diagonal: bool)
    requires Distance(cursor, except, diagonal) == 1
    ensures |Without(NeighborCandidates(cursor, w, h, diagonal), except)| < if diagonal then 8 else 4
  {
    var s := NeighborCandidates(cursor, w, h, diagonal);
    if except in s {
      WithoutShorter(s, except);
    }
  }

  /** With both sides at least 2 (SIDE_MIN), an in-grid square always has a neighbour besides except. */
  lemma GetNeighborsExceptNonEmpty(cursor: Location, except: Location, w: int, h: int, diagonal: bool)
    requires 2 <= w && 2 <= h && InGrid(cursor, w, h)
    requires Distance(cursor, except, diagonal) == 1
    ensures |GetNeighborsExcept(cursor, except, w, h, diagonal)| > 0
  {
    var r := GetNeighborsExcept(cursor, except, w, h, diagonal);
    var a := Location(if cursor.x == 0 then 1 else cursor.x - 1, cursor.y);
    var b := Location(cursor.x, if cursor.y == 0 then 1 else cursor.y - 1);
    if a != except {
      assert a in r;
    } else {
      assert b in r;
    }
  }

  // ------------------------------------------------------------- shuffling

  /** SHUFFLE_FACTOR: the shuffle makes 2 * SHUFFLE_FACTOR * area steps. */
  const ShuffleFactor := 5

  /** A Hamiltonian path visits every square of the grid. */
  lemma HamiltonianCovers(p: seq<Location>, w: int, h: int, diagonal: bool, c: Location)
    requires w > 0 && IsHamiltonianPath(p, w, h, diagonal) && InGrid(c, w, h)
    ensures c in p
  {
    DistinctSquaresCover(p, w, h, c);
  }

  /** Walking a Hamiltonian path backwards gives a Hamiltonian path. */
  lemma ReverseHamiltonian(p: seq<Location>, w: int, h: int, diagonal: bool)
    requires IsHamiltonianPath(p, w, h, diagonal)
    ensures IsHamiltonianPath(Reverse(p), w, h, diagonal)
  {
    var r := Reverse(p);
    forall i | 0 < i < |r| ensures Adjacent(r[i - 1], r[i], diagonal) {
      AdjacentSymmetric(p[|p| - 1 - i], p[|p| - i], diagonal);
    }
  }

  /**
   * The shuffle move: when the square p[index] is adjacent to the start
   * p[0], reversing the prefix before it joins p[0] to p[index] and keeps
   * the path Hamiltonian; the far end does not move.
   */
  lemma ReversePrefixHamiltonian(p: seq<Location>, index: int, w: int, h: int, diagonal: bool)
    requires IsHamiltonianPath(p, w, h, diagonal)
    requires 0 < index < |p| && Adjacent(p[0], p[index], diagonal)
    ensures IsHamiltonianPath(Reverse(p[..index]) + p[index..], w, h, diagonal)
  {
    var q := Reverse(p[..index]) + p[index..];
    assert forall i :: 0 <= i < index ==> q[i] == p[index - 1 - i];
    assert forall i :: index <= i < |q| ==> q[i] == p[i];
    forall i, j | 0 <= i < j < |q| ensures q[i] != q[j] {
      var i' := if i < index then index - 1 - i else i;
      var j' := if j < index then index - 1 - j else j;
      assert q[i] == p[i'] && q[j] == p[j'] && i' != j';
      if i' < j' {
        assert p[i'] != p[j'];
      } else {
        assert p[j'] != p[i'];
      }
    }
    forall i | 0 < i < |q| ensures Adjacent(q[i - 1], q[i], diagonal) {
      if i < index {
        AdjacentSymmetric(p[index - i], p[index - 1 - i], diagonal);
      }
    }
  }

  lemma AreaAtLeastFour(w: int, h: int)
    requires 2 <= w && 2 <= h
    ensures w * h >= 4
  {
    MulLeftMono(2, h, w);
  }

  /**
   * One shuffle of random_hampath: pick a random neighbour b of the start
   * that is not its successor, find b in the path and reverse the prefix
   * before it.
   */
  function ShuffleOnce(p: seq<Location>, w: int, h: int, diagonal: bool, rng: nat -> nat, draw: nat): (q: seq<Location>)
    requires 2 <= w && 2 <= h && IsHamiltonianPath(p, w, h, diagonal)
    ensures IsHamiltonianPath(q, w, h, diagonal)
    ensures q[|q| - 1] == p[|p| - 1]
    ensures q[0] != p[0] && q[|q| - 1] != p[0]
  {
    AreaAtLeastFour(w, h);
    DistanceOneIffAdjacent(p[0], p[1], diagonal);
    GetNeighborsExceptNonEmpty(p[0], p[1], w, h, diagonal);
    var neighbors := GetNeighborsExcept(p[0], p[1], w, h, diagonal);
    var n := RandomUpto(rng, draw, |neighbors|);
    var b := neighbors[n];
    HamiltonianCovers(p, w, h, diagonal, b);
    var index := IndexOf(p, b);
    ReversePrefixHamiltonian(p, index, w, h, diagonal);
    ShuffleEnds(p, index, w, h, diagonal);
    Reverse(p[..index]) + p[index..]
  }

  lemma ShuffleEnds(p: seq<Location>, index: int, w: int, h: int, diagonal: bool)
    requires IsHamiltonianPath(p, w, h, diagonal)
    requires 1 < index < |p|
    ensures var q := Reverse(p[..index]) + p[index..];
      |q| == |p| && q[|q| - 1] == p[|p| - 1] && q[0] != p[0] && q[|q| - 1] != p[0]
  {
    var q := Reverse(p[..index]) + p[index..];
    assert q[0] == p[index - 1];
    assert q[|q| - 1] == p[|p| - 1];
  }

  /**
   * random_hampath reverses the whole path once, before step
   * SHUFFLE_FACTOR * area, so that both ends get shuffled.
   */
  function HalfwayReverse(p: seq<Location>, w: int, h: int, diagonal: bool, i: nat): (q: seq<Location>)
    requires IsHamiltonianPath(p, w, h, diagonal)
    ensures IsHamiltonianPath(q, w, h, diagonal)
    ensures i == ShuffleFactor * (w * h) ==> q == Reverse(p)
    ensures i != ShuffleFactor * (w * h) ==> q == p
  {
    ReverseHamiltonian(p, w, h, diagonal);
    if i == ShuffleFactor * (w * h) then Reverse(p) else p
  }

  /** The path after the first n passes of random_hampath's shuffle loop, starting from p. */
  function Shuffled(p: seq<Location>, w: int, h: int, diagonal: bool, rng: nat -> nat, draw: nat, n: nat): (q: seq<Location>)
    requires 2 <= w && 2 <= h && IsHamiltonianPath(p, w, h, diagonal)
    ensures IsHamiltonianPath(q, w, h, diagonal)
  {
    if n == 0 then p
    else
      var before := Shuffled(p, w, h, diagonal, rng, draw, n - 1);
      ShuffleOnce(HalfwayReverse(before, w, h, diagonal, n - 1), w, h, diagonal, rng, draw + (n - 1))
  }

  /**
   * random_hampath: the simple path, shuffled 2 * SHUFFLE_FACTOR * area
   * times; draws random numbers draw, draw + 1, ... and returns the next
   * unused draw.
   */
  method RandomHampath(w: nat, h: nat, diagonal: bool, rng: nat -> nat, draw: nat)
    returns (path: array<Location>, next: nat)
    requires 2 <= w && 2 <= h
    ensures fresh(path)
    ensures IsHamiltonianPath(Boustrophedon(w, h), w, h, diagonal)
    ensures path[..] == Shuffled(Boustrophedon(w, h), w, h, diagonal, rng, draw, 2 * ShuffleFactor * (w * h))
    ensures IsHamiltonianPath(path[..], w, h, diagonal)
    ensures next == draw + 2 * ShuffleFactor * (w * h)
  {
    var area := w * h;
    AreaAtLeastFour(w, h);
    path := SimpleHampath(w, h);
    BoustrophedonHamiltonian(w, h, diagonal);
    ghost var start := path[..];
    var i := 0;
    while i < 2 * ShuffleFactor * area
      invariant 0 <= i <= 2 * ShuffleFactor * area && path.Length == area
      invariant path[..] == Shuffled(start, w, h, diagonal, rng, draw, i)
      decreases 2 * ShuffleFactor * area - i
    {
      ShuffleRound(path, start, w, h, diagonal, rng, draw, i);
      i := i + 1;
    }
    next := draw + 2 * ShuffleFactor * area;
  }

  /** One pass of the loop of random_hampath takes Shuffled from n passes to n + 1. */
  lemma ShuffledNext(p: seq<Location>, before: seq<Location>, mid: seq<Location>, after: seq<Location>,
                     w: int, h: int, diagonal: bool, rng: nat -> nat, draw: nat, n: nat)
    requires 2 <= w && 2 <= h && IsHamiltonianPath(p, w, h, diagonal)
    requires before == Shuffled(p, w, h, diagonal, rng, draw, n)
    requires mid == HalfwayReverse(before, w, h, diagonal, n)
    requires after == ShuffleOnce(mid, w, h, diagonal, rng, draw + n)
    ensures after == Shuffled(p, w, h, diagonal, rng, draw, n + 1)
  {
    ShuffledStep(p, w, h, diagonal, rng, draw, n);
  }

  lemma ShuffledStep(p: seq<Location>, w: int, h: int, diagonal: bool, rng: nat -> nat, draw: nat, n: nat)
    requires 2 <= w && 2 <= h && IsHamiltonianPath(p, w, h, diagonal)
    ensures var before := Shuffled(p, w, h, diagonal, rng, draw, n);
      Shuffled(p, w, h, diagonal, rng, draw, n + 1)
      == ShuffleOnce(HalfwayReverse(before, w, h, diagonal, n), w, h, diagonal, rng, draw + n)
  {
  }

  /** One pass of random_hampath's loop: the halfway reversal when due, then one shuffle. */
  method ShuffleRound(path: array<Location>, ghost start: seq<Location>, w: nat, h: nat, diagonal: bool,
                      rng: nat -> nat, draw: nat, i: nat)
    requires 2 <= w && 2 <= h && IsHamiltonianPath(start, w, h, diagonal)
    requires path[..] == Shuffled(start, w, h, diagonal, rng, draw, i)
    modifies path
    ensures path[..] == Shuffled(start, w, h, diagonal, rng, draw, i + 1)
  {
    ghost var before := path[..];
    HalfwayStep(path, w, h, diagonal, i);
    ghost var mid := path[..];
    ShuffleStep(path, mid, w, h, diagonal, rng, draw + i);
    ShuffledNext(start, before, mid, path[..], w, h, diagonal, rng, draw, i);
  }

  /** The start of each pass of random_hampath's loop: the reversal halfway through the passes. */
  method HalfwayStep(path: array<Location>, w: nat, h: nat, diagonal: bool, i: nat)
    requires 2 <= w && 2 <= h && IsHamiltonianPath(path[..], w, h, diagonal)
    modifies path
    ensures path[..] == HalfwayReverse(old(path[..]), w, h, diagonal, i)
  {
    var area := path.Length;
    ghost var before := path[..];
    if i == ShuffleFactor * area {
      ReverseLocations(path, area);
      assert before[..area] == before;
    }
  }

  /** The body of random_hampath's loop after the halfway reversal. */
  method ShuffleStep(path: array<Location>, ghost current: seq<Location>, w: int, h: int, diagonal: bool, rng: nat -> nat, draw: nat)
    requires 2 <= w && 2 <= h && path[..] == current && IsHamiltonianPath(current, w, h, diagonal)
    modifies path
    ensures path[..] == ShuffleOnce(current, w, h, diagonal, rng, draw)
  {
    AreaAtLeastFour(w, h);
    DistanceOneIffAdjacent(path[0], path[1], diagonal);
    GetNeighborsExceptNonEmpty(path[0], path[1], w, h, diagonal);
    var neighbors := GetNeighborsExcept(path[0], path[1], w, h, diagonal);
    var n := RandomUpto(rng, draw, |neighbors|);
    HamiltonianCovers(current, w, h, diagonal, neighbors[n]);
    assert path[..path.Length] == current;
    var index := FindLocation(path, path.Length, neighbors[n]);
    assert index == IndexOf(current, neighbors[n]);
    assert index > 0;
    ReverseLocations(path, index);
  }
}
