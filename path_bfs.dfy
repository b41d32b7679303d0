/**
 * The breadth-first flood of the Number-Link generator (unfinished/path.c,
 * bfs).  A w x h grid of coloured squares is stored row by row: square k
 * lies in column k % w of row k / w.  The flood starts from one square and
 * reaches every square of the same colour that can be entered from it by
 * orthogonal moves through squares of that colour.
 */
module PathBfs {
  import opened Geometry

  /** The four directions in the numbering of path.c: left, up, right, down. */
  const Left := 0
  const Up := 1
  const Right := 2
  const Down := 3

  function DX(dir: int): int
  {
    if dir == Left then -1 else if dir == Right then 1 else 0
  }

  function DY(dir: int): int
  {
    if dir == Up then -1 else if dir == Down then 1 else 0
  }

  /** The direction that undoes a step in direction dir. */
  function Opposite(dir: int): int
  {
    (dir + 2) % 4
  }

  /** The square one step from square k in direction dir lies on the grid. */
  predicate StepInGrid(k: int, dir: int, w: int, h: int)
    requires w > 0
  {
    0 <= k % w + DX(dir) < w && 0 <= k / w + DY(dir) < h
  }

  /** The index of the square one step from square k in direction dir. */
  function Step(k: int, dir: int, w: int): int
    requires w > 0
  {
    (k / w + DY(dir)) * w + (k % w + DX(dir))
  }

  lemma StepFacts(k: int, dir: int, w: int, h: int)
    requires w > 0 && 0 <= k < w * h && StepInGrid(k, dir, w, h)
    ensures 0 <= Step(k, dir, w) < w * h
    ensures Step(k, dir, w) % w == k % w + DX(dir) && Step(k, dir, w) / w == k / w + DY(dir)
  {
    RowFits(k / w + DY(dir), w, h);
    DivModUnique(Step(k, dir, w), w, k / w + DY(dir), k % w + DX(dir));
  }

  /** Stepping back the opposite way returns to the square one came from. */
  lemma StepBack(k: int, dir: int, w: int, h: int)
    requires w > 0 && 0 <= k < w * h && 0 <= dir < 4 && StepInGrid(k, dir, w, h)
    ensures StepInGrid(Step(k, dir, w), Opposite(dir), w, h)
    ensures Step(Step(k, dir, w), Opposite(dir), w) == k
  {
    StepFacts(k, dir, w, h);
    assert DX(Opposite(dir)) == -DX(dir) && DY(Opposite(dir)) == -DY(dir);
  }

  /** Some neighbour of square k lies one nearer the start. */
  ghost predicate HasParent(dist: seq<int>, w: int, h: int, k: int)
    requires w > 0 && 0 <= k < |dist|
  {
    exists dir :: 0 <= dir < 4 && StepInGrid(k, dir, w, h) && 0 <= Step(k, dir, w) < |dist|
      && dist[Step(k, dir, w)] == dist[k] - 1
  }

  /**
   * What bfs leaves behind, for a flood of grid g started at square s:
   * dist[s] is 0 and list[0] is s; every square of dist >= 0 has the start's
   * colour and is one of the distinct squares list[0 .. n), which come in
   * nondecreasing distance; the rest of list and of dist is -1; every
   * reached square other than s has a neighbour one nearer; and a
   * same-coloured neighbour of a reached square is reached, at most one
   * further away.
   */
  ghost predicate BfsResult(g: seq<int>, w: int, h: int, s: int, dist: seq<int>, list: seq<int>, n: int)
  {
    Layout(g, w, h, s, dist, list, n) && Closed(g, w, h, s, dist)
  }

  /** A same-coloured neighbour of a reached square is reached, at most one further away. */
  ghost predicate Closed(g: seq<int>, w: int, h: int, s: int, dist: seq<int>)
    requires w > 0 && |g| == w * h && |dist| == w * h && 0 <= s < w * h
  {
    forall k, dir :: 0 <= k < w * h && dist[k] >= 0 && 0 <= dir < 4 && StepInGrid(k, dir, w, h)
      && 0 <= Step(k, dir, w) < w * h && g[Step(k, dir, w)] == g[s]
      ==> 0 <= dist[Step(k, dir, w)] <= dist[k] + 1
  }

  /** The facts about dist and list that hold at every point of the flood. */
  ghost predicate Layout(g: seq<int>, w: int, h: int, s: int, dist: seq<int>, list: seq<int>, n: int)
  {
    w > 0 && h > 0 && |g| == w * h && |dist| == w * h && |list| == w * h && 0 <= s < w * h
    && 1 <= n <= w * h && list[0] == s && dist[s] == 0
    && Coloured(g, s, dist) && Listing(dist, list, n) && Ordered(dist, list, n) && Parented(dist, w, h)
  }

  /** Reached squares have the start's colour; only the start is at distance 0. */
  ghost predicate Coloured(g: seq<int>, s: int, dist: seq<int>)
    requires |g| == |dist| && 0 <= s < |g|
  {
    (forall k :: 0 <= k < |dist| ==> -1 <= dist[k])
    && (forall k :: 0 <= k < |dist| && dist[k] >= 0 ==> g[k] == g[s])
    && (forall k :: 0 <= k < |dist| && dist[k] == 0 ==> k == s)
  }

  /** list[0 .. n) lists the reached squares, each once; the rest of list is -1. */
  ghost predicate Listing(dist: seq<int>, list: seq<int>, n: int)
    requires |dist| == |list| && 0 <= n <= |list|
  {
    (forall j :: 0 <= j < n ==> 0 <= list[j] < |dist| && dist[list[j]] >= 0)
    && (forall k :: 0 <= k < |dist| && dist[k] >= 0 ==> exists j :: 0 <= j < n && list[j] == k)
    && (forall j, k :: 0 <= j < k < n ==> list[j] != list[k])
    && (forall j :: n <= j < |list| ==> list[j] == -1)
  }

  /** The listed squares come in nondecreasing distance. */
  ghost predicate Ordered(dist: seq<int>, list: seq<int>, n: int)
    requires |dist| == |list| && 0 <= n <= |list|
    requires forall j :: 0 <= j < n ==> 0 <= list[j] < |dist|
  {
    forall j, k :: 0 <= j <= k < n ==> dist[list[j]] <= dist[list[k]]
  }

  /** Every square reached beyond the start has a neighbour one nearer. */
  ghost predicate Parented(dist: seq<int>, w: int, h: int)
    requires w > 0
  {
    forall k {:trigger HasParent(dist, w, h, k)} :: 0 <= k < |dist| && dist[k] > 0 ==> HasParent(dist, w, h, k)
  }

  /** Every same-coloured neighbour of the squares list[0 .. m) is reached, at most one further away. */
  ghost predicate ClosedUpTo(g: seq<int>, w: int, h: int, s: int, dist: seq<int>, list: seq<int>, m: int)
    requires w > 0 && |g| == w * h && |dist| == w * h && |list| == w * h && 0 <= s < w * h && 0 <= m <= w * h
  {
    forall j, dir :: 0 <= j < m && 0 <= list[j] < w * h && 0 <= dir < 4 && StepInGrid(list[j], dir, w, h)
      && 0 <= Step(list[j], dir, w) < w * h && g[Step(list[j], dir, w)] == g[s]
      ==> 0 <= dist[Step(list[j], dir, w)] <= dist[list[j]] + 1
  }

  /** The same for the neighbours of square i in the directions below dirs. */
  ghost predicate ClosedDirs(g: seq<int>, w: int, h: int, s: int, dist: seq<int>, i: int, dirs: int)
    requires w > 0 && |g| == w * h && |dist| == w * h && 0 <= s < w * h && 0 <= i < w * h
  {
    forall dir :: 0 <= dir < dirs && dir < 4 && StepInGrid(i, dir, w, h)
      && 0 <= Step(i, dir, w) < w * h && g[Step(i, dir, w)] == g[s]
      ==> 0 <= dist[Step(i, dir, w)] <= dist[i] + 1
  }

  /** The invariant of the worklist loop: list[0 .. done) has been processed. */
  ghost predicate Searched(g: seq<int>, w: int, h: int, s: int, dist: seq<int>, list: seq<int>, done: int, n: int)
  {
    Layout(g, w, h, s, dist, list, n) && 0 <= done <= n
    && ClosedUpTo(g, w, h, s, dist, list, done)
    && (done < n ==> dist[list[n - 1]] <= dist[list[done]] + 1)
  }

  /** The invariant while square list[done - 1] has its directions below dirs processed. */
  ghost predicate Visiting(g: seq<int>, w: int, h: int, s: int, dist: seq<int>, list: seq<int>, done: int, n: int, dirs: int)
  {
    Layout(g, w, h, s, dist, list, n) && 1 <= done <= n && 0 <= dirs <= 4
    && ClosedUpTo(g, w, h, s, dist, list, done - 1)
    && ClosedDirs(g, w, h, s, dist, list[done - 1], dirs)
    && dist[list[n - 1]] <= dist[list[done - 1]] + 1
  }

  /** n distinct squares and one more square not among them fit only in a grid of more than n squares. */
  lemma RoomForOneMore(list: seq<int>, n: int, size: int, k: int)
    requires 0 <= n <= |list| && 0 <= k < size
    requires forall j :: 0 <= j < n ==> 0 <= list[j] < size
    requires forall j, i :: 0 <= j < i < n ==> list[j] != list[i]
    requires forall j :: 0 <= j < n ==> list[j] != k
    ensures n < size
  {
    var p := list[..n];
    SetOfDistinct(p);
    var ids := seq(size, i => i);
    SetOfDistinct(ids);
    var listed := set j | 0 <= j < |p| :: p[j];
    var all := set j | 0 <= j < |ids| :: ids[j];
    assert listed + {k} <= all by {
      forall i | i in listed + {k} ensures i in all {
        assert ids[i] == i;
      }
    }
    SubsetCard(listed + {k}, all);
  }

  /** Listing a newly found same-coloured neighbour ii of square i keeps the layout. */
  lemma ListNeighbour(g: seq<int>, w: int, h: int, s: int, dist: seq<int>, list: seq<int>, n: int, i: int, dir: int)
    requires Layout(g, w, h, s, dist, list, n)
    requires 0 <= i < w * h && dist[i] >= 0 && 0 <= dir < 4 && StepInGrid(i, dir, w, h)
    requires 0 <= Step(i, dir, w) < w * h && g[Step(i, dir, w)] == g[s] && dist[Step(i, dir, w)] == -1
    requires dist[list[n - 1]] <= dist[i] + 1
    ensures n < w * h
    ensures Layout(g, w, h, s, dist[Step(i, dir, w) := dist[i] + 1], list[n := Step(i, dir, w)], n + 1)
  {
    var ii := Step(i, dir, w);
    RoomForOneMore(list, n, w * h, ii);
    ListingGrows(dist, list, n, ii, dist[i] + 1);
    OrderedGrows(dist, list, n, ii, dist[i] + 1);
    ParentedGrows(dist, w, h, i, dir);
  }

  lemma ListingGrows(dist: seq<int>, list: seq<int>, n: int, ii: int, d: int)
    requires |dist| == |list| && 0 <= n < |list| && 0 <= ii < |dist| && dist[ii] == -1 && d >= 0
    requires Listing(dist, list, n)
    ensures Listing(dist[ii := d], list[n := ii], n + 1)
  {
    var dist', list' := dist[ii := d], list[n := ii];
    forall k | 0 <= k < |dist'| && dist'[k] >= 0
      ensures exists j :: 0 <= j < n + 1 && list'[j] == k
    {
      if k == ii {
        assert list'[n] == k;
      } else {
        var j :| 0 <= j < n && list[j] == k;
        assert list'[j] == k;
      }
    }
  }

  lemma OrderedGrows(dist: seq<int>, list: seq<int>, n: int, ii: int, d: int)
    requires |dist| == |list| && 1 <= n < |list| && 0 <= ii < |dist| && dist[ii] == -1
    requires Listing(dist, list, n) && Ordered(dist, list, n) && dist[list[n - 1]] <= d
    ensures Ordered(dist[ii := d], list[n := ii], n + 1)
  {
    var dist', list' := dist[ii := d], list[n := ii];
    forall j, k | 0 <= j <= k < n + 1
      ensures dist'[list'[j]] <= dist'[list'[k]]
    {
      if k < n {
        assert dist'[list'[j]] == dist[list[j]] && dist'[list'[k]] == dist[list[k]];
      } else if j < n {
        assert dist'[list'[j]] == dist[list[j]] <= dist[list[n - 1]];
      }
    }
  }

  lemma ParentedGrows(dist: seq<int>, w: int, h: int, i: int, dir: int)
    requires w > 0 && |dist| == w * h && 0 <= i < w * h && dist[i] >= 0 && 0 <= dir < 4
    requires StepInGrid(i, dir, w, h) && 0 <= Step(i, dir, w) < w * h && dist[Step(i, dir, w)] == -1
    requires Parented(dist, w, h)
    ensures Parented(dist[Step(i, dir, w) := dist[i] + 1], w, h)
  {
    var ii := Step(i, dir, w);
    var dist' := dist[ii := dist[i] + 1];
    StepBack(i, dir, w, h);
    forall k | 0 <= k < |dist'| && dist'[k] > 0
      ensures HasParent(dist', w, h, k)
    {
      if k == ii {
        assert dist'[Step(ii, Opposite(dir), w)] == dist'[ii] - 1;
      } else {
        assert HasParent(dist, w, h, k);
        var d :| 0 <= d < 4 && StepInGrid(k, d, w, h) && 0 <= Step(k, d, w) < |dist|
          && dist[Step(k, d, w)] == dist[k] - 1;
        assert dist'[Step(k, d, w)] == dist'[k] - 1;
      }
    }
  }

  /** Listing ii keeps the closure facts already established. */
  lemma ListNeighbourKeepsClosed(g: seq<int>, w: int, h: int, s: int, dist: seq<int>, list: seq<int>, done: int, n: int, dir: int)
    requires Layout(g, w, h, s, dist, list, n) && 1 <= done <= n && 0 <= dir < 4
    requires ClosedUpTo(g, w, h, s, dist, list, done - 1)
    requires ClosedDirs(g, w, h, s, dist, list[done - 1], dir)
    requires StepInGrid(list[done - 1], dir, w, h) && 0 <= Step(list[done - 1], dir, w) < w * h
    requires dist[Step(list[done - 1], dir, w)] == -1 && n < w * h
    ensures ClosedUpTo(g, w, h, s, dist[Step(list[done - 1], dir, w) := dist[list[done - 1]] + 1],
                       list[n := Step(list[done - 1], dir, w)], done - 1)
    ensures ClosedDirs(g, w, h, s, dist[Step(list[done - 1], dir, w) := dist[list[done - 1]] + 1],
                       list[done - 1], dir + 1)
  {
    var i := list[done - 1];
    var ii := Step(i, dir, w);
  }

  /** A neighbour already reached is at most one further than the square being processed. */
  lemma KnownNeighbour(g: seq<int>, w: int, h: int, s: int, dist: seq<int>, list: seq<int>, done: int, n: int, dir: int)
    requires Visiting(g, w, h, s, dist, list, done, n, dir) && dir < 4
    requires StepInGrid(list[done - 1], dir, w, h) && 0 <= Step(list[done - 1], dir, w) < w * h
    requires dist[Step(list[done - 1], dir, w)] != -1
    ensures Visiting(g, w, h, s, dist, list, done, n, dir + 1)
  {
    var ii := Step(list[done - 1], dir, w);
    var j :| 0 <= j < n && list[j] == ii;
    assert dist[list[j]] <= dist[list[n - 1]];
  }

  /** Starting to process list[done]: no direction of it has been looked at yet. */
  lemma BeginVisit(g: seq<int>, w: int, h: int, s: int, dist: seq<int>, list: seq<int>, done: int, n: int)
    requires Searched(g, w, h, s, dist, list, done, n) && done < n
    ensures Visiting(g, w, h, s, dist, list, done + 1, n, 0)
  {
  }

  /** Finishing the four directions of list[done - 1] moves it to the processed part. */
  lemma EndVisit(g: seq<int>, w: int, h: int, s: int, dist: seq<int>, list: seq<int>, done: int, n: int)
    requires Visiting(g, w, h, s, dist, list, done, n, 4)
    ensures Searched(g, w, h, s, dist, list, done, n)
  {
    CloseSquare(g, w, h, s, dist, list, done);
    if done < n {
      assert dist[list[done - 1]] <= dist[list[done]];
    }
  }

  lemma CloseSquare(g: seq<int>, w: int, h: int, s: int, dist: seq<int>, list: seq<int>, done: int)
    requires w > 0 && |g| == w * h && |dist| == w * h && |list| == w * h && 0 <= s < w * h
    requires 1 <= done <= w * h && 0 <= list[done - 1] < w * h
    requires ClosedUpTo(g, w, h, s, dist, list, done - 1) && ClosedDirs(g, w, h, s, dist, list[done - 1], 4)
    ensures ClosedUpTo(g, w, h, s, dist, list, done)
  {
  }

  /** When every listed square has been processed, the flood is complete. */
  lemma SearchComplete(g: seq<int>, w: int, h: int, s: int, dist: seq<int>, list: seq<int>, n: int)
    requires Searched(g, w, h, s, dist, list, n, n)
    ensures BfsResult(g, w, h, s, dist, list, n)
  {
    forall k, dir | 0 <= k < w * h && dist[k] >= 0 && 0 <= dir < 4 && StepInGrid(k, dir, w, h)
      && 0 <= Step(k, dir, w) < w * h && g[Step(k, dir, w)] == g[s]
      ensures 0 <= dist[Step(k, dir, w)] <= dist[k] + 1
    {
      var j :| 0 <= j < n && list[j] == k;
    }
  }

  /**
   * bfs: floods from square (x, y) of grid and returns the number of squares
   * reached; dist and list are filled as BfsResult describes.
   */
  method Bfs(w: int, h: int, grid: array<int>, x: int, y: int, dist: array<int>, list: array<int>) returns (n: int)
    requires 0 < w && 0 < h && grid.Length == w * h && dist.Length == w * h && list.Length == w * h
    requires 0 <= x < w && 0 <= y < h
    requires grid != dist && grid != list && dist != list
    modifies dist, list
    ensures BfsResult(grid[..], w, h, y * w + x, dist[..], list[..], n)
  {
    Unreached(dist, list);
    RowFits(y, w, h);
    var s := y * w + x;
    DivModUnique(s, w, y, x);
    n := 1;
    var done := 0;
    list[0] := s;
    dist[s] := 0;
    var c := grid[s];
    assert list[..1] == [s];
    ghost var g := grid[..];
    while done < n
      invariant grid[..] == g && Searched(g, w, h, s, dist[..], list[..], done, n)
      decreases w * h - done
    {
      BeginVisit(g, w, h, s, dist[..], list[..], done, n);
      done := done + 1;
      n := Visit(w, h, grid, c, s, dist, list, done, n);
      assert grid[..] == g;
    }
    SearchComplete(g, w, h, s, dist[..], list[..], n);
  }

  /** The first loop of bfs: nothing is reached or listed yet. */
  method Unreached(dist: array<int>, list: array<int>)
    requires dist != list && dist.Length == list.Length
    modifies dist, list
    ensures forall k :: 0 <= k < dist.Length ==> dist[k] == -1 && list[k] == -1
  {
    var i := 0;
    while i < dist.Length
      invariant 0 <= i <= dist.Length
      invariant forall k :: 0 <= k < i ==> dist[k] == -1 && list[k] == -1
    {
      dist[i] := -1;
      list[i] := -1;
      i := i + 1;
    }
  }

  /** The body of the worklist loop: the four neighbours of list[done - 1]. */
  method Visit(w: int, h: int, grid: array<int>, c: int, s: int, dist: array<int>, list: array<int>, done: int, n0: int)
    returns (n: int)
    requires grid != dist && grid != list && dist != list
    requires Visiting(grid[..], w, h, s, dist[..], list[..], done, n0, 0) && c == grid[s]
    modifies dist, list
    ensures Searched(grid[..], w, h, s, dist[..], list[..], done, n)
  {
    var i := list[done - 1];
    var y := i / w;
    var x := i % w;
    n := n0;
    var j := 0;
    while j < 4
      invariant 0 <= j <= 4 && list[done - 1] == i
      invariant Visiting(grid[..], w, h, s, dist[..], list[..], done, n, j)
    {
      n := Look(w, h, grid, c, s, dist, list, done, n, i, x, y, j);
      j := j + 1;
    }
    EndVisit(grid[..], w, h, s, dist[..], list[..], done, n);
  }

  /** One pass of the inner loop: the neighbour of square i = (x, y) in direction j. */
  method Look(w: int, h: int, grid: array<int>, c: int, s: int, dist: array<int>, list: array<int>, done: int, n0: int,
              i: int, x: int, y: int, j: int) returns (n: int)
    requires grid != dist && grid != list && dist != list && 0 <= j < 4
    requires Visiting(grid[..], w, h, s, dist[..], list[..], done, n0, j) && c == grid[s]
    requires list[done - 1] == i && y == i / w && x == i % w
    modifies dist, list
    ensures list[done - 1] == i
    ensures Visiting(grid[..], w, h, s, dist[..], list[..], done, n, j + 1)
  {
    n := n0;
    var xx := x + DX(j);
    var yy := y + DY(j);
    if 0 <= xx < w && 0 <= yy < h {
      assert StepInGrid(i, j, w, h);
      StepFacts(i, j, w, h);
      var ii := Step(i, j, w);
      if grid[ii] == c && dist[ii] == -1 {
        n := Enqueue(w, h, grid, s, dist, list, done, n, i, j);
      } else if dist[ii] != -1 {
        KnownNeighbour(grid[..], w, h, s, dist[..], list[..], done, n, j);
      } else {
        VisitSkip(grid[..], w, h, s, dist[..], list[..], done, n, j);
      }
    } else {
      VisitSkip(grid[..], w, h, s, dist[..], list[..], done, n, j);
    }
  }

  /** Lists the unreached neighbour of square i in direction j, one further from s than i. */
  method Enqueue(w: int, h: int, grid: array<int>, s: int, dist: array<int>, list: array<int>, done: int, n0: int,
                 i: int, j: int) returns (n: int)
    requires grid != dist && grid != list && dist != list && 0 <= j < 4
    requires Visiting(grid[..], w, h, s, dist[..], list[..], done, n0, j) && list[done - 1] == i
    requires StepInGrid(i, j, w, h) && 0 <= Step(i, j, w) < w * h
    requires grid[Step(i, j, w)] == grid[s] && dist[Step(i, j, w)] == -1
    modifies dist, list
    ensures list[done - 1] == i && n == n0 + 1
    ensures Visiting(grid[..], w, h, s, dist[..], list[..], done, n, j + 1)
  {
    ghost var g, d, l := grid[..], dist[..], list[..];
    VisitNew(g, w, h, s, d, l, done, n0, j);
    Record(dist, list, Step(i, j, w), dist[i] + 1, n0);
    assert grid[..] == g;
    VisitNewState(g, w, h, s, d, l, done, n0, j, dist[..], list[..]);
    n := n0 + 1;
  }

  /** dist[ii] := d; list[n] := ii. */
  method Record(dist: array<int>, list: array<int>, ii: int, d: int, n: int)
    requires dist != list && 0 <= ii < dist.Length && 0 <= n < list.Length
    modifies dist, list
    ensures dist[..] == old(dist[..])[ii := d] && list[..] == old(list[..])[n := ii]
  {
    dist[ii] := d;
    list[n] := ii;
  }

  /** Listing a newly found neighbour of the square being processed. */
  lemma VisitNew(g: seq<int>, w: int, h: int, s: int, dist: seq<int>, list: seq<int>, done: int, n: int, dir: int)
    requires Visiting(g, w, h, s, dist, list, done, n, dir) && dir < 4
    requires StepInGrid(list[done - 1], dir, w, h) && 0 <= Step(list[done - 1], dir, w) < w * h
    requires g[Step(list[done - 1], dir, w)] == g[s] && dist[Step(list[done - 1], dir, w)] == -1
    ensures n < w * h
    ensures Visiting(g, w, h, s, dist[Step(list[done - 1], dir, w) := dist[list[done - 1]] + 1],
                     list[n := Step(list[done - 1], dir, w)], done, n + 1, dir + 1)
  {
    ListNeighbour(g, w, h, s, dist, list, n, list[done - 1], dir);
    ListNeighbourKeepsClosed(g, w, h, s, dist, list, done, n, dir);
  }

  /** The same, for the arrays as they stand after the two writes. */
  lemma VisitNewState(g: seq<int>, w: int, h: int, s: int, dist: seq<int>, list: seq<int>, done: int, n: int, dir: int,
                      dist': seq<int>, list': seq<int>)
    requires Visiting(g, w, h, s, dist, list, done, n, dir) && dir < 4
    requires StepInGrid(list[done - 1], dir, w, h) && 0 <= Step(list[done - 1], dir, w) < w * h
    requires g[Step(list[done - 1], dir, w)] == g[s] && dist[Step(list[done - 1], dir, w)] == -1
    requires n < w * h
    requires dist' == dist[Step(list[done - 1], dir, w) := dist[list[done - 1]] + 1]
    requires list' == list[n := Step(list[done - 1], dir, w)]
    ensures Visiting(g, w, h, s, dist', list', done, n + 1, dir + 1)
  {
    VisitNew(g, w, h, s, dist, list, done, n, dir);
  }

  /** A neighbour off the grid or of another colour needs nothing. */
  lemma VisitSkip(g: seq<int>, w: int, h: int, s: int, dist: seq<int>, list: seq<int>, done: int, n: int, dir: int)
    requires Visiting(g, w, h, s, dist, list, done, n, dir) && dir < 4
    requires StepInGrid(list[done - 1], dir, w, h) && 0 <= Step(list[done - 1], dir, w) < w * h
             ==> g[Step(list[done - 1], dir, w)] != g[s]
    ensures Visiting(g, w, h, s, dist, list, done, n, dir + 1)
  {
  }

  /**
   * A walk of at most d orthogonal steps leads from square k to the start s
   * through squares of the start's colour.
   */
  ghost predicate Reachable(g: seq<int>, w: int, h: int, s: int, k: int, d: nat)
    decreases d
  {
    w > 0 && 0 <= s < |g| && 0 <= k < |g| && g[k] == g[s]
    && (k == s || (d > 0 && exists dir :: 0 <= dir < 4 && StepInGrid(k, dir, w, h)
                              && Reachable(g, w, h, s, Step(k, dir, w), d - 1)))
  }

  /** Every reached square is reachable in dist[k] steps, by following parents. */
  lemma {:induction false} ReachedIsReachable(g: seq<int>, w: int, h: int, s: int, dist: seq<int>, list: seq<int>, n: int, k: int)
    requires BfsResult(g, w, h, s, dist, list, n) && 0 <= k < w * h && dist[k] >= 0
    ensures Reachable(g, w, h, s, k, dist[k])
    decreases dist[k]
  {
    if dist[k] > 0 {
      assert HasParent(dist, w, h, k);
      var dir :| 0 <= dir < 4 && StepInGrid(k, dir, w, h) && 0 <= Step(k, dir, w) < |dist|
        && dist[Step(k, dir, w)] == dist[k] - 1;
      ReachedIsReachable(g, w, h, s, dist, list, n, Step(k, dir, w));
    }
  }

  /** Every square reachable in d steps is reached, at distance at most d. */
  lemma {:induction false} ReachableIsReached(g: seq<int>, w: int, h: int, s: int, dist: seq<int>, list: seq<int>, n: int, k: int, d: nat)
    requires BfsResult(g, w, h, s, dist, list, n) && Reachable(g, w, h, s, k, d)
    ensures 0 <= dist[k] <= d
    decreases d
  {
    if k != s {
      var dir :| 0 <= dir < 4 && StepInGrid(k, dir, w, h) && Reachable(g, w, h, s, Step(k, dir, w), d - 1);
      var m := Step(k, dir, w);
      ReachableIsReached(g, w, h, s, dist, list, n, m, d - 1);
      StepBack(k, dir, w, h);
      assert Step(m, Opposite(dir), w) == k;
    }
  }

  /**
   * dist holds the true orthogonal distance from the start through squares
   * of its colour, and -1 exactly for the squares no such walk reaches.
   */
  lemma BfsDistanceIsShortest(g: seq<int>, w: int, h: int, s: int, dist: seq<int>, list: seq<int>, n: int, k: int, d: nat)
    requires BfsResult(g, w, h, s, dist, list, n) && 0 <= k < w * h
    ensures dist[k] >= 0 ==> Reachable(g, w, h, s, k, dist[k])
    ensures Reachable(g, w, h, s, k, d) ==> 0 <= dist[k] <= d
  {
    if dist[k] >= 0 {
      ReachedIsReachable(g, w, h, s, dist, list, n, k);
    }
    if Reachable(g, w, h, s, k, d) {
      ReachableIsReached(g, w, h, s, dist, list, n, k, d);
    }
  }

  /** The returned count is the number of squares reached. */
  lemma BfsCountsReached(g: seq<int>, w: int, h: int, s: int, dist: seq<int>, list: seq<int>, n: int)
    requires BfsResult(g, w, h, s, dist, list, n)
    ensures |set k | 0 <= k < w * h && dist[k] >= 0| == n
  {
    var p := list[..n];
    SetOfDistinct(p);
    var reached := set k | 0 <= k < w * h && dist[k] >= 0;
    assert reached == set j | 0 <= j < |p| :: p[j] by {
      forall k | k in reached ensures k in set j | 0 <= j < |p| :: p[j] {
        assert k in p;
        var j :| 0 <= j < |p| && p[j] == k;
      }
    }
  }
}
