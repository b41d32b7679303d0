/**
 * The puzzle generator of hamilton.c (generate_puzzle): a random
 * Hamiltonian path numbered 1 .. area is the solution; the ring and border
 * patterns blank a fixed set of squares and keep the puzzle when the solver
 * accepts it, the other patterns try to blank the clues one at a time (in
 * 180-degree pairs for the symmetric pattern) in a shuffled order, keeping
 * each removal the solver accepts.  One attempt of the retry loop is
 * modelled; the random source is the stream `rng`.
 */
module Generator {
  import opened Wrappers
  import opened Geometry
  import opened Gaps
  import opened Rules
  import opened Consistency
  import opened HamPath
  import opened Randomness
  import opened Search
  import opened GameParams

  /** MAX_GAP_LENGTH: the longest run of missing numbers a generated puzzle may have. */
  const MaxGapLength := 9

  // ---------------------------------------------------------------------
  // path_to_grid
  // ---------------------------------------------------------------------

  /** grid numbers the path: the square path[i] holds i + 1. */
  ghost predicate NumbersPath(grid: seq<int>, p: seq<Location>, w: int)
  {
    forall i :: 0 <= i < |p| ==> 0 <= Idx(p[i], w) < |grid| && grid[Idx(p[i], w)] == i + 1
  }

  /** path_to_grid: write i + 1 on the square of path[i], for every i. */
  method PathToGrid(path: array<Location>, w: int, h: int) returns (grid: array<int>)
    requires 1 <= w && 1 <= h && path.Length == w * h
    requires forall i :: 0 <= i < path.Length ==> InGrid(path[i], w, h)
    requires Distinct(path[..])
    ensures fresh(grid) && grid.Length == w * h
    ensures NumbersPath(grid[..], path[..], w)
  {
    var area := w * h;
    grid := new int[area];
    var i := 0;
    while i < area
      invariant 0 <= i <= area
      invariant forall j :: 0 <= j < i ==> 0 <= Idx(path[j], w) < area && grid[Idx(path[j], w)] == j + 1
    {
      var x := path[i].x;
      var y := path[i].y;
      IdxInRange(path[i], w, h);
      forall j | 0 <= j < i
        ensures Idx(path[j], w) != Idx(path[i], w)
      {
        DistinctIdx(path[..], w, h, j, i);
      }
      grid[y * w + x] := i + 1;
      i := i + 1;
    }
  }

  /** Distinct squares of the grid sit at distinct indices. */
  lemma DistinctIdx(p: seq<Location>, w: int, h: int, i: int, j: int)
    requires 1 <= w && 0 <= i < |p| && 0 <= j < |p| && i != j && Distinct(p)
    requires InGrid(p[i], w, h) && InGrid(p[j], w, h)
    ensures Idx(p[i], w) != Idx(p[j], w)
  {
    LocOfIdx(p[i], w, h);
    LocOfIdx(p[j], w, h);
  }

  /** The square c of a grid numbering a Hamiltonian path holds i + 1 where path[i] == c. */
  lemma NumberOnPath(grid: seq<int>, p: seq<Location>, w: int, h: int, diagonal: bool, c: Location)
    returns (i: int)
    requires 1 <= w && IsHamiltonianPath(p, w, h, diagonal) && |grid| == w * h && NumbersPath(grid, p, w)
    requires InGrid(c, w, h)
    ensures 0 <= i < |p| && p[i] == c && At(grid, w, h, c) == i + 1
  {
    HamiltonianCovers(p, w, h, diagonal, c);
    i :| 0 <= i < |p| && p[i] == c;
  }

  /**
   * The grid path_to_grid makes of a Hamiltonian path is a solved puzzle:
   * every number 1 .. area once, consecutive numbers on adjacent squares.
   */
  lemma PathGridSolved(grid: seq<int>, p: seq<Location>, w: int, h: int, diagonal: bool)
    requires 1 <= w <= CoordMax && 1 <= h
    requires IsHamiltonianPath(p, w, h, diagonal) && |grid| == w * h && NumbersPath(grid, p, w)
    ensures Solved(grid, w, h, diagonal)
    ensures forall k :: 0 <= k < |grid| ==> 1 <= grid[k] <= w * h
  {
    forall k | 0 <= k < |grid|
      ensures 1 <= grid[k] <= w * h
    {
      IdxOfLocOf(k, w, h);
      var i := NumberOnPath(grid, p, w, h, diagonal, LocOf(k, w));
    }
    forall n | 1 <= n <= |grid|
      ensures n in grid
    {
      assert grid[Idx(p[n - 1], w)] == n;
    }
    forall a, b | InGrid(a, w, h) && InGrid(b, w, h) && At(grid, w, h, a) > 0 && At(grid, w, h, a) == At(grid, w, h, b)
      ensures a == b
    {
      var i := NumberOnPath(grid, p, w, h, diagonal, a);
      var j := NumberOnPath(grid, p, w, h, diagonal, b);
    }
    forall a, b | InGrid(a, w, h) && InGrid(b, w, h) && At(grid, w, h, a) > 0 && At(grid, w, h, b) == At(grid, w, h, a) + 1
      ensures Adjacent(a, b, diagonal)
    {
      var i := NumberOnPath(grid, p, w, h, diagonal, a);
      var j := NumberOnPath(grid, p, w, h, diagonal, b);
      assert j == i + 1;
    }
  }

  /** In a solved grid no number stands on two squares. */
  lemma SolvedInjective(grid: seq<int>, w: int, h: int, diagonal: bool, j: int, k: int)
    requires Solved(grid, w, h, diagonal) && 0 <= j < |grid| && 0 <= k < |grid|
    ensures grid[j] > 0 && grid[j] == grid[k] ==> j == k
  {
    IdxOfLocOf(j, w, h);
    IdxOfLocOf(k, w, h);
    if grid[j] > 0 && grid[j] == grid[k] {
      assert At(grid, w, h, LocOf(j, w)) == At(grid, w, h, LocOf(k, w));
    }
  }

  // ---------------------------------------------------------------------
  // The solver effort budget
  // ---------------------------------------------------------------------

  /** steps_limit: the search budget per solver call (-1: unlimited). */
  function StepsLimit(params: Params): int
  {
    if params.diagonal then
      (if params.pattern == PattBorder then 100 else if params.pattern == PattRing then 1000 else 80000)
    else if params.pattern == PattNone then 300000
    else if params.pattern == PattRot2 then 800000
    else -1
  }

  /** The longest gap allowed in a border puzzle: max(w, h), 4 more when hard. */
  function BorderGapLength(params: Params): int
  {
    Max(params.w, params.h) + (if params.difficulty == DiffHard then 4 else 0)
  }

  // ---------------------------------------------------------------------
  // The ring and border masks
  // ---------------------------------------------------------------------

  /** The ring pattern blanks (x, y): on the edge, or off the ring one square inside it. */
  predicate RingBlank(x: int, y: int, w: int, h: int)
  {
    x == 0 || x == w - 1 || y == 0 || y == h - 1
    || (x != 1 && x != w - 2 && y != 1 && y != h - 2)
  }

  /** The border pattern blanks (x, y): off the edge, or with x + y odd. */
  predicate BorderBlank(x: int, y: int, w: int, h: int)
  {
    (x != 0 && x != w - 1 && y != 0 && y != h - 1) || (x + y) % 2 == 1
  }

  predicate Blank(pattern: int, x: int, y: int, w: int, h: int)
  {
    if pattern == PattRing then RingBlank(x, y, w, h) else BorderBlank(x, y, w, h)
  }

  /** The grid with the squares of the pattern blanked. */
  function Masked(g: seq<int>, w: int, h: int, pattern: int): (r: seq<int>)
    requires w > 0
    ensures |r| == |g|
  {
    seq(|g|, k requires 0 <= k < |g| => if Blank(pattern, k % w, k / w, w, h) then 0 else g[k])
  }

  /** How far (x, y) is from the nearest edge of the grid. */
  function EdgeDistance(x: int, y: int, w: int, h: int): int
  {
    Min(Min(x, w - 1 - x), Min(y, h - 1 - y))
  }

  function Min(a: int, b: int): int { if a < b then a else b }

  /** The ring keeps exactly the squares one step in from the edge. */
  lemma RingIsSecondLayer(l: Location, w: int, h: int)
    requires InGrid(l, w, h)
    ensures !RingBlank(l.x, l.y, w, h) <==> EdgeDistance(l.x, l.y, w, h) == 1
  {
  }

  /** The border keeps edge squares only, and no two of them side by side. */
  lemma BorderKeepsSpacedEdge(a: Location, b: Location, w: int, h: int)
    requires InGrid(a, w, h) && InGrid(b, w, h)
    requires !BorderBlank(a.x, a.y, w, h) && !BorderBlank(b.x, b.y, w, h)
    ensures EdgeDistance(a.x, a.y, w, h) == 0
    ensures !Adjacent(a, b, false)
  {
  }

  /**
   * The loops of generate_puzzle that blank the squares of the ring or
   * border pattern, row by row.
   */
  method ApplyMask(grid: array<int>, w: int, h: int, pattern: int)
    requires 1 <= w && 1 <= h && grid.Length == w * h
    modifies grid
    ensures grid[..] == Masked(old(grid[..]), w, h, pattern)
  {
    ghost var g := grid[..];
    var y := 0;
    while y < h
      invariant 0 <= y <= h
      invariant forall k :: 0 <= k < y * w ==> grid[k] == Masked(g, w, h, pattern)[k]
      invariant forall k :: y * w <= k < w * h ==> grid[k] == g[k]
    {
      MaskRow(grid, w, h, pattern, y, g);
      y := y + 1;
    }
    MulLeftMono(h, y, w);
    assert grid[..] == Masked(g, w, h, pattern);
  }

  /** The inner loop of the mask: the squares of row y, left to right. */
  method MaskRow(grid: array<int>, w: int, h: int, pattern: int, y: int, ghost g: seq<int>)
    requires 1 <= w && 0 <= y < h && grid.Length == w * h == |g|
    requires forall k :: 0 <= k < y * w ==> grid[k] == Masked(g, w, h, pattern)[k]
    requires forall k :: y * w <= k < w * h ==> grid[k] == g[k]
    modifies grid
    ensures forall k :: 0 <= k < (y + 1) * w ==> grid[k] == Masked(g, w, h, pattern)[k]
    ensures forall k :: (y + 1) * w <= k < w * h ==> grid[k] == g[k]
  {
    RowFits(y, w, h);
    var x := 0;
    while x < w
      invariant 0 <= x <= w
      invariant forall k :: 0 <= k < y * w + x ==> grid[k] == Masked(g, w, h, pattern)[k]
      invariant forall k :: y * w + x <= k < w * h ==> grid[k] == g[k]
    {
      DivModUnique(y * w + x, w, y, x);
      if Blank(pattern, x, y, w, h) {
        grid[y * w + x] := 0;
      }
      x := x + 1;
    }
  }

  /** Blanking squares keeps the remaining clues of the solution. */
  lemma MaskedExtends(g: seq<int>, w: int, h: int, pattern: int)
    requires w > 0
    ensures Extends(Masked(g, w, h, pattern), g)
  {
  }

  /** The generator's own demand on the parameters: a ring needs three squares a side. */
  predicate GeneratorAccepts(params: Params)
  {
    ParamsOk(params) && (params.pattern == PattRing ==> 3 <= params.w && 3 <= params.h)
  }

  /** When the generator accepts the parameters, the ring or border of a full grid keeps a clue. */
  lemma MaskedHasClue(g: seq<int>, params: Params)
    requires GeneratorAccepts(params) && |g| == params.w * params.h
    requires params.pattern == PattRing || params.pattern == PattBorder
    requires forall k :: 0 <= k < |g| ==> g[k] != 0
    ensures HasClue(Masked(g, params.w, params.h, params.pattern))
  {
    var w, h := params.w, params.h;
    if params.pattern == PattRing {
      RowFits(1, w, h);
      DivModUnique(w + 1, w, 1, 1);
      assert Masked(g, w, h, params.pattern)[w + 1] != 0;
    } else {
      assert Masked(g, w, h, params.pattern)[0] != 0;
    }
  }

  /** The ring pattern on a grid two squares wide or high blanks every square. */
  lemma NarrowRingBlanksAll(g: seq<int>, w: int, h: int)
    requires 1 <= w && |g| == w * h && (w == 2 || h == 2)
    ensures !HasClue(Masked(g, w, h, PattRing))
  {
    forall k | 0 <= k < |g|
      ensures Masked(g, w, h, PattRing)[k] == 0
    {
      IdxOfLocOf(k, w, h);
    }
  }

  /** Yet the parameters 2x2 with the ring pattern pass game_validate_params. */
  lemma NarrowRingValidates()
    ensures ValidateParams(Params(2, 2, false, false, PattRing, DiffHard)).None?
    ensures !GeneratorAccepts(Params(2, 2, false, false, PattRing, DiffHard))
  {
  }

  // ---------------------------------------------------------------------
  // Removing clues one at a time
  // ---------------------------------------------------------------------

  /** The grid holds a clue (a runtime test of HasClue). */
  method AnyClue(grid: array<int>) returns (found: bool)
    ensures found <==> HasClue(grid[..])
  {
    var k := 0;
    while k < grid.Length
      invariant 0 <= k <= grid.Length
      invariant forall j :: 0 <= j < k ==> grid[j] == 0
    {
      if grid[k] != 0 {
        return true;
      }
      k := k + 1;
    }
    return false;
  }

  /** The grid with square k blanked, and its 180-degree partner too when symmetric. */
  function Blanked(g: seq<int>, k: int, symmetric: bool): (r: seq<int>)
    requires 0 <= k < |g|
    ensures |r| == |g|
  {
    if symmetric then g[|g| - 1 - k := 0][k := 0] else g[k := 0]
  }

  /** The squares of 1 and area hold them. */
  ghost predicate EndsKept(g: seq<int>, sol: seq<int>)
    requires |g| == |sol|
  {
    forall k :: 0 <= k < |g| && (sol[k] == 1 || sol[k] == |sol|) ==> g[k] == sol[k]
  }

  /** A square is blank exactly when its 180-degree partner is. */
  ghost predicate Symmetric(g: seq<int>)
  {
    forall k :: 0 <= k < |g| ==> (g[k] == 0 <==> g[|g| - 1 - k] == 0)
  }

  /**
   * What the removal loop keeps of the clue grid g, against the solution
   * sol: every clue is the solution's number, some clue is left, no gap is
   * longer than MAX_GAP_LENGTH, the ends stay with keep_ends, and the
   * blanks are symmetric under the symmetric pattern.
   */
  ghost predicate RemovalOk(g: seq<int>, sol: seq<int>, params: Params)
  {
    |g| == |sol| && Extends(g, sol) && HasClue(g) && RunsAtMost(g, MaxGapLength)
    && (params.keepEnds ==> EndsKept(g, sol))
    && (params.pattern == PattRot2 ==> Symmetric(g))
  }

  /** A grid with every number in place has only itself as completion. */
  lemma FullGridUnique(sol: seq<int>, w: int, h: int, diagonal: bool)
    requires forall k :: 0 <= k < |sol| ==> sol[k] != 0
    ensures UniqueCompletion(sol, w, h, diagonal)
  {
    forall s1, s2 | Completes(sol, s1, w, h, diagonal) && Completes(sol, s2, w, h, diagonal)
      ensures s1 == s2
    {
      FullExtendsEqual(sol, s1);
      FullExtendsEqual(sol, s2);
    }
  }

  /** The full solution is where the removal loop starts. */
  lemma FullGridOk(sol: seq<int>, params: Params)
    requires |sol| >= 1 && forall k :: 0 <= k < |sol| ==> 1 <= sol[k] <= |sol|
    requires forall n :: 1 <= n <= |sol| ==> n in sol
    ensures RemovalOk(sol, sol, params)
  {
    assert sol[0] != 0;
    forall m | 1 <= m <= |sol| - MaxGapLength
      ensures !MissingRun(sol, m, MaxGapLength)
    {
      assert m in sol;
    }
  }

  /** Blanking a clue (and its partner) that is not a kept end keeps what the loop keeps. */
  lemma BlankedOk(g: seq<int>, sol: seq<int>, params: Params, k: int)
    requires RemovalOk(g, sol, params) && 0 <= k < |g|
    requires params.keepEnds ==> sol[k] != 1 && sol[k] != |sol|
    requires params.keepEnds && params.pattern == PattRot2 ==> g[|g| - 1 - k] != 1 && g[|g| - 1 - k] != |sol|
    requires var r := Blanked(g, k, params.pattern == PattRot2); HasClue(r) && RunsAtMost(r, MaxGapLength)
    ensures RemovalOk(Blanked(g, k, params.pattern == PattRot2), sol, params)
  {
    var r := Blanked(g, k, params.pattern == PattRot2);
    if params.pattern == PattRot2 {
      forall m | 0 <= m < |r|
        ensures r[m] == 0 <==> r[|r| - 1 - m] == 0
      {
        assert |r| - 1 - (|r| - 1 - m) == m;
      }
    }
  }

  /** The setting of the removal loop: the path, the solution it numbers, the parameters. */
  ghost predicate Setting(params: Params, p: seq<Location>, sol: seq<int>)
  {
    GeneratorAccepts(params) && IsHamiltonianPath(p, params.w, params.h, params.diagonal)
    && |sol| == params.w * params.h && NumbersPath(sol, p, params.w)
    && Solved(sol, params.w, params.h, params.diagonal)
    && (forall k :: 0 <= k < |sol| ==> 1 <= sol[k])
  }

  /** The 180-degree partner of a square, and its index. */
  lemma PartnerIdx(l: Location, w: int, h: int)
    requires InGrid(l, w, h)
    ensures InGrid(Location(w - 1 - l.x, h - 1 - l.y), w, h)
    ensures Idx(Location(w - 1 - l.x, h - 1 - l.y), w) == w * h - 1 - Idx(l, w)
  {
    assert (h - 1 - l.y) * w == h * w - w - l.y * w;
  }

  /**
   * One pass of the removal loop, for the clue `clue`: leave it when
   * keep_ends protects it (or its partner); otherwise blank it (and its
   * partner under the symmetric pattern) and keep the blanks only if the
   * solver accepts the puzzle.  The clue still stands on its square (the
   * assertion of the source), because the loop has not touched that square
   * yet.
   */
  method TryRemove(grid: array<int>, path: array<Location>, clue: int, params: Params,
                   stepsLimit: int, ghost sol: seq<int>, ghost n: int)
    returns (removed: bool)
    requires Setting(params, path[..], sol) && grid.Length == |sol| && RemovalOk(grid[..], sol, params)
    requires 0 <= n <= |sol| && clue in sol[..n]
    requires forall j :: 0 <= j < n && sol[j] == clue ==> grid[j] == clue
    modifies grid
    ensures RemovalOk(grid[..], sol, params)
    ensures 1 <= clue <= |sol| && 0 <= Idx(path[clue - 1], params.w) < n
    ensures removed ==> grid[..] == Blanked(old(grid[..]), Idx(path[clue - 1], params.w), params.pattern == PattRot2)
    ensures !removed ==> grid[..] == old(grid[..])
    ensures removed && (params.difficulty == DiffEasy || stepsLimit <= 0) ==>
              UniqueCompletion(grid[..], params.w, params.h, params.diagonal)
  {
    var w, h, area := params.w, params.h, params.w * params.h;
    ghost var j :| 0 <= j < n && sol[j] == clue;
    var rx := path[clue - 1].x;
    var ry := path[clue - 1].y;
    ghost var k := Idx(path[clue - 1], w);
    IdxInRange(path[clue - 1], w, h);
    SolvedInjective(sol, w, h, params.diagonal, j, k);
    assert grid[ry * w + rx] == clue;
    if params.keepEnds && (clue == 1 || clue == area) {
      return false;
    }
    var sclue := 0;
    var s := 0;
    if params.pattern == PattRot2 {
      PartnerIdx(path[clue - 1], w, h);
      s := (h - 1 - ry) * w + (w - 1 - rx);
      sclue := grid[s];
      if params.keepEnds && (sclue == 1 || sclue == area) {
        return false;
      }
    }
    removed := BlankAndAsk(grid, ry * w + rx, s, clue, sclue, params, stepsLimit, sol);
  }

  /**
   * Blank square k (and its partner s first, under the symmetric
   * pattern), ask the solver for a unique solution, and write clue and
   * sclue back when it fails.  A removal that would leave no clue at all
   * is put back without asking.
   */
  method BlankAndAsk(grid: array<int>, k: int, s: int, clue: int, sclue: int, params: Params,
                     stepsLimit: int, ghost sol: seq<int>)
    returns (removed: bool)
    requires grid.Length == |sol| == params.w * params.h && 0 <= k < |sol|
    requires ValidGrid(sol, params.w, params.h) && params.h <= CoordMax && |sol| <= NumberMax
    requires RemovalOk(grid[..], sol, params) && grid[k] == clue == sol[k]
    requires params.pattern == PattRot2 ==> s == |sol| - 1 - k && grid[s] == sclue
    requires params.keepEnds ==> clue != 1 && clue != |sol|
    requires params.keepEnds && params.pattern == PattRot2 ==> sclue != 1 && sclue != |sol|
    modifies grid
    ensures RemovalOk(grid[..], sol, params)
    ensures removed ==> grid[..] == Blanked(old(grid[..]), k, params.pattern == PattRot2)
    ensures !removed ==> grid[..] == old(grid[..])
    ensures removed && (params.difficulty == DiffEasy || stepsLimit <= 0) ==>
              UniqueCompletion(grid[..], params.w, params.h, params.diagonal)
  {
    ghost var g := grid[..];
    if params.pattern == PattRot2 {
      grid[s] := 0;
    }
    grid[k] := 0;
    assert grid[..] == Blanked(g, k, params.pattern == PattRot2);
    var has := AnyClue(grid);
    var ok := false;
    if has {
      ExtendsValid(grid[..], sol, params.w, params.h);
      var solution;
      ghost var multiple;
      ok, solution, multiple := Solver(grid[..], params.w, params.h, params.diagonal, MaxGapLength,
                                       params.difficulty, stepsLimit, true);
    }
    if ok {
      BlankedOk(g, sol, params, k);
      removed := true;
    } else {
      grid[k] := clue;
      if params.pattern == PattRot2 {
        grid[s] := sclue;
      }
      assert grid[..] == g;
      removed := false;
    }
  }

  /** Blanking squares of a solved grid leaves a grid the solver accepts as input. */
  lemma ExtendsValid(g: seq<int>, sol: seq<int>, w: int, h: int)
    requires ValidGrid(sol, w, h) && Extends(g, sol)
    ensures ValidGrid(g, w, h)
  {
  }

  /** No number of the first n squares of the solution repeats. */
  lemma SolutionPrefixDistinct(sol: seq<int>, n: int, w: int, h: int, diagonal: bool)
    requires Solved(sol, w, h, diagonal) && 0 <= n <= |sol|
    requires forall k :: 0 <= k < |sol| ==> 1 <= sol[k]
    ensures Distinct(sol[..n])
  {
    forall i, j | 0 <= i < j < n
      ensures sol[i] != sol[j]
    {
      SolvedInjective(sol, w, h, diagonal, i, j);
    }
  }

  /** A sequence without repeats holds each value at most once. */
  lemma {:induction false} DistinctCountOne(s: seq<int>, x: int)
    requires Distinct(s)
    ensures multiset(s)[x] <= 1
  {
    if s != [] {
      var t := s[..|s| - 1];
      assert s == t + [s[|s| - 1]];
      assert Distinct(t);
      DistinctCountOne(t, x);
      assert s[|s| - 1] !in t;
    }
  }

  /** A value at two positions is counted twice. */
  lemma RepeatCountTwo(s: seq<int>, i: int, j: int)
    requires 0 <= i < j < |s|
    ensures s[i] == s[j] ==> multiset(s)[s[i]] >= 2
  {
    assert s == s[..i] + [s[i]] + s[i + 1..j] + [s[j]] + s[j + 1..];
  }

  /** A rearrangement of a sequence without repeats has none. */
  lemma PermutationDistinct(a: seq<int>, b: seq<int>)
    requires multiset(a) == multiset(b) && Distinct(b)
    ensures Distinct(a)
  {
    forall i, j | 0 <= i < j < |a|
      ensures a[i] != a[j]
    {
      RepeatCountTwo(a, i, j);
      DistinctCountOne(b, a[i]);
    }
  }

  /**
   * The squares among the first n whose numbers are still to come in the
   * shuffled list, from position i on, hold their numbers.
   */
  ghost predicate Pending(g: seq<int>, sol: seq<int>, c: seq<int>, i: int, n: int)
    requires |g| == |sol| && 0 <= i <= |c| && n <= |sol|
  {
    forall j :: 0 <= j < n && sol[j] in c[i..] ==> g[j] == sol[j]
  }

  /** One pass of the loop leaves the squares of the later clues alone. */
  lemma PendingStep(g: seq<int>, g': seq<int>, sol: seq<int>, c: seq<int>, i: int, n: int, k: int, symmetric: bool)
    requires |g| == |sol| && |c| == n <= |sol| && 0 <= i < n && Distinct(c)
    requires Pending(g, sol, c, i, n)
    requires 0 <= k < n && sol[k] == c[i]
    requires symmetric ==> n == (|sol| + 1) / 2
    requires g' == g || g' == Blanked(g, k, symmetric)
    ensures Pending(g', sol, c, i + 1, n)
  {
    assert c[i..] == [c[i]] + c[i + 1..];
    forall j | 0 <= j < n && sol[j] in c[i + 1..]
      ensures g'[j] == sol[j]
    {
      var m :| i + 1 <= m < n && c[m] == sol[j];
      assert sol[j] != c[i];
    }
  }

  /** The clue-removal loop of generate_puzzle, over the first n shuffled clues. */
  method RemoveClues(grid: array<int>, path: array<Location>, clues: array<int>, n: int,
                     params: Params, stepsLimit: int, ghost sol: seq<int>)
    requires grid != clues
    requires Setting(params, path[..], sol) && grid.Length == |sol| && grid[..] == sol
    requires n == (if params.pattern == PattRot2 then (|sol| + 1) / 2 else |sol|)
    requires n <= clues.Length && multiset(clues[..n]) == multiset(sol[..n])
    modifies grid
    ensures RemovalOk(grid[..], sol, params)
    ensures params.difficulty == DiffEasy || stepsLimit <= 0 ==>
              UniqueCompletion(grid[..], params.w, params.h, params.diagonal)
  {
    ghost var c := clues[..n];
    SolutionPrefixDistinct(sol, n, params.w, params.h, params.diagonal);
    PermutationDistinct(c, sol[..n]);
    FullGridOk(sol, params);
    FullGridUnique(sol, params.w, params.h, params.diagonal);
    var i := 0;
    while i < n
      invariant 0 <= i <= n
      invariant RemovalOk(grid[..], sol, params)
      invariant params.difficulty == DiffEasy || stepsLimit <= 0 ==>
                  UniqueCompletion(grid[..], params.w, params.h, params.diagonal)
      invariant Pending(grid[..], sol, c, i, n)
    {
      var clue := clues[i];
      assert clue in multiset(c);
      assert clue in sol[..n];
      ghost var g := grid[..];
      var removed := TryRemove(grid, path, clue, params, stepsLimit, sol, n);
      PendingStep(g, grid[..], sol, c, i, n, Idx(path[clue - 1], params.w), params.pattern == PattRot2);
      i := i + 1;
    }
  }

  /**
   * One attempt of generate_puzzle: a random Hamiltonian path numbered
   * 1 .. area is the solution.  The ring and border patterns blank their
   * squares and give the puzzle only when the solver accepts it (with the
   * border's own gap bound and the hard level); the other patterns shuffle
   * the clues (those of the first half of the grid for the symmetric
   * pattern) and remove them one by one.
   */
  method GeneratePuzzle(params: Params, rng: nat -> nat, draw: nat)
    returns (puzzle: Option<seq<int>>, ghost solution: seq<int>, next: nat)
    requires GeneratorAccepts(params)
    ensures |solution| == params.w * params.h && Solved(solution, params.w, params.h, params.diagonal)
    ensures puzzle.Some? ==> HasClue(puzzle.value)
    ensures (params.pattern == PattRing || params.pattern == PattBorder) && puzzle.Some? ==>
              puzzle.value == Masked(solution, params.w, params.h, params.pattern)
    ensures params.pattern == PattRing && puzzle.Some? ==> RunsAtMost(puzzle.value, MaxGapLength)
    ensures params.pattern == PattBorder && puzzle.Some? ==> RunsAtMost(puzzle.value, BorderGapLength(params))
    ensures params.pattern != PattRing && params.pattern != PattBorder ==>
              puzzle.Some? && RemovalOk(puzzle.value, solution, params)
    ensures puzzle.Some? ==> Extends(puzzle.value, solution)
    ensures puzzle.Some? && ((params.difficulty == DiffEasy && params.pattern != PattBorder) || StepsLimit(params) <= 0) ==>
              UniqueCompletion(puzzle.value, params.w, params.h, params.diagonal)
  {
    var w, h, area := params.w, params.h, params.w * params.h;
    var stepsLimit := StepsLimit(params);
    var path;
    path, next := RandomHampath(w, h, params.diagonal, rng, draw);
    var grid := PathToGrid(path, w, h);
    solution := grid[..];
    PathGridSolved(solution, path[..], w, h, params.diagonal);
    assert Setting(params, path[..], solution);
    if params.pattern == PattRing || params.pattern == PattBorder {
      puzzle := MaskAndAsk(grid, params, stepsLimit, solution);
      MaskedExtends(solution, w, h, params.pattern);
    } else {
      next := ShuffleAndRemove(grid, path, params, stepsLimit, rng, next, solution);
      puzzle := Some(grid[..]);
    }
  }

  /**
   * The branch of the other patterns: copy the clues, shuffle the first
   * half of them (symmetric pattern) or all of them, and remove them in
   * that order.
   */
  method ShuffleAndRemove(grid: array<int>, path: array<Location>, params: Params, stepsLimit: int,
                          rng: nat -> nat, draw: nat, ghost solution: seq<int>)
    returns (next: nat)
    requires Setting(params, path[..], solution) && grid[..] == solution
    modifies grid
    ensures RemovalOk(grid[..], solution, params)
    ensures params.difficulty == DiffEasy || stepsLimit <= 0 ==>
              UniqueCompletion(grid[..], params.w, params.h, params.diagonal)
  {
    var area := params.w * params.h;
    var clues := new int[area](k requires 0 <= k < area reads grid => grid[k]);
    assert clues[..] == solution;
    var n := if params.pattern == PattRot2 then (area + 1) / 2 else area;
    next := Shuffle(clues, n, rng, draw);
    RemoveClues(grid, path, clues, n, params, stepsLimit, solution);
  }

  /**
   * The ring and border branch: blank the squares of the pattern and give
   * the puzzle when the solver accepts it, the border with its own gap
   * bound and at the hard level.
   */
  method MaskAndAsk(grid: array<int>, params: Params, stepsLimit: int, ghost solution: seq<int>)
    returns (puzzle: Option<seq<int>>)
    requires GeneratorAccepts(params) && (params.pattern == PattRing || params.pattern == PattBorder)
    requires grid[..] == solution && |solution| == params.w * params.h
    requires ValidGrid(solution, params.w, params.h)
    requires forall k :: 0 <= k < |solution| ==> 1 <= solution[k]
    modifies grid
    ensures puzzle.Some? ==> puzzle.value == Masked(solution, params.w, params.h, params.pattern)
    ensures puzzle.Some? ==> HasClue(puzzle.value)
    ensures params.pattern == PattRing && puzzle.Some? ==> RunsAtMost(puzzle.value, MaxGapLength)
    ensures params.pattern == PattBorder && puzzle.Some? ==> RunsAtMost(puzzle.value, BorderGapLength(params))
    ensures puzzle.Some? && ((params.pattern == PattRing && params.difficulty == DiffEasy) || stepsLimit <= 0) ==>
              UniqueCompletion(puzzle.value, params.w, params.h, params.diagonal)
  {
    var w, h := params.w, params.h;
    ApplyMask(grid, w, h, params.pattern);
    MaskedExtends(solution, w, h, params.pattern);
    MaskedHasClue(solution, params);
    ExtendsValid(grid[..], solution, w, h);
    var maxGap := if params.pattern == PattRing then MaxGapLength else BorderGapLength(params);
    var difficulty := if params.pattern == PattRing then params.difficulty else DiffHard;
    var ok, s;
    ghost var multiple;
    ok, s, multiple := Solver(grid[..], w, h, params.diagonal, maxGap, difficulty, stepsLimit, true);
    puzzle := if ok then Some(grid[..]) else None;
  }
}
