/**
 * The path bookkeeping and the extend-and-push step of the Number-Link grid
 * generator (unfinished/path.c).  A generation context holds a w x h grid in
 * which each square is empty (-1) or carries the number of the path through
 * it, and records both ends of every path: end f of path p is the square
 * pathends[2 * p + f].
 */
module PathGen {
  import opened Geometry
  import opened PathBfs
  import opened Randomness

  /** newpath grows the per-path arrays by this many paths at a time. */
  const PathChunk := 16

  /** End f (0 or 1) of path p in a pathends-style array. */
  function End(ends: seq<int>, p: int, f: int): int
    requires 0 <= 2 * p + f < |ends|
  {
    ends[2 * p + f]
  }

  /** The number of paths below n whose status in spare is not 2 (fixed). */
  function Unfixed(spare: seq<int>, n: int): (r: nat)
    requires 0 <= n <= |spare|
    ensures r <= n
  {
    if n == 0 then 0 else Unfixed(spare, n - 1) + (if spare[n - 1] != 2 then 1 else 0)
  }

  lemma {:induction false} UnfixedSame(a: seq<int>, b: seq<int>, n: int)
    requires 0 <= n <= |a| && n <= |b| && forall j :: 0 <= j < n ==> a[j] == b[j]
    ensures Unfixed(a, n) == Unfixed(b, n)
  {
    if n > 0 {
      UnfixedSame(a, b, n - 1);
    }
  }

  /**
   * Changing the status of a path that is not fixed leaves the count of
   * unfixed paths alone, unless the new status is fixed, when it drops by one.
   */
  lemma {:induction false} UnfixedUpdate(spare: seq<int>, n: int, q: int, v: int)
    requires 0 <= q < n <= |spare| && spare[q] != 2
    ensures Unfixed(spare[q := v], n) == Unfixed(spare, n) - (if v == 2 then 1 else 0)
  {
    if q < n - 1 {
      UnfixedUpdate(spare, n - 1, q, v);
    } else {
      UnfixedSame(spare, spare[q := v], n - 1);
    }
  }

  /** Square e has an orthogonal neighbour other than k0 that belongs to path. */
  ghost predicate TouchesOther(g: seq<int>, w: int, h: int, e: int, k0: int, path: int)
    requires w > 0 && |g| == w * h
  {
    exists dir :: 0 <= dir < 4 && StepInGrid(e, dir, w, h) && 0 <= Step(e, dir, w) < w * h
      && Step(e, dir, w) != k0 && g[Step(e, dir, w)] == path
  }

  /** Every recorded end of the first n paths lies on grid g and carries its path's number. */
  ghost predicate EndsOn(g: seq<int>, ends: seq<int>, n: int)
    requires 0 <= n && 2 * n <= |ends|
  {
    forall p, f :: 0 <= p < n && 0 <= f < 2 ==> 0 <= End(ends, p, f) < |g| && g[End(ends, p, f)] == p
  }

  /**
   * The state of a push in progress, over the committed grid g and ends and
   * the working copies sg (sparegrid), sends (sparepathends) and the status
   * spare (pathspare) of each of the n paths: 0 untouched, 1 broken, 2 fixed.
   * An untouched path still lies where it lay in g and keeps its ends; a path
   * that is not fixed keeps its recorded ends; a fixed path has both working
   * ends on the working grid, marked with its number.
   */
  ghost predicate PushState(g: seq<int>, ends: seq<int>, n: int, sg: seq<int>, sends: seq<int>, spare: seq<int>)
  {
    |sg| == |g| && 0 <= n && 2 * n <= |ends| && |sends| == |ends| && n <= |spare|
    && (forall k :: 0 <= k < |g| ==> -1 <= g[k] < n)
    && (forall p :: 0 <= p < n ==> 0 <= spare[p] <= 2)
    && (forall k :: 0 <= k < |sg| ==> -1 <= sg[k] < n)
    && (forall k :: 0 <= k < |g| && 0 <= g[k] && spare[g[k]] == 0 ==> sg[k] == g[k])
    && (forall p, f :: 0 <= p < n && 0 <= f < 2 && spare[p] != 2 ==> End(sends, p, f) == End(ends, p, f))
    && (forall p, f :: 0 <= p < n && 0 <= f < 2 && spare[p] == 2 ==>
          0 <= End(sends, p, f) < |sg| && sg[End(sends, p, f)] == p)
  }

  /**
   * Extending path's end into square e (not already on path) on a fresh copy
   * of the grid, with every path untouched but path itself, now fixed, and
   * the path cut, now broken, starts a push.
   */
  lemma StartPush(g: seq<int>, ends: seq<int>, n: int, sends0: seq<int>, spare0: seq<int>, path: int, end: int, e: int)
    requires 0 <= n && 2 * n <= |ends| && |sends0| == |ends| && n <= |spare0|
    requires (forall k :: 0 <= k < |g| ==> -1 <= g[k] < n) && EndsOn(g, ends, n)
    requires 0 <= path < n && 0 <= end < 2 && 0 <= e < |g| && g[e] != path
    ensures var spare := (seq(n, _ => 0) + spare0[n..])[path := 2];
      PushState(g, ends, n, g[e := path], (ends[..2 * n] + sends0[2 * n..])[2 * path + end := e],
                if g[e] >= 0 then spare[g[e] := 1] else spare)
  {
    var spare1 := (seq(n, _ => 0) + spare0[n..])[path := 2];
    var spare := if g[e] >= 0 then spare1[g[e] := 1] else spare1;
    var sends := (ends[..2 * n] + sends0[2 * n..])[2 * path + end := e];
    var sg := g[e := path];
    forall p, f | 0 <= p < n && 0 <= f < 2 && spare[p] == 2
      ensures 0 <= End(sends, p, f) < |sg| && sg[End(sends, p, f)] == p
    {
      assert p == path;
      if f != end {
        assert End(sends, p, f) == End(ends, p, f);
      }
    }
  }

  /**
   * Writing path i (broken) over square jp of the working grid keeps the
   * push state, provided jp does not belong to a fixed path; the path that
   * was there becomes broken.
   */
  lemma ClaimKeeps(g: seq<int>, ends: seq<int>, n: int, sg: seq<int>, sends: seq<int>, spare: seq<int>, i: int, jp: int)
    requires PushState(g, ends, n, sg, sends, spare)
    requires 0 <= i < n && spare[i] == 1 && 0 <= jp < |sg| && !(sg[jp] >= 0 && spare[sg[jp]] == 2)
    ensures PushState(g, ends, n, sg[jp := i], sends, if sg[jp] >= 0 then spare[sg[jp] := 1] else spare)
  {
  }

  /** Wiping a square of path i (broken) from the working grid keeps the push state. */
  lemma WipeKeeps(g: seq<int>, ends: seq<int>, n: int, sg: seq<int>, sends: seq<int>, spare: seq<int>, i: int, jp: int)
    requires PushState(g, ends, n, sg, sends, spare)
    requires 0 <= i < n && spare[i] == 1 && 0 <= jp < |sg| && sg[jp] == i
    ensures PushState(g, ends, n, sg[jp := -1], sends, spare)
  {
  }

  /** Fixing path i with new ends first and last, both carrying i, keeps the push state. */
  lemma FixKeeps(g: seq<int>, ends: seq<int>, n: int, sg: seq<int>, sends: seq<int>, spare: seq<int>,
                 i: int, first: int, last: int)
    requires PushState(g, ends, n, sg, sends, spare)
    requires 0 <= i < n && spare[i] == 1
    requires 0 <= first < |sg| && sg[first] == i && 0 <= last < |sg| && sg[last] == i
    ensures PushState(g, ends, n, sg, sends[2 * i := first][2 * i + 1 := last], spare[i := 2])
  {
    var sends' := sends[2 * i := first][2 * i + 1 := last];
    forall p, f | 0 <= p < n && 0 <= f < 2 && p != i
      ensures End(sends', p, f) == End(sends, p, f)
    {
    }
  }

  /**
   * Once no path is broken, the working grid and ends are a consistent
   * layout: every end of every path is on the working grid, carrying its
   * path's number.
   */
  lemma CommitMarks(g: seq<int>, ends: seq<int>, n: int, sg: seq<int>, sends: seq<int>, spare: seq<int>)
    requires PushState(g, ends, n, sg, sends, spare) && EndsOn(g, ends, n)
    requires forall p :: 0 <= p < n ==> spare[p] != 1
    ensures EndsOn(sg, sends[..2 * n] + ends[2 * n..], n)
  {
    var ends' := sends[..2 * n] + ends[2 * n..];
    forall p, f | 0 <= p < n && 0 <= f < 2
      ensures 0 <= End(ends', p, f) < |sg| && sg[End(ends', p, f)] == p
    {
      assert End(ends', p, f) == End(sends, p, f);
      if spare[p] == 0 {
        assert g[End(ends, p, f)] == p;
      }
    }
  }

  /** Some j below n has list[j] == k: square k is among the first n squares listed. */
  ghost predicate Listed(list: seq<int>, n: int, k: int)
    requires 0 <= n <= |list|
  {
    exists j :: 0 <= j < n && list[j] == k
  }

  /** Grid sg with the squares of path i among the first n listed squares wiped (made -1). */
  ghost function Wiped(sg: seq<int>, list: seq<int>, n: int, i: int): (r: seq<int>)
    requires 0 <= n <= |list|
  {
    seq(|sg|, k requires 0 <= k < |sg| => if sg[k] == i && Listed(list, n, k) then -1 else sg[k])
  }

  /** Wiping the squares listed up to n + 1 is wiping those up to n, then list[n] if it still carries i. */
  lemma WipedStep(sg: seq<int>, list: seq<int>, n: int, i: int)
    requires 0 <= n < |list| && 0 <= list[n] < |sg|
    ensures var r := Wiped(sg, list, n, i);
      Wiped(sg, list, n + 1, i) == r[list[n] := if r[list[n]] == i then -1 else r[list[n]]]
  {
    var r := Wiped(sg, list, n, i);
    var r' := r[list[n] := if r[list[n]] == i then -1 else r[list[n]]];
    forall k | 0 <= k < |sg|
      ensures Wiped(sg, list, n + 1, i)[k] == r'[k]
    {
      if Listed(list, n + 1, k) && k != list[n] {
        var j :| 0 <= j < n + 1 && list[j] == k;
        assert Listed(list, n, k);
      }
      if k == list[n] {
        assert Listed(list, n + 1, k);
      }
    }
  }

  /** Square k is one of the up to eight squares around square c (same or adjacent row and column). */
  predicate Around(k: int, c: int, w: int)
    requires w > 0
  {
    k != c && -1 <= k % w - c % w <= 1 && -1 <= k / w - c / w <= 1
  }

  /** A square holding v may be taken over by path i: it is empty, or holds another path that is not fixed. */
  predicate Paintable(v: int, i: int, spare: seq<int>)
  {
    v < 0 || (v != i && v < |spare| && spare[v] != 2)
  }

  /**
   * What the surround step of extend_path makes of the working grid g3:
   * every square around c that path i may take over now carries i.
   */
  ghost function Surrounded(g3: seq<int>, w: int, c: int, i: int, spare: seq<int>): (r: seq<int>)
    requires w > 0
  {
    seq(|g3|, k requires 0 <= k < |g3| => if Around(k, c, w) && Paintable(g3[k], i, spare) then i else g3[k])
  }

  /** Surrounded, for the squares around c that come before offset (dy, dx) in row-major order. */
  ghost predicate SurroundedUpTo(g3: seq<int>, old3: seq<int>, w: int, c: int, i: int, spare: seq<int>, dy: int, dx: int)
    requires w > 0 && |g3| == |old3|
  {
    forall k :: 0 <= k < |g3| ==>
      g3[k] == (if Around(k, c, w) && (k / w - c / w < dy || (k / w - c / w == dy && k % w - c % w < dx))
                   && Paintable(old3[k], i, spare)
                then i else old3[k])
  }

  /** Two indices in the same row and column of a grid of width w are the same square. */
  lemma SameSquare(k: int, p: int, w: int)
    requires w > 0 && k / w == p / w && k % w == p % w
    ensures k == p
  {
    assert k == (k / w) * w + k % w;
    assert p == (p / w) * w + p % w;
  }

  /** Painting the square at offset (dy, dx) from c, when it is on the grid. */
  lemma SurroundStep(g3: seq<int>, old3: seq<int>, w: int, h: int, c: int, i: int, spare: seq<int>, dy: int, dx: int)
    requires w > 0 && |g3| == |old3| == w * h && 0 <= c < w * h && -1 <= dy <= 1 && -1 <= dx <= 1
    requires SurroundedUpTo(g3, old3, w, c, i, spare, dy, dx)
    requires !(dy == 0 && dx == 0) && 0 <= c % w + dx < w && 0 <= c / w + dy < h
    ensures var p := (c / w + dy) * w + (c % w + dx);
      0 <= p < w * h && g3[p] == old3[p]
      && SurroundedUpTo(g3[p := if Paintable(g3[p], i, spare) then i else g3[p]], old3, w, c, i, spare, dy, dx + 1)
  {
    var p := (c / w + dy) * w + (c % w + dx);
    RowFits(c / w + dy, w, h);
    DivModUnique(p, w, c / w + dy, c % w + dx);
    var g3' := g3[p := if Paintable(g3[p], i, spare) then i else g3[p]];
    forall k | 0 <= k < |g3|
      ensures g3'[k] == (if Around(k, c, w) && (k / w - c / w < dy || (k / w - c / w == dy && k % w - c % w < dx + 1))
                            && Paintable(old3[k], i, spare)
                         then i else old3[k])
    {
      if k / w == p / w && k % w == p % w {
        SameSquare(k, p, w);
      }
    }
  }

  /** Skipping the centre square and the offsets that fall off the grid. */
  lemma SurroundSkip(g3: seq<int>, old3: seq<int>, w: int, h: int, c: int, i: int, spare: seq<int>, dy: int, dx: int)
    requires w > 0 && |g3| == |old3| == w * h && 0 <= c < w * h
    requires SurroundedUpTo(g3, old3, w, c, i, spare, dy, dx)
    requires (dy == 0 && dx == 0) || !(0 <= c % w + dx < w && 0 <= c / w + dy < h)
    ensures SurroundedUpTo(g3, old3, w, c, i, spare, dy, dx + 1)
  {
    forall k | 0 <= k < |g3|
      ensures g3[k] == (if Around(k, c, w) && (k / w - c / w < dy || (k / w - c / w == dy && k % w - c % w < dx + 1))
                           && Paintable(old3[k], i, spare)
                        then i else old3[k])
    {
      if k / w - c / w == dy && k % w - c % w == dx {
        SkippedNotAround(k, c, w, h, dy, dx);
      }
    }
  }

  /** The square at offset (dx, dy) from c is c itself or off the grid, so it is not around c. */
  lemma SkippedNotAround(k: int, c: int, w: int, h: int, dy: int, dx: int)
    requires w > 0 && 0 <= k < w * h && k / w - c / w == dy && k % w - c % w == dx
    requires (dy == 0 && dx == 0) || !(0 <= c % w + dx < w && 0 <= c / w + dy < h)
    ensures !Around(k, c, w)
  {
    if dy == 0 && dx == 0 {
      SameSquare(k, c, w);
    } else {
      IdxOfLocOf(k, w, h);
    }
  }

  /** Moving on to the next row of offsets. */
  lemma SurroundNextRow(g3: seq<int>, old3: seq<int>, w: int, c: int, i: int, spare: seq<int>, dy: int)
    requires w > 0 && |g3| == |old3|
    requires SurroundedUpTo(g3, old3, w, c, i, spare, dy, 2)
    ensures SurroundedUpTo(g3, old3, w, c, i, spare, dy + 1, -1)
  {
  }

  /** Every one of the first n listed squares lies on a grid of |g| squares. */
  predicate ListedIn(list: seq<int>, n: int, g: seq<int>)
  {
    0 <= n <= |list| && forall j :: 0 <= j < n ==> 0 <= list[j] < |g|
  }

  /**
   * The working grid g3 after the restoring walk of extend_path has visited
   * list[0 .. n) in order: each visited square that no longer carries path i
   * has the squares around it offered to i.
   */
  ghost function SurroundAlong(g3: seq<int>, list: seq<int>, n: int, w: int, i: int, spare: seq<int>): (r: seq<int>)
    requires w > 0 && ListedIn(list, n, g3)
    ensures |r| == |g3|
    decreases n
  {
    if n == 0 then g3
    else
      var r := SurroundAlong(g3, list, n - 1, w, i, spare);
      if r[list[n - 1]] == i then r else Surrounded(r, w, list[n - 1], i, spare)
  }

  /** list[j] still carries path i when the restoring walk reaches it. */
  ghost predicate Survives(g3: seq<int>, list: seq<int>, j: int, w: int, i: int, spare: seq<int>)
    requires w > 0 && 0 <= j && ListedIn(list, j + 1, g3)
  {
    SurroundAlong(g3, list, j, w, i, spare)[list[j]] == i
  }

  /** The square the walk over list[0 .. n) records as first: the earliest survivor, or -1. */
  ghost function FirstSurvivor(g3: seq<int>, list: seq<int>, n: int, w: int, i: int, spare: seq<int>): int
    requires w > 0 && ListedIn(list, n, g3)
    decreases n
  {
    if n == 0 then -1
    else
      var f := FirstSurvivor(g3, list, n - 1, w, i, spare);
      if f >= 0 || !Survives(g3, list, n - 1, w, i, spare) then f else list[n - 1]
  }

  /** The square the walk over list[0 .. n) records as last: the latest survivor, or -1. */
  ghost function LastSurvivor(g3: seq<int>, list: seq<int>, n: int, w: int, i: int, spare: seq<int>): int
    requires w > 0 && ListedIn(list, n, g3)
    decreases n
  {
    if n == 0 then -1
    else if Survives(g3, list, n - 1, w, i, spare) then list[n - 1]
    else LastSurvivor(g3, list, n - 1, w, i, spare)
  }

  /** A square that carries path i at some point of the walk still carries it later: the surround never takes i away. */
  lemma {:induction false} SurroundAlongKeeps(g3: seq<int>, list: seq<int>, m: int, n: int, w: int, i: int, spare: seq<int>, k: int)
    requires w > 0 && ListedIn(list, n, g3) && 0 <= m <= n && 0 <= k < |g3|
    requires SurroundAlong(g3, list, m, w, i, spare)[k] == i
    ensures SurroundAlong(g3, list, n, w, i, spare)[k] == i
    decreases n
  {
    if n > m {
      SurroundAlongKeeps(g3, list, m, n - 1, w, i, spare, k);
    }
  }

  /**
   * The survivors the walk records carry path i in the final working grid
   * and are listed squares, and either both exist or neither does.
   */
  lemma SurvivorsPainted(g3: seq<int>, list: seq<int>, n: int, w: int, i: int, spare: seq<int>)
    requires w > 0 && ListedIn(list, n, g3)
    ensures var f, l := FirstSurvivor(g3, list, n, w, i, spare), LastSurvivor(g3, list, n, w, i, spare);
      var r := SurroundAlong(g3, list, n, w, i, spare);
      (f < 0) == (l < 0)
      && (f >= 0 ==> Listed(list, n, f) && r[f] == i)
      && (l >= 0 ==> Listed(list, n, l) && r[l] == i)
  {
    FirstSurvivorSpec(g3, list, n, w, i, spare);
    LastSurvivorSpec(g3, list, n, w, i, spare);
    var f, l := FirstSurvivor(g3, list, n, w, i, spare), LastSurvivor(g3, list, n, w, i, spare);
    if f >= 0 {
      var j :| 0 <= j < n && list[j] == f && Survives(g3, list, j, w, i, spare);
      SurroundAlongKeeps(g3, list, j, n, w, i, spare, f);
    }
    if l >= 0 {
      var j :| 0 <= j < n && list[j] == l && Survives(g3, list, j, w, i, spare);
      SurroundAlongKeeps(g3, list, j, n, w, i, spare, l);
    }
  }

  /**
   * The state of the restoring walk after list[0 .. j): the working grid is
   * cur3 and the survivors recorded so far are first and last.
   */
  ghost predicate WalkedTo(g3: seq<int>, list: seq<int>, j: int, w: int, i: int, spare: seq<int>, cur3: seq<int>, first: int, last: int)
  {
    w > 0 && ListedIn(list, j, g3)
    && cur3 == SurroundAlong(g3, list, j, w, i, spare)
    && first == FirstSurvivor(g3, list, j, w, i, spare)
    && last == LastSurvivor(g3, list, j, w, i, spare)
  }

  /**
   * first is -1 exactly when no listed square survives, and otherwise it is
   * the survivor that comes earliest in the list.
   */
  lemma {:induction false} FirstSurvivorSpec(g3: seq<int>, list: seq<int>, n: int, w: int, i: int, spare: seq<int>)
    requires w > 0 && ListedIn(list, n, g3)
    ensures var f := FirstSurvivor(g3, list, n, w, i, spare);
      (f < 0 <==> forall j :: 0 <= j < n ==> !Survives(g3, list, j, w, i, spare))
      && (f >= 0 ==> exists j :: 0 <= j < n && list[j] == f && Survives(g3, list, j, w, i, spare)
                       && forall j' :: 0 <= j' < j ==> !Survives(g3, list, j', w, i, spare))
    decreases n
  {
    if n > 0 {
      FirstSurvivorSpec(g3, list, n - 1, w, i, spare);
      var f := FirstSurvivor(g3, list, n - 1, w, i, spare);
      if f < 0 && Survives(g3, list, n - 1, w, i, spare) {
        assert list[n - 1] == FirstSurvivor(g3, list, n, w, i, spare);
      }
    }
  }

  /**
   * last is -1 exactly when no listed square survives, and otherwise it is
   * the survivor that comes latest in the list.
   */
  lemma {:induction false} LastSurvivorSpec(g3: seq<int>, list: seq<int>, n: int, w: int, i: int, spare: seq<int>)
    requires w > 0 && ListedIn(list, n, g3)
    ensures var l := LastSurvivor(g3, list, n, w, i, spare);
      (l < 0 <==> forall j :: 0 <= j < n ==> !Survives(g3, list, j, w, i, spare))
      && (l >= 0 ==> exists j :: 0 <= j < n && list[j] == l && Survives(g3, list, j, w, i, spare)
                       && forall j' :: j < j' < n ==> !Survives(g3, list, j', w, i, spare))
    decreases n
  {
    if n > 0 {
      LastSurvivorSpec(g3, list, n - 1, w, i, spare);
      if Survives(g3, list, n - 1, w, i, spare) {
        assert list[n - 1] == LastSurvivor(g3, list, n, w, i, spare);
      } else {
        var l := LastSurvivor(g3, list, n - 1, w, i, spare);
        if l >= 0 {
          var j :| 0 <= j < n - 1 && list[j] == l && Survives(g3, list, j, w, i, spare)
                   && forall j' :: j < j' < n - 1 ==> !Survives(g3, list, j', w, i, spare);
          assert forall j' :: j < j' < n ==> !Survives(g3, list, j', w, i, spare);
        }
      }
    }
  }

  /**
   * The loop of extend_path that walks back from square k to the start of
   * a flood: the first direction, in the order left, up, right, down, whose
   * square lies on the grid one nearer the start.
   */
  method ParentDir(dist: array<int>, k: int, w: int, h: int) returns (d: int)
    requires w > 0 && dist.Length == w * h && 0 <= k < w * h && HasParent(dist[..], w, h, k)
    ensures 0 <= d < 4 && StepInGrid(k, d, w, h) && 0 <= Step(k, d, w) < w * h
    ensures dist[Step(k, d, w)] == dist[k] - 1
    ensures forall d' :: (0 <= d' < d && StepInGrid(k, d', w, h) && 0 <= Step(k, d', w) < w * h
      ==> dist[Step(k, d', w)] != dist[k] - 1)
  {
    d := 0;
    while d < 4
      invariant 0 <= d <= 4
      invariant forall d' :: (0 <= d' < d && StepInGrid(k, d', w, h) && 0 <= Step(k, d', w) < w * h
        ==> dist[Step(k, d', w)] != dist[k] - 1)
    {
      var jx := k % w + DX(d);
      var jy := k / w + DY(d);
      if 0 <= jx < w && 0 <= jy < h {
        StepFacts(k, d, w, h);
        if dist[Step(k, d, w)] == dist[k] - 1 {
          return;
        }
      }
      d := d + 1;
    }
    assert false;
  }

  /**
   * The bounds test of the walk-back loops of extend_path and add_path as
   * written: the row of the neighbour is compared with the width w where the
   * height h is meant.
   */
  predicate StepInGridAsWritten(k: int, dir: int, w: int, h: int)
    requires w > 0
  {
    0 <= k % w + DX(dir) < w && 0 <= k / w + DY(dir) < w
  }

  /**
   * The direction the walk-back loop of extend_path settles on as written,
   * searching from direction d: the first passing the as-written bounds test
   * whose square is one nearer the start, or 4 when there is none.
   */
  function ParentDirAsWritten(dist: seq<int>, k: int, w: int, h: int, d: int): (r: int)
    requires w > 0 && 0 <= k < |dist| && 0 <= d <= 4
    ensures d <= r <= 4
    decreases 4 - d
  {
    if d == 4 then 4
    else if StepInGridAsWritten(k, d, w, h) && 0 <= Step(k, d, w) < |dist| && dist[Step(k, d, w)] == dist[k] - 1 then d
    else ParentDirAsWritten(dist, k, w, h, d + 1)
  }

  /**
   * The as-written test goes wrong both ways.  On a grid 2 wide and 3 high,
   * flooding from square 4 (the bottom left) along the left column gives
   * square 2 distance 1 and square 0 distance 2; walking back from square 2,
   * its only neighbour one nearer is square 4, in row 2, which the test
   * rejects (2 < w fails), so no direction is found and the assertion d < 4
   * fails (without assertions the walk never ends).  On a grid 3 wide and 2
   * high the test accepts the step down from square 3, to index 6, past the
   * end of the six squares.
   */
  lemma WalkBackBoundAsWritten()
    ensures var g, dist, list := [5, 7, 5, 7, 5, 7], [2, -1, 1, -1, 0, -1], [4, 2, 0, -1, -1, -1];
      BfsResult(g, 2, 3, 4, dist, list, 3) && HasParent(dist, 2, 3, 2)
      && ParentDirAsWritten(dist, 2, 2, 3, 0) == 4
    ensures StepInGridAsWritten(3, Down, 3, 2) && !StepInGrid(3, Down, 3, 2) && Step(3, Down, 3) == 3 * 2
  {
    ColumnFlood();
    ColumnWalkBackStuck([2, -1, 1, -1, 0, -1]);
    StepPastEndAsWritten();
  }

  /** Walking back from square 2 of the column flood, the as-written test finds no direction. */
  lemma ColumnWalkBackStuck(dist: seq<int>)
    requires dist == [2, -1, 1, -1, 0, -1]
    ensures HasParent(dist, 2, 3, 2)
    ensures ParentDirAsWritten(dist, 2, 2, 3, 0) == 4
  {
    assert 2 % 2 == 0 && 2 / 2 == 1;
    assert dist[0] == 2 && dist[2] == 1 && dist[3] == -1 && dist[4] == 0;
    assert StepInGrid(2, Down, 2, 3) && Step(2, Down, 2) == 4;
    assert ParentDirAsWritten(dist, 2, 2, 3, 3) == 4 by {
      assert !StepInGridAsWritten(2, Down, 2, 3);
    }
    assert ParentDirAsWritten(dist, 2, 2, 3, 2) == 4 by {
      assert Step(2, Right, 2) == 3;
    }
    assert ParentDirAsWritten(dist, 2, 2, 3, 1) == 4 by {
      assert Step(2, Up, 2) == 0;
    }
    assert !StepInGridAsWritten(2, Left, 2, 3);
  }

  /** On a grid 3 wide and 2 high the as-written test lets square 3 step down past the end. */
  lemma StepPastEndAsWritten()
    ensures StepInGridAsWritten(3, Down, 3, 2) && !StepInGrid(3, Down, 3, 2) && Step(3, Down, 3) == 3 * 2
  {
  }

  /** The flood of the left column of a grid 2 wide and 3 high from its bottom square. */
  lemma ColumnFlood()
    ensures BfsResult([5, 7, 5, 7, 5, 7], 2, 3, 4, [2, -1, 1, -1, 0, -1], [4, 2, 0, -1, -1, -1], 3)
  {
    ColumnParented();
    ColumnColoured();
    ColumnListing();
    ColumnOrdered();
    ColumnClosed();
  }

  lemma ColumnParented()
    ensures Parented([2, -1, 1, -1, 0, -1], 2, 3)
  {
    var dist := [2, -1, 1, -1, 0, -1];
    assert Step(2, Down, 2) == 4 && Step(0, Down, 2) == 2;
    assert HasParent(dist, 2, 3, 2) && HasParent(dist, 2, 3, 0);
    forall k | 0 <= k < 6 && dist[k] > 0
      ensures HasParent(dist, 2, 3, k)
    {
      if k != 0 && k != 2 {
        assert false;
      }
    }
  }

  lemma ColumnColoured()
    ensures Coloured([5, 7, 5, 7, 5, 7], 4, [2, -1, 1, -1, 0, -1])
  {
    var g, dist := [5, 7, 5, 7, 5, 7], [2, -1, 1, -1, 0, -1];
    forall k | 0 <= k < 6 && dist[k] >= 0
      ensures g[k] == g[4] && (dist[k] == 0 ==> k == 4)
    {
      assert k == 0 || k == 2 || k == 4;
    }
  }

  lemma ColumnListing()
    ensures Listing([2, -1, 1, -1, 0, -1], [4, 2, 0, -1, -1, -1], 3)
  {
    var dist, list := [2, -1, 1, -1, 0, -1], [4, 2, 0, -1, -1, -1];
    forall k | 0 <= k < 6 && dist[k] >= 0
      ensures exists j :: 0 <= j < 3 && list[j] == k
    {
      if k == 0 {
        assert list[2] == 0;
      } else if k == 2 {
        assert list[1] == 2;
      } else {
        assert k == 4 && list[0] == 4;
      }
    }
  }

  lemma ColumnOrdered()
    ensures Ordered([2, -1, 1, -1, 0, -1], [4, 2, 0, -1, -1, -1], 3)
  {
  }

  lemma ColumnClosed()
    ensures Closed([5, 7, 5, 7, 5, 7], 2, 3, 4, [2, -1, 1, -1, 0, -1])
  {
    var g, dist := [5, 7, 5, 7, 5, 7], [2, -1, 1, -1, 0, -1];
    forall k, dir | 0 <= k < 6 && dist[k] >= 0 && 0 <= dir < 4 && StepInGrid(k, dir, 2, 3)
      && 0 <= Step(k, dir, 2) < 6 && g[Step(k, dir, 2)] == g[4]
      ensures 0 <= dist[Step(k, dir, 2)] <= dist[k] + 1
    {
      assert k == 0 || k == 2 || k == 4;
    }
  }

  /** The entry of the extension list that stands for extending end e of path p in direction d. */
  function EncodeExtension(p: int, e: int, d: int): int
  {
    8 * p + 4 * e + d
  }

  /**
   * The decoding in gridgen_mainloop of an entry q of the extension list:
   * the direction is q % 4, then the end is (q / 4) % 2, and the path what
   * is left.  Encoding the triple gives back q.
   */
  function DecodeExtension(q: int): (r: (int, int, int))
    requires 0 <= q
    ensures 0 <= r.0 && 0 <= r.1 < 2 && 0 <= r.2 < 4 && EncodeExtension(r.0, r.1, r.2) == q
  {
    var d := q % 4;
    var q1 := q / 4;
    (q1 / 2, q1 % 2, d)
  }

  /** Decoding the entry of a path, an end and a direction gives them back. */
  lemma DecodeEncode(p: int, e: int, d: int)
    requires 0 <= p && 0 <= e < 2 && 0 <= d < 4
    ensures DecodeExtension(EncodeExtension(p, e, d)) == (p, e, d)
  {
    var q := EncodeExtension(p, e, d);
    DivModUnique(q, 4, 2 * p + e, d);
    DivModUnique(2 * p + e, 2, p, e);
  }

  /** The entries below 8 * n are exactly those of the paths below n. */
  lemma ExtensionOfPath(q: int, n: int)
    requires 0 <= q
    ensures q < 8 * n <==> DecodeExtension(q).0 < n
  {
  }

  /** In the numbers lo, lo + 1, ..., lo + m - 1, each value occurs once and no other occurs. */
  lemma {:induction false} RangeCount(lo: int, m: nat, v: int)
    ensures multiset(seq(m, q => lo + q))[v] == if lo <= v < lo + m then 1 else 0
  {
    if m > 0 {
      RangeCount(lo, m - 1, v);
      assert seq(m, q => lo + q) == seq(m - 1, q => lo + q) + [lo + m - 1];
    }
  }

  /**
   * A sequence with the same multiset as lo, ..., lo + m - 1 is an
   * arrangement of those numbers: it has m entries, each in range, no two
   * equal.
   */
  lemma Arrangement(s: seq<int>, lo: int, m: nat)
    requires multiset(s) == multiset(seq(m, q => lo + q))
    ensures |s| == m && forall j :: 0 <= j < |s| ==> lo <= s[j] < lo + m
    ensures forall a, b :: 0 <= a < b < |s| ==> s[a] != s[b]
  {
    assert |s| == |multiset(s)| == |seq(m, q => lo + q)|;
    forall j | 0 <= j < |s|
      ensures lo <= s[j] < lo + m
    {
      assert s[j] in multiset(s);
      RangeCount(lo, m, s[j]);
    }
    forall a, b | 0 <= a < b < |s|
      ensures s[a] != s[b]
    {
      if s[a] == s[b] {
        assert s == s[..a] + [s[a]] + s[a + 1..b] + [s[b]] + s[b + 1..];
        assert multiset(s)[s[a]] >= 2;
        RangeCount(lo, m, s[a]);
        assert false;
      }
    }
  }

  /**
   * The loops of gridgen_mainloop and gridgen that fill an array with
   * lo, lo + 1, ..., lo + m - 1 and shuffle it: the result is an arrangement
   * of those numbers.  Draws from rng from draw on and returns the next
   * unused draw.
   */
  method ShuffledRange(lo: int, m: nat, rng: nat -> nat, draw: nat) returns (r: seq<int>, next: nat)
    ensures |r| == m && multiset(r) == multiset(seq(m, q => lo + q))
    ensures next == draw + (if m > 1 then m - 1 else 0)
  {
    var a := new int[m];
    var i := 0;
    while i < m
      invariant 0 <= i <= m
      invariant forall q :: 0 <= q < i ==> a[q] == lo + q
    {
      a[i] := lo + i;
      i := i + 1;
    }
    assert a[..m] == seq(m, q => lo + q);
    next := Shuffle(a, m, rng, draw);
    r := a[..m];
  }

  /** The empty squares (-1) among the first m squares of g, in increasing order. */
  function EmptySquares(g: seq<int>, m: int): (r: seq<int>)
    requires 0 <= m <= |g|
    ensures |r| <= m
  {
    if m == 0 then [] else EmptySquares(g, m - 1) + (if g[m - 1] == -1 then [m - 1] else [])
  }

  /** EmptySquares lists exactly the empty squares below m, in strictly increasing order. */
  lemma {:induction false} EmptySquaresSpec(g: seq<int>, m: int)
    requires 0 <= m <= |g|
    ensures forall k :: k in EmptySquares(g, m) <==> 0 <= k < m && g[k] == -1
    ensures forall a, b :: 0 <= a < b < |EmptySquares(g, m)| ==> EmptySquares(g, m)[a] < EmptySquares(g, m)[b]
  {
    if m > 0 {
      EmptySquaresSpec(g, m - 1);
      var e := EmptySquares(g, m - 1);
      assert EmptySquares(g, m) == e + (if g[m - 1] == -1 then [m - 1] else []);
      forall a | 0 <= a < |e|
        ensures e[a] < m - 1
      {
        assert e[a] in e;
      }
    }
  }

  /** Any arrangement of the empty squares below m lists only empty squares below m. */
  lemma ShuffledEmptiesAreEmpty(g: seq<int>, s: seq<int>, m: int)
    requires 0 <= m <= |g| && multiset(s) == multiset(EmptySquares(g, m))
    ensures forall t :: 0 <= t < |s| ==> 0 <= s[t] < m && g[s[t]] == -1
  {
    EmptySquaresSpec(g, m);
    forall t | 0 <= t < |s|
      ensures 0 <= s[t] < m && g[s[t]] == -1
    {
      assert s[t] in multiset(s);
      assert s[t] in EmptySquares(g, m);
    }
  }

  /**
   * The loop of add_path that collects, for the square k being extended
   * from, the neighbours one nearer the start of the flood, in the order
   * left, up, right, down.
   */
  method Parents(dist: array<int>, k: int, w: int, h: int) returns (pts: seq<int>)
    requires w > 0 && dist.Length == w * h && 0 <= k < w * h
    ensures |pts| <= 4
    ensures forall q :: q in pts ==> 0 <= q < w * h && dist[q] == dist[k] - 1
    ensures forall d :: (0 <= d < 4 && StepInGrid(k, d, w, h) && 0 <= Step(k, d, w) < w * h
      && dist[Step(k, d, w)] == dist[k] - 1) ==> Step(k, d, w) in pts
    ensures forall q :: q in pts ==> OneStep(k, q, w, h)
  {
    pts := [];
    var d := 0;
    while d < 4
      invariant 0 <= d <= 4 && |pts| <= d
      invariant forall q :: q in pts ==> 0 <= q < w * h && dist[q] == dist[k] - 1
      invariant forall q :: q in pts ==> OneStep(k, q, w, h)
      invariant forall d' :: (0 <= d' < d && StepInGrid(k, d', w, h) && 0 <= Step(k, d', w) < w * h
        && dist[Step(k, d', w)] == dist[k] - 1) ==> Step(k, d', w) in pts
    {
      var xn := k % w + DX(d);
      var yn := k / w + DY(d);
      if 0 <= xn < w && 0 <= yn < h {
        StepFacts(k, d, w, h);
        if dist[Step(k, d, w)] == dist[k] - 1 {
          pts := pts + [Step(k, d, w)];
        }
      }
      d := d + 1;
    }
  }

  /**
   * The choice of the far end in add_path, among list[0 .. nsq) of a flood:
   * skip the squares nearer than 3, then those more than one short of the
   * farthest distance, and pick at random among the rest.  Returns the
   * index of the pick in list.
   */
  method ChooseEnd(dist: array<int>, list: array<int>, nsq: int, rng: nat -> nat, draw: nat) returns (r: int, next: nat)
    requires 1 <= nsq <= list.Length && forall j :: 0 <= j < nsq ==> 0 <= list[j] < dist.Length
    requires forall j, k :: 0 <= j <= k < nsq ==> dist[list[j]] <= dist[list[k]]
    requires dist[list[nsq - 1]] >= 3
    ensures 0 <= r < nsq && next == draw + 1
    ensures 3 <= dist[list[r]] && dist[list[nsq - 1]] - 1 <= dist[list[r]] <= dist[list[nsq - 1]]
  {
    var j := 0;
    while j < nsq && dist[list[j]] < 3
      invariant 0 <= j <= nsq && forall t :: 0 <= t < j ==> dist[list[t]] < 3
    {
      j := j + 1;
    }
    while dist[list[j]] + 1 < dist[list[nsq - 1]]
      invariant 0 <= j < nsq && dist[list[j]] >= 3
      decreases nsq - j
    {
      j := j + 1;
    }
    r := j + RandomUpto(rng, draw, nsq - j);
    next := draw + 1;
  }

  /** The facts about a flood from s that laying a path along it needs. */
  lemma ReachedFacts(g: seq<int>, w: int, h: int, s: int, dist: seq<int>, list: seq<int>, n: int)
    requires BfsResult(g, w, h, s, dist, list, n)
    ensures w > 0 && h > 0 && |g| == w * h && |dist| == w * h && 0 <= s < w * h && dist[s] == 0
    ensures forall k :: 0 <= k < w * h && dist[k] >= 0 ==> g[k] == g[s]
    ensures forall k :: 0 <= k < w * h && dist[k] == 0 ==> k == s
    ensures forall k :: 0 <= k < w * h && dist[k] > 0 ==> HasParent(dist, w, h, k)
  {
  }

  /** b is the square one step from a in some direction, inside the w by h grid. */
  ghost predicate OneStep(a: int, b: int, w: int, h: int)
    requires w > 0
  {
    exists d :: 0 <= d < 4 && StepInGrid(a, d, w, h) && b == Step(a, d, w)
  }

  /**
   * walk goes from a to b over neighbouring squares, one nearer the start
   * of the flood dist at each step.
   */
  ghost predicate Descent(walk: seq<int>, dist: seq<int>, w: int, h: int, a: int, b: int)
  {
    w > 0 && |dist| == w * h && 0 <= a < w * h && |walk| >= 1 && walk[0] == a && walk[|walk| - 1] == b
    && (forall t :: 0 <= t < |walk| ==> 0 <= walk[t] < w * h && dist[walk[t]] == dist[a] - t)
    && (forall t :: 0 <= t < |walk| - 1 ==> OneStep(walk[t], walk[t + 1], w, h))
  }

  /** Taking one more step to a neighbour one nearer the start extends a descent. */
  lemma DescentExtend(walk: seq<int>, dist: seq<int>, w: int, h: int, a: int, b: int, q: int)
    requires Descent(walk, dist, w, h, a, b) && 0 <= q < w * h && dist[q] == dist[b] - 1 && OneStep(b, q, w, h)
    ensures Descent(walk + [q], dist, w, h, a, q)
  {
    var walk' := walk + [q];
    forall t | 0 <= t < |walk'| - 1
      ensures OneStep(walk'[t], walk'[t + 1], w, h)
    {
      if t < |walk| - 1 {
        assert walk'[t] == walk[t] && walk'[t + 1] == walk[t + 1];
      }
    }
  }

  /** g1 is g0 with exactly the squares of walk given to path c. */
  ghost predicate Painted(g0: seq<int>, g1: seq<int>, walk: seq<int>, c: int)
  {
    |g1| == |g0|
    && (forall t :: 0 <= t < |walk| && 0 <= walk[t] < |g1| ==> g1[walk[t]] == c)
    && (forall k :: 0 <= k < |g0| && k !in walk ==> g1[k] == g0[k])
  }

  /** Giving one more square to path c paints one more square of the walk. */
  lemma PaintedExtend(g0: seq<int>, g1: seq<int>, walk: seq<int>, c: int, q: int)
    requires Painted(g0, g1, walk, c) && 0 <= q < |g1|
    ensures Painted(g0, g1[q := c], walk + [q], c)
  {
    var walk' := walk + [q];
    forall t | 0 <= t < |walk'| && 0 <= walk'[t] < |g1|
      ensures g1[q := c][walk'[t]] == c
    {
      if t < |walk| {
        assert walk'[t] == walk[t];
      }
    }
  }

  /**
   * The walk of add_path from the far end j0 back to the start i of a
   * flood: each step goes to a random neighbour one nearer i, and every
   * square on the way is given to path c.  Draws from rng from draw on.
   */
  method LayPath(grid: array<int>, dist: array<int>, w: int, h: int, c: int, i: int, j0: int, rng: nat -> nat, draw: nat)
    returns (next: nat, ghost walk: seq<int>)
    requires w > 0 && h > 0 && grid.Length == w * h && dist.Length == w * h && grid != dist
    requires 0 <= i < w * h && dist[i] == 0 && 0 <= j0 < w * h && dist[j0] >= 0
    requires forall k :: 0 <= k < w * h && dist[k] == 0 ==> k == i
    requires forall k :: 0 <= k < w * h && dist[k] > 0 ==> HasParent(dist[..], w, h, k)
    modifies grid
    ensures Laid(old(grid[..]), grid[..], dist[..], c, i, j0)
    ensures Descent(walk, dist[..], w, h, j0, i) && |walk| == dist[j0] + 1
    ensures Painted(old(grid[..]), grid[..], walk, c)
  {
    next := draw;
    var j := j0;
    grid[j] := c;
    walk := [j0];
    while j != i
      invariant 0 <= j < w * h && dist[j] >= 0 && grid[j] == c && grid[j0] == c
      invariant forall k :: 0 <= k < w * h ==> grid[k] == old(grid[k]) || (dist[k] >= 0 && grid[k] == c)
      invariant Descent(walk, dist[..], w, h, j0, j)
      invariant Painted(old(grid[..]), grid[..], walk, c)
      decreases dist[j]
    {
      assert HasParent(dist[..], w, h, j);
      var pts := Parents(dist, j, w, h);
      var index := 0;
      if |pts| > 1 {
        index := RandomUpto(rng, next, |pts|);
        next := next + 1;
      }
      assert pts[index] in pts;
      ghost var j1, g := j, grid[..];
      j := pts[index];
      grid[j] := c;
      assert grid[..] == g[j := c];
      assert Descent(walk + [j], dist[..], w, h, j0, j) by {
        DescentExtend(walk, dist[..], w, h, j0, j1, j);
      }
      assert Painted(old(grid[..]), grid[..], walk + [j], c) by {
        PaintedExtend(old(grid[..]), g, walk, c, j);
      }
      walk := walk + [j];
    }
  }

  /** g1 is g0 with some of its empty squares given to path c. */
  ghost predicate Grown(g0: seq<int>, g1: seq<int>, c: int)
  {
    |g1| == |g0| && forall k :: 0 <= k < |g0| ==> g1[k] == g0[k] || (g0[k] == -1 && g1[k] == c)
  }

  /**
   * Laying path c over squares that were empty keeps the ends of the paths
   * below c marked, and marks the two ends of c.
   */
  lemma LaidKeepsEnds(g0: seq<int>, g1: seq<int>, ends0: seq<int>, ends1: seq<int>, c: int, i: int, j: int, dist: seq<int>)
    requires 0 <= c && 2 * c <= |ends0| && 2 * c + 2 <= |ends1| && ends1[..2 * c] == ends0[..2 * c]
    requires End(ends1, c, 0) == i && End(ends1, c, 1) == j
    requires Laid(g0, g1, dist, c, i, j)
    requires EndsOn(g0, ends0, c)
    requires forall k :: 0 <= k < |g0| && dist[k] >= 0 ==> g0[k] == -1
    requires forall k :: 0 <= k < |g0| ==> -1 <= g0[k] < c
    ensures EndsOn(g1, ends1, c + 1) && Grown(g0, g1, c)
    ensures forall k :: 0 <= k < |g1| ==> -1 <= g1[k] < c + 1
  {
    forall p, f | 0 <= p < c + 1 && 0 <= f < 2
      ensures 0 <= End(ends1, p, f) < |g1| && g1[End(ends1, p, f)] == p
    {
      if p < c {
        assert ends1[..2 * c][2 * p + f] == ends0[..2 * c][2 * p + f];
        var k := End(ends1, p, f);
        assert k == End(ends0, p, f) && g0[k] == p;
        assert g1[k] == g0[k];
      }
    }
  }

  /**
   * add_path's walk over a flood from the empty square i, as it acts on the
   * grid: path c is laid over empty squares, and the ends of paths 0 to c
   * sit on squares carrying their numbers.
   */
  method LayNewPath(grid: array<int>, dist: array<int>, list: seq<int>, w: int, h: int, c: int, i: int, j: int,
                    ghost nsq: int, ghost ends0: seq<int>, ghost ends1: seq<int>, rng: nat -> nat, draw: nat)
    returns (next: nat)
    requires grid != dist && BfsResult(grid[..], w, h, i, dist[..], list, nsq) && grid[i] == -1
    requires 0 <= j < w * h && dist[j] >= 0
    requires 0 <= c && 2 * c <= |ends0| && 2 * c + 2 <= |ends1| && ends1[..2 * c] == ends0[..2 * c]
    requires End(ends1, c, 0) == i && End(ends1, c, 1) == j
    requires EndsOn(grid[..], ends0, c) && forall k :: 0 <= k < grid.Length ==> -1 <= grid[k] < c
    modifies grid
    ensures EndsOn(grid[..], ends1, c + 1) && Grown(old(grid[..]), grid[..], c)
    ensures forall k :: 0 <= k < grid.Length ==> -1 <= grid[k] < c + 1
  {
    ghost var g0 := grid[..];
    ReachedFacts(g0, w, h, i, dist[..], list, nsq);
    ghost var walk;
    next, walk := LayPath(grid, dist, w, h, c, i, j, rng, draw);
    LaidKeepsEnds(g0, grid[..], ends0, ends1, c, i, j, dist[..]);
    assert forall k :: 0 <= k < grid.Length ==> grid[k] == grid[..][k];
  }

  /** g1 is g0 with path c laid from j back to i over squares the flood dist reached. */
  ghost predicate Laid(g0: seq<int>, g1: seq<int>, dist: seq<int>, c: int, i: int, j: int)
  {
    |g1| == |g0| == |dist| && 0 <= i < |g1| && 0 <= j < |g1| && g1[i] == c && g1[j] == c
    && forall k :: 0 <= k < |g0| ==> g1[k] == g0[k] || (dist[k] >= 0 && g1[k] == c)
  }

  /** What one pass of the inner loop of gridgen_mainloop achieved. */
  datatype Growth = Full | Added | Extended | Stuck

  class GenCtx {
    const w: int
    const h: int
    const grid: array<int>
    const sparegrid: array<int>
    const sparegrid2: array<int>
    const sparegrid3: array<int>
    const dist: array<int>
    const list: array<int>
    var npaths: int
    var pathsize: int
    var pathends: seq<int>
    var sparepathends: seq<int>
    /** Per path: 0 untouched, 1 broken, 2 fixed while a push is under way; the labels at the end. */
    var pathspare: seq<int>
    var extensions: seq<int>

    /**
     * The shape of the context: the six grid-sized arrays are distinct, the
     * per-path arrays hold pathsize paths, a multiple of 16 no smaller than
     * npaths, and every square is empty or carries the number of a path.
     */
    ghost predicate Valid()
      reads this, grid
    {
      0 < w && 0 < h
      && grid.Length == w * h && sparegrid.Length == w * h && sparegrid2.Length == w * h
      && sparegrid3.Length == w * h && dist.Length == w * h && list.Length == w * h
      && grid != sparegrid && grid != sparegrid2 && grid != sparegrid3 && grid != dist && grid != list
      && sparegrid != sparegrid2 && sparegrid != sparegrid3 && sparegrid != dist && sparegrid != list
      && sparegrid2 != sparegrid3 && sparegrid2 != dist && sparegrid2 != list
      && sparegrid3 != dist && sparegrid3 != list && dist != list
      && 0 <= npaths <= pathsize && pathsize % PathChunk == 0
      && |pathends| == 2 * pathsize && |sparepathends| == 2 * pathsize
      && |pathspare| == pathsize && |extensions| == 8 * pathsize
      && forall k :: 0 <= k < w * h ==> -1 <= grid[k] < npaths
    }

    /** Both recorded ends of every path lie on the grid and carry the path's number. */
    ghost predicate EndsMarked()
      reads this, grid
      requires Valid()
    {
      EndsOn(grid[..], pathends, npaths)
    }

    /** The path bookkeeping that a push leaves alone. */
    ghost function Paths(): (int, int, seq<int>, seq<int>)
      reads this
    {
      (npaths, pathsize, pathends, extensions)
    }

    /** new_genctx: an empty w x h context with no paths and no capacity. */
    constructor (w: int, h: int)
      requires 0 < w && 0 < h
      ensures Valid() && EndsMarked() && this.w == w && this.h == h
      ensures npaths == 0 && pathsize == 0
      ensures forall k :: 0 <= k < w * h ==> grid[k] == -1
      ensures fresh(grid) && fresh(sparegrid) && fresh(sparegrid2) && fresh(sparegrid3) && fresh(dist) && fresh(list)
    {
      this.w := w;
      this.h := h;
      grid := new int[w * h](_ => -1);
      sparegrid := new int[w * h];
      sparegrid2 := new int[w * h];
      sparegrid3 := new int[w * h];
      dist := new int[w * h];
      list := new int[w * h];
      npaths := 0;
      pathsize := 0;
      pathends := [];
      sparepathends := [];
      pathspare := [];
      extensions := [];
    }

    /**
     * newpath: allocates the next path number.  When the per-path arrays are
     * full they grow by room for 16 more paths, keeping their contents.
     */
    method NewPath() returns (n: int)
      requires Valid()
      modifies this
      ensures Valid() && n == old(npaths) && npaths == old(npaths) + 1
      ensures pathsize == if old(npaths) < old(pathsize) then old(pathsize) else old(pathsize) + PathChunk
      ensures pathends[..2 * old(pathsize)] == old(pathends) && sparepathends[..2 * old(pathsize)] == old(sparepathends)
      ensures pathspare[..old(pathsize)] == old(pathspare) && extensions[..8 * old(pathsize)] == old(extensions)
    {
      n := npaths;
      npaths := npaths + 1;
      if npaths > pathsize {
        pathsize := pathsize + PathChunk;
        pathends := pathends + seq(2 * PathChunk, _ => 0);
        sparepathends := sparepathends + seq(2 * PathChunk, _ => 0);
        pathspare := pathspare + seq(PathChunk, _ => 0);
        extensions := extensions + seq(8 * PathChunk, _ => 0);
      }
    }

    /** Growing the path count keeps the ends of the paths that existed before. */
    lemma NewPathKeepsEnds(oldEnds: seq<int>, oldCount: int)
      requires Valid() && 0 <= oldCount < npaths && 2 * oldCount <= |oldEnds| <= |pathends|
      requires pathends[..|oldEnds|] == oldEnds
      ensures forall p, f :: 0 <= p < oldCount && 0 <= f < 2 ==> End(pathends, p, f) == End(oldEnds, p, f)
    {
      forall p, f | 0 <= p < oldCount && 0 <= f < 2
        ensures End(pathends, p, f) == End(oldEnds, p, f)
      {
        assert pathends[..|oldEnds|][2 * p + f] == pathends[2 * p + f];
      }
    }

    /**
     * is_endpoint: whether square (x, y) is one of the two recorded ends of
     * the path through it; an empty square is never an endpoint.
     */
    function IsEndpoint(x: int, y: int): (r: bool)
      reads this, grid
      requires Valid() && 0 <= x < w && 0 <= y < h
      ensures (RowFits(y, w, h); grid[y * w + x] < 0 ==> !r)
    {
      RowFits(y, w, h);
      var c := grid[y * w + x];
      if c < 0 then false
      else End(pathends, c, 0) == y * w + x || End(pathends, c, 1) == y * w + x
    }

    /**
     * With the ends marked on the grid, a square is an endpoint exactly when
     * it is recorded as an end of some path.
     */
    lemma IsEndpointIffRecordedEnd(x: int, y: int)
      requires Valid() && EndsMarked() && 0 <= x < w && 0 <= y < h
      ensures IsEndpoint(x, y) <==>
        exists p, f :: 0 <= p < npaths && 0 <= f < 2 && End(pathends, p, f) == y * w + x
    {
      RowFits(y, w, h);
      var c := grid[y * w + x];
      if IsEndpoint(x, y) {
        var f := if End(pathends, c, 0) == y * w + x then 0 else 1;
        assert End(pathends, c, f) == y * w + x;
      }
      if exists p, f :: 0 <= p < npaths && 0 <= f < 2 && End(pathends, p, f) == y * w + x {
        var p, f :| 0 <= p < npaths && 0 <= f < 2 && End(pathends, p, f) == y * w + x;
        assert grid[End(pathends, p, f)] == p;
      }
    }

    /**
     * Why extend_path refuses to extend end `end` of path in direction
     * `direction` before trying any push: the target square is off the grid,
     * is an end of a path, already belongs to path, or touches a square of
     * path other than the end being extended.
     */
    ghost predicate Refused(path: int, end: int, direction: int)
      reads this, grid
      requires Valid() && EndsMarked() && 0 <= path < npaths && 0 <= end < 2
    {
      var k0 := End(pathends, path, end);
      !StepInGrid(k0, direction, w, h)
      || (StepFacts(k0, direction, w, h);
          var e := Step(k0, direction, w);
          IsEndpoint(e % w, e / w) || grid[e] == path || TouchesOther(grid[..], w, h, e, k0, path))
    }

    /**
     * The push state of a context in the middle of extend_path, with path's
     * end `end` moved to e.  The restoring loops state it as
     * `Pushing(..) == true`, which passes it on whole instead of
     * re-checking each of its conjuncts at every step.
     */
    ghost predicate Pushing(path: int, end: int, e: int)
      reads this, grid, sparegrid
    {
      Valid() && EndsMarked() && 0 <= path < npaths && 0 <= end < 2
      && PushState(grid[..], pathends, npaths, sparegrid[..], sparepathends, pathspare)
      && pathspare[path] == 2 && End(sparepathends, path, end) == e
    }

    /**
     * The loop of extend_path over the four neighbours of the target square
     * e: whether one of them, other than the end k0 being extended, belongs
     * to path.
     */
    method AdjacentToPath(e: int, k0: int, path: int) returns (touches: bool)
      requires Valid() && 0 <= e < w * h
      ensures touches <==> TouchesOther(grid[..], w, h, e, k0, path)
    {
      var j := 0;
      while j < 4
        invariant 0 <= j <= 4
        invariant forall d :: (0 <= d < j && StepInGrid(e, d, w, h) && 0 <= Step(e, d, w) < w * h
          ==> Step(e, d, w) == k0 || grid[Step(e, d, w)] != path)
      {
        var xf := e % w + DX(j);
        var yf := e / w + DY(j);
        if 0 <= xf < w && 0 <= yf < h {
          StepFacts(e, j, w, h);
          var f := Step(e, j, w);
          if f != k0 && grid[f] == path {
            return true;
          }
        }
        j := j + 1;
      }
      return false;
    }

    /**
     * extend_path: tries to extend end `end` of path by one square in
     * direction `direction`, pushing the paths in the way aside.  The work is
     * done on the spare copies; grid and pathends change only at the final
     * commit, so a refusal or a failed push leaves them as they were.  On
     * success the extended end is the target square and the layout is
     * consistent again.
     */
    method ExtendPath(path: int, end: int, direction: int) returns (ok: bool)
      requires Valid() && EndsMarked() && 0 <= path < npaths && 0 <= end < 2
      modifies this, grid, sparegrid, sparegrid2, sparegrid3, dist, list
      ensures Valid() && EndsMarked()
      ensures npaths == old(npaths) && pathsize == old(pathsize) && extensions == old(extensions)
      ensures !ok ==> grid[..] == old(grid[..]) && pathends == old(pathends)
      ensures old(Refused(path, end, direction)) ==> !ok
      ensures ok ==> (old(StepInGrid(End(pathends, path, end), direction, w, h))
        && End(pathends, path, end) == Step(old(End(pathends, path, end)), direction, w)
        && grid[End(pathends, path, end)] == path)
      ensures pathends[2 * npaths..] == old(pathends[2 * npaths..])
    {
      var k0 := End(pathends, path, end);
      var y := k0 / w;
      var x := k0 % w;
      var xe := x + DX(direction);
      var ye := y + DY(direction);
      if xe < 0 || xe >= w || ye < 0 || ye >= h {
        return false;
      }
      StepFacts(k0, direction, w, h);
      var e := Step(k0, direction, w);
      if IsEndpoint(xe, ye) {
        return false;
      }
      if grid[e] == path {
        return false;
      }
      var touches := AdjacentToPath(e, k0, path);
      if touches {
        return false;
      }
      ok := Push(path, end, e);
    }

    /**
     * The push of extend_path, once the extension of path's end `end` into
     * square e is known to be allowed: the spare copies are set up, the
     * extension is made there, the paths it cut are restored and, if that
     * succeeds, the result is committed.
     */
    method Push(path: int, end: int, e: int) returns (ok: bool)
      requires Valid() && EndsMarked() && 0 <= path < npaths && 0 <= end < 2
      requires 0 <= e < w * h && grid[e] != path
      modifies this, grid, sparegrid, sparegrid2, sparegrid3, dist, list
      ensures Valid() && EndsMarked()
      ensures npaths == old(npaths) && pathsize == old(pathsize) && extensions == old(extensions)
      ensures !ok ==> grid[..] == old(grid[..]) && pathends == old(pathends)
      ensures ok ==> End(pathends, path, end) == e && grid[e] == path
      ensures pathends[2 * npaths..] == old(pathends[2 * npaths..])
    {
      var cut := BeginPush(path, end, e);
      if cut >= 0 {
        ok := Repair(path, end, e);
        if !ok {
          return;
        }
      }
      Commit(path, end, e);
      ok := true;
    }

    /**
     * The set-up of the push: sparegrid and sparegrid2 become copies of the
     * grid, sparepathends of pathends, every path is untouched; then path is
     * extended into e on sparegrid and becomes fixed, and the path cut there,
     * if any, becomes broken.  Returns the path cut, or -1.
     */
    method BeginPush(path: int, end: int, e: int) returns (cut: int)
      requires Valid() && EndsMarked() && 0 <= path < npaths && 0 <= end < 2
      requires 0 <= e < w * h && grid[e] != path
      modifies this, sparegrid, sparegrid2
      ensures Pushing(path, end, e) && Paths() == old(Paths())
      ensures cut == grid[e] && (cut < 0 ==> forall p :: 0 <= p < npaths ==> pathspare[p] != 1)
    {
      CopyGrid();
      ghost var sends0, spare0 := sparepathends, pathspare;
      sparepathends := pathends[..2 * npaths] + sparepathends[2 * npaths..];
      pathspare := seq(npaths, _ => 0) + pathspare[npaths..];
      cut := sparegrid[e];
      sparegrid[e] := path;
      sparepathends := sparepathends[2 * path + end := e];
      pathspare := pathspare[path := 2];
      if cut >= 0 {
        pathspare := pathspare[cut := 1];
      }
      assert sparegrid[..] == grid[..][e := path];
      StartPush(grid[..], pathends, npaths, sends0, spare0, path, end, e);
    }

    /** The two memcpy calls that make sparegrid and sparegrid2 copies of the grid. */
    method CopyGrid()
      requires Valid()
      modifies sparegrid, sparegrid2
      ensures sparegrid[..] == grid[..] && sparegrid2[..] == grid[..]
    {
      forall k | 0 <= k < w * h {
        sparegrid[k] := grid[k];
      }
      forall k | 0 <= k < w * h {
        sparegrid2[k] := grid[k];
      }
    }

    /**
     * The commit of a successful push: the working grid and ends become the
     * grid and the ends, and the layout is consistent again.
     */
    method Commit(path: int, end: int, e: int)
      requires Pushing(path, end, e) && forall p :: 0 <= p < npaths ==> pathspare[p] != 1
      modifies this, grid
      ensures Valid() && EndsMarked()
      ensures npaths == old(npaths) && pathsize == old(pathsize) && extensions == old(extensions)
      ensures grid[..] == old(sparegrid[..]) && pathends == old(sparepathends[..2 * npaths] + pathends[2 * npaths..])
      ensures End(pathends, path, end) == e && grid[e] == path
    {
      CommitMarks(grid[..], pathends, npaths, sparegrid[..], sparepathends, pathspare);
      forall k | 0 <= k < w * h {
        grid[k] := sparegrid[k];
      }
      pathends := sparepathends[..2 * npaths] + pathends[2 * npaths..];
      assert grid[..] == sparegrid[..];
    }

    /**
     * The while (1) loop of extend_path: restores broken paths one at a time
     * until none is left, or gives up.  Each restored path becomes fixed and
     * never breaks again, so the loop ends.
     */
    method Repair(path: int, end: int, e: int) returns (ok: bool)
      requires Pushing(path, end, e)
      modifies this, sparegrid, sparegrid3, dist, list
      ensures Valid() && EndsMarked() && Paths() == old(Paths())
      ensures ok ==> Pushing(path, end, e) && forall p :: 0 <= p < npaths ==> pathspare[p] != 1
    {
      while true
        invariant Pushing(path, end, e) && Paths() == old(Paths())
        decreases Unfixed(pathspare, npaths)
      {
        var i := FindBroken();
        if i == npaths {
          return true;
        }
        ok := RestorePath(i, path, end, e);
        if !ok {
          return;
        }
      }
    }

    /** The search for a broken path: the first path whose status is 1, or npaths if there is none. */
    method FindBroken() returns (i: int)
      requires 0 <= npaths <= |pathspare|
      ensures 0 <= i <= npaths && (i < npaths ==> pathspare[i] == 1)
      ensures forall p :: 0 <= p < i ==> pathspare[p] != 1
    {
      i := 0;
      while i < npaths && pathspare[i] != 1
        invariant 0 <= i <= npaths
        invariant forall p :: 0 <= p < i ==> pathspare[p] != 1
      {
        i := i + 1;
      }
    }

    /**
     * One pass of the while (1) loop of extend_path: path i, broken, is
     * wiped from the working grid along its old track, the squares around
     * its cut points are offered to it, and it is laid again along a shortest
     * route between its surviving ends, breaking the unfixed paths in the
     * way.  On success path i is fixed, so one path fewer is unfixed.
     */
    method RestorePath(i: int, path: int, end: int, e: int) returns (ok: bool)
      requires Pushing(path, end, e) && 0 <= i < npaths && pathspare[i] == 1
      modifies this, sparegrid, sparegrid3, dist, list
      ensures Pushing(path, end, e) && Paths() == old(Paths())
      ensures ok ==> pathspare[i] == 2 && Unfixed(pathspare, npaths) < old(Unfixed(pathspare, npaths))
    {
      var first, last;
      ok, first, last := Unlay(i, path, end, e);
      if !ok {
        return;
      }
      ok := Relay(i, first, last, path, end, e);
    }

    /**
     * The first half of restoring path i: sparegrid3 becomes a copy of the
     * working grid, path i's old track is flooded on sparegrid2, and
     * WipeAndSurround finds the surviving ends first and last.  Fails when an
     * old end of i is no longer i's, or when nothing of i survives.
     */
    method Unlay(i: int, ghost path: int, ghost end: int, ghost e: int) returns (ok: bool, first: int, last: int)
      requires Pushing(path, end, e) && 0 <= i < npaths && pathspare[i] == 1
      modifies sparegrid, sparegrid3, dist, list
      ensures Pushing(path, end, e)
      ensures ok ==> 0 <= first < w * h && sparegrid3[first] == i && 0 <= last < w * h && sparegrid3[last] == i
    {
      forall k | 0 <= k < w * h {
        sparegrid3[k] := sparegrid[k];
      }
      var s0 := End(pathends, i, 0);
      IdxOfLocOf(s0, w, h);
      var n := Bfs(w, h, sparegrid2, s0 % w, s0 / w, dist, list);
      if sparegrid3[End(pathends, i, 0)] != i || sparegrid3[End(pathends, i, 1)] != i {
        return false, -1, -1;
      }
      first, last := WipeAndSurround(i, n, path, end, e);
      ok := first >= 0 && last >= 0;
    }

    /**
     * The second half: path i is laid along a shortest route, through the
     * squares sparegrid3 offers it, from last back to first, and becomes
     * fixed with those ends.  Fails when the ends are less than two steps
     * apart or cannot be joined, or when the route meets a fixed path.
     */
    method Relay(i: int, first: int, last: int, ghost path: int, ghost end: int, ghost e: int) returns (ok: bool)
      requires Pushing(path, end, e) && 0 <= i < npaths && pathspare[i] == 1
      requires 0 <= first < w * h && 0 <= last < w * h
      modifies this, sparegrid, dist, list
      ensures Pushing(path, end, e) && Paths() == old(Paths())
      ensures ok ==> pathspare[i] == 2 && Unfixed(pathspare, npaths) < old(Unfixed(pathspare, npaths))
    {
      IdxOfLocOf(first, w, h);
      var n := Bfs(w, h, sparegrid3, first % w, first / w, dist, list);
      if dist[last] < 2 {
        return false;
      }
      ok := WalkBack(i, first, last, n, path, end, e);
      if ok {
        Fix(i, first, last, path, end, e);
      }
    }

    /** Path i, relaid from first to last in the working grid, becomes fixed. */
    method Fix(i: int, first: int, last: int, ghost path: int, ghost end: int, ghost e: int)
      requires Pushing(path, end, e) && 0 <= i < npaths && pathspare[i] == 1
      requires 0 <= first < w * h && 0 <= last < w * h && sparegrid[first] == i && sparegrid[last] == i
      modifies this
      ensures Pushing(path, end, e) && Paths() == old(Paths())
      ensures pathspare[i] == 2 && Unfixed(pathspare, npaths) < old(Unfixed(pathspare, npaths))
    {
      FixKeeps(grid[..], pathends, npaths, sparegrid[..], sparepathends, pathspare, i, first, last);
      UnfixedUpdate(pathspare, npaths, i, 2);
      sparepathends := sparepathends[2 * i := first][2 * i + 1 := last];
      pathspare := pathspare[i := 2];
    }

    /**
     * The walk over path i's old track, list[0 .. n): every square of the
     * track still carrying i in the working grid is wiped, and the squares
     * around each point where the track was cut are offered to i in
     * sparegrid3.  first and last are the first and the last square of the
     * track that still carry i in sparegrid3, or -1 when none does.
     */
    method WipeAndSurround(i: int, n: int, ghost path: int, ghost end: int, ghost e: int) returns (first: int, last: int)
      requires Pushing(path, end, e) && 0 <= i < npaths && pathspare[i] == 1
      requires 0 <= n <= w * h && forall j :: 0 <= j < n ==> 0 <= list[j] < w * h
      requires forall k :: 0 <= k < w * h ==> -1 <= sparegrid3[k] < npaths
      modifies sparegrid, sparegrid3
      ensures Pushing(path, end, e) == true
      ensures forall k :: 0 <= k < w * h ==> -1 <= sparegrid3[k] < npaths
      ensures sparegrid[..] == Wiped(old(sparegrid[..]), list[..], n, i)
      ensures (first < 0) == (last < 0)
      ensures first >= 0 ==> Listed(list[..], n, first) && sparegrid3[first] == i
      ensures last >= 0 ==> Listed(list[..], n, last) && sparegrid3[last] == i
      ensures ListedIn(list[..], n, old(sparegrid3[..]))
      ensures sparegrid3[..] == SurroundAlong(old(sparegrid3[..]), list[..], n, w, i, pathspare)
      ensures first == FirstSurvivor(old(sparegrid3[..]), list[..], n, w, i, pathspare)
      ensures last == LastSurvivor(old(sparegrid3[..]), list[..], n, w, i, pathspare)
    {
      first, last := -1, -1;
      ghost var sg3, lst := sparegrid3[..], list[..];
      assert ListedIn(lst, n, sg3);
      var j := 0;
      while j < n
        invariant 0 <= j <= n && Pushing(path, end, e) == true && list[..] == lst
        invariant forall k :: 0 <= k < w * h ==> -1 <= sparegrid3[k] < npaths
        invariant sparegrid[..] == Wiped(old(sparegrid[..]), lst, j, i)
        invariant WalkedTo(sg3, lst, j, w, i, pathspare, sparegrid3[..], first, last)
      {
        first, last := WipeStep(i, j, n, first, last, old(sparegrid[..]), sg3, path, end, e);
        j := j + 1;
      }
      SurvivorsPainted(sg3, lst, n, w, i, pathspare);
    }

    /** One turn of the wipe-and-surround loop, for square list[j]. */
    method WipeStep(i: int, j: int, n: int, first0: int, last0: int, ghost sg0: seq<int>, ghost sg30: seq<int>,
                    ghost path: int, ghost end: int, ghost e: int)
      returns (first: int, last: int)
      requires Pushing(path, end, e) == true && 0 <= i < npaths && pathspare[i] == 1
      requires 0 <= j < n <= w * h && forall t :: 0 <= t < n ==> 0 <= list[t] < w * h
      requires forall k :: 0 <= k < w * h ==> -1 <= sparegrid3[k] < npaths
      requires sparegrid[..] == Wiped(sg0, list[..], j, i)
      requires |sg30| == w * h && WalkedTo(sg30, list[..], j, w, i, pathspare, sparegrid3[..], first0, last0)
      modifies sparegrid, sparegrid3
      ensures Pushing(path, end, e) == true
      ensures forall k :: 0 <= k < w * h ==> -1 <= sparegrid3[k] < npaths
      ensures sparegrid[..] == Wiped(sg0, list[..], j + 1, i)
      ensures WalkedTo(sg30, list[..], j + 1, w, i, pathspare, sparegrid3[..], first, last)
    {
      first, last := first0, last0;
      var jp := list[j];
      WipedStep(sg0, list[..], j, i);
      WipeSquare(i, jp, path, end, e);
      if sparegrid3[jp] == i {
        if first < 0 {
          first := jp;
        }
        last := jp;
      } else {
        Surround(i, jp);
      }
    }

    /** Wipes square jp from the working grid if it carries path i, which is broken. */
    method WipeSquare(i: int, jp: int, ghost path: int, ghost end: int, ghost e: int)
      requires Pushing(path, end, e) && 0 <= i < npaths && pathspare[i] == 1 && 0 <= jp < w * h
      modifies sparegrid
      ensures Pushing(path, end, e)
      ensures sparegrid[..] == old(sparegrid[..])[jp := if old(sparegrid[jp]) == i then -1 else old(sparegrid[jp])]
    {
      if sparegrid[jp] == i {
        WipeKeeps(grid[..], pathends, npaths, sparegrid[..], sparepathends, pathspare, i, jp);
        sparegrid[jp] := -1;
      }
    }

    /**
     * The surround step: every square around c, on the grid, that is empty
     * or holds a path other than i that is not fixed, is given to path i in
     * sparegrid3.
     */
    method Surround(i: int, c: int)
      requires Valid() && 0 <= i < npaths && 0 <= c < w * h
      requires forall k :: 0 <= k < w * h ==> -1 <= sparegrid3[k] < npaths
      modifies sparegrid3
      ensures sparegrid3[..] == Surrounded(old(sparegrid3[..]), w, c, i, pathspare)
      ensures forall k :: 0 <= k < w * h ==> -1 <= sparegrid3[k] < npaths
      ensures forall k :: 0 <= k < w * h && old(sparegrid3[k]) == i ==> sparegrid3[k] == i
    {
      var cx := c % w;
      var cy := c / w;
      var dy := -1;
      while dy <= 1
        invariant -1 <= dy <= 2
        invariant SurroundedUpTo(sparegrid3[..], old(sparegrid3[..]), w, c, i, pathspare, dy, -1)
      {
        var dx := -1;
        while dx <= 1
          invariant -1 <= dx <= 2
          invariant SurroundedUpTo(sparegrid3[..], old(sparegrid3[..]), w, c, i, pathspare, dy, dx)
        {
          if !(dy == 0 && dx == 0) && 0 <= cx + dx < w && 0 <= cy + dy < h {
            SurroundStep(sparegrid3[..], old(sparegrid3[..]), w, h, c, i, pathspare, dy, dx);
            var newp := (cy + dy) * w + (cx + dx);
            var newv := sparegrid3[newp];
            if !(newv >= 0 && (newv == i || pathspare[newv] == 2)) {
              sparegrid3[newp] := i;
            }
          } else {
            SurroundSkip(sparegrid3[..], old(sparegrid3[..]), w, h, c, i, pathspare, dy, dx);
          }
          dx := dx + 1;
        }
        SurroundNextRow(sparegrid3[..], old(sparegrid3[..]), w, c, i, pathspare, dy);
        dy := dy + 1;
      }
      assert sparegrid3[..] == Surrounded(old(sparegrid3[..]), w, c, i, pathspare);
    }

    /**
     * Laying path i again: from last, walking back towards first along
     * squares one nearer first each time, every square is claimed for i.
     * Fails as soon as a square of a fixed path is met.
     */
    method WalkBack(i: int, first: int, last: int, n: int, ghost path: int, ghost end: int, ghost e: int) returns (ok: bool)
      requires Pushing(path, end, e) && 0 <= i < npaths && pathspare[i] == 1
      requires BfsResult(sparegrid3[..], w, h, first, dist[..], list[..], n)
      requires 0 <= last < w * h && dist[last] >= 0
      modifies this, sparegrid
      ensures Pushing(path, end, e) && Paths() == old(Paths()) && sparepathends == old(sparepathends)
      ensures pathspare[i] == 1 && Unfixed(pathspare, npaths) == old(Unfixed(pathspare, npaths))
      ensures ok ==> sparegrid[first] == i && sparegrid[last] == i
    {
      var jp := last;
      var j := dist[last];
      ok := Claim(i, jp, path, end, e);
      if !ok {
        return;
      }
      while j != 0
        invariant Pushing(path, end, e) == true && Paths() == old(Paths()) && sparepathends == old(sparepathends)
        invariant pathspare[i] == 1 && Unfixed(pathspare, npaths) == old(Unfixed(pathspare, npaths))
        invariant 0 <= jp < w * h && dist[jp] == j && j >= 0
        invariant sparegrid[jp] == i && sparegrid[last] == i
        decreases j
      {
        jp, ok := StepBack(i, jp, first, last, n, path, end, e);
        j := j - 1;
        if !ok {
          return;
        }
      }
      assert dist[..][jp] == 0;
    }

    /** One step of the walk back: to the square one nearer first, which is then claimed. */
    method StepBack(i: int, jp0: int, first: int, last: int, n: int, ghost path: int, ghost end: int, ghost e: int)
      returns (jp: int, ok: bool)
      requires Pushing(path, end, e) == true && 0 <= i < npaths && pathspare[i] == 1
      requires BfsResult(sparegrid3[..], w, h, first, dist[..], list[..], n)
      requires 0 <= jp0 < w * h && dist[jp0] > 0 && 0 <= last < w * h && sparegrid[last] == i
      modifies this, sparegrid
      ensures Pushing(path, end, e) == true && Paths() == old(Paths()) && sparepathends == old(sparepathends)
      ensures pathspare[i] == 1 && Unfixed(pathspare, npaths) == old(Unfixed(pathspare, npaths))
      ensures 0 <= jp < w * h && dist[jp] == dist[jp0] - 1
      ensures exists d :: 0 <= d < 4 && StepInGrid(jp0, d, w, h) && jp == Step(jp0, d, w)
      ensures ok <==> !(old(sparegrid[jp]) >= 0 && old(pathspare[sparegrid[jp]]) == 2)
      ensures ok ==> sparegrid[..] == old(sparegrid[..])[jp := i] && sparegrid[last] == i
      ensures !ok ==> sparegrid[..] == old(sparegrid[..])
    {
      assert HasParent(dist[..], w, h, jp0);
      var d := ParentDir(dist, jp0, w, h);
      jp := Step(jp0, d, w);
      ghost var g := sparegrid[..];
      ok := Claim(i, jp, path, end, e);
      if ok {
        assert sparegrid[..][last] == g[jp := i][last];
      }
    }

    /**
     * Claims square jp of the working grid for path i, unless it belongs to
     * a fixed path; a path that was there becomes broken.
     */
    method Claim(i: int, jp: int, ghost path: int, ghost end: int, ghost e: int) returns (ok: bool)
      requires Pushing(path, end, e) && 0 <= i < npaths && pathspare[i] == 1 && 0 <= jp < w * h
      modifies this, sparegrid
      ensures Pushing(path, end, e) && Paths() == old(Paths()) && sparepathends == old(sparepathends)
      ensures pathspare[i] == 1 && Unfixed(pathspare, npaths) == old(Unfixed(pathspare, npaths))
      ensures ok <==> !(old(sparegrid[jp]) >= 0 && old(pathspare[sparegrid[jp]]) == 2)
      ensures ok ==> (sparegrid[..] == old(sparegrid[..])[jp := i]
        && pathspare == if old(sparegrid[jp]) >= 0 then old(pathspare)[old(sparegrid[jp]) := 1] else old(pathspare))
      ensures !ok ==> sparegrid[..] == old(sparegrid[..]) && pathspare == old(pathspare)
    {
      var q := sparegrid[jp];
      if q >= 0 {
        if pathspare[q] == 2 {
          return false;
        }
        UnfixedUpdate(pathspare, npaths, q, 1);
      }
      ClaimKeeps(grid[..], pathends, npaths, sparegrid[..], sparepathends, pathspare, i, jp);
      if q >= 0 {
        pathspare := pathspare[q := 1];
      }
      sparegrid[jp] := i;
      ok := true;
    }

    /**
     * The first part of the extension step of gridgen_mainloop: the list of
     * all 8 * npaths possible extensions, 0, 1, ..., 8 * npaths - 1, in a
     * random order.  Draws from rng from draw on and returns the next unused
     * draw.
     */
    method ExtensionOrder(rng: nat -> nat, draw: nat) returns (next: nat)
      requires Valid()
      modifies this
      ensures Valid() && npaths == old(npaths) && pathsize == old(pathsize) && pathends == old(pathends)
      ensures sparepathends == old(sparepathends) && pathspare == old(pathspare)
      ensures multiset(extensions[..8 * npaths]) == multiset(seq(8 * npaths, q => 0 + q))
      ensures extensions[8 * npaths..] == old(extensions[8 * npaths..])
      ensures next == draw + (if 8 * npaths > 1 then 8 * npaths - 1 else 0)
    {
      var order;
      order, next := ShuffledRange(0, 8 * npaths, rng, draw);
      extensions := order + extensions[8 * npaths..];
      assert extensions[..8 * npaths] == order;
    }

    /**
     * The second part: tries the extensions in list order until one
     * succeeds.  Each failed attempt leaves grid and pathends as they were, so
     * when none succeeds nothing has changed.
     */
    method TryExtensions() returns (ok: bool)
      requires Valid() && EndsMarked()
      requires forall j :: 0 <= j < 8 * npaths ==> 0 <= extensions[j] < 8 * npaths
      modifies this, grid, sparegrid, sparegrid2, sparegrid3, dist, list
      ensures Valid() && EndsMarked()
      ensures npaths == old(npaths) && pathsize == old(pathsize) && extensions == old(extensions)
      ensures !ok ==> grid[..] == old(grid[..]) && pathends == old(pathends)
    {
      var n := 8 * npaths;
      var i := 0;
      ok := false;
      while i < n
        invariant 0 <= i <= n && n == 8 * npaths
        invariant Valid() && EndsMarked()
        invariant npaths == old(npaths) && pathsize == old(pathsize) && extensions == old(extensions)
        invariant grid[..] == old(grid[..]) && pathends == old(pathends)
      {
        var q := extensions[i];
        ExtensionOfPath(q, npaths);
        var d := q % 4;
        q := q / 4;
        var e := q % 2;
        q := q / 2;
        ok := ExtendPath(q, e, d);
        if ok {
          return;
        }
        i := i + 1;
      }
    }

    /**
     * The tail of gridgen: the path numbers are replaced by the labels
     * 1 .. npaths in a random order (kept in pathspare), the grid is
     * cleared to 0 and both ends of every path are written with its label.
     * Draws from rng from draw on and returns the next unused draw.
     */
    method LabelEndpoints(rng: nat -> nat, draw: nat) returns (next: nat)
      requires Valid() && EndsMarked()
      modifies this, grid
      ensures npaths == old(npaths) && pathends == old(pathends) && npaths <= |pathspare|
      ensures multiset(pathspare[..npaths]) == multiset(seq(npaths, p => 1 + p))
      ensures forall p, f :: 0 <= p < npaths && 0 <= f < 2 ==>
        0 <= End(pathends, p, f) < grid.Length && grid[End(pathends, p, f)] == pathspare[p]
      ensures forall k :: 0 <= k < grid.Length && grid[k] != 0 ==>
        exists p, f :: 0 <= p < npaths && 0 <= f < 2 && End(pathends, p, f) == k
      ensures next == draw + (if npaths > 1 then npaths - 1 else 0)
    {
      ghost var g0 := grid[..];
      var labels;
      labels, next := ShuffledRange(1, npaths, rng, draw);
      pathspare := labels + pathspare[npaths..];
      assert pathspare[..npaths] == labels;
      forall k | 0 <= k < w * h {
        grid[k] := 0;
      }
      var i := 0;
      while i < npaths
        modifies grid
        invariant 0 <= i <= npaths
        invariant forall k :: 0 <= k < w * h && grid[k] != 0 ==>
          exists p, f :: 0 <= p < i && 0 <= f < 2 && End(pathends, p, f) == k
        invariant forall p, f :: 0 <= p < i && 0 <= f < 2 ==> grid[End(pathends, p, f)] == pathspare[p]
      {
        LabelPath(g0, i);
        i := i + 1;
      }
    }

    /** Writes the label of path i at both its ends. */
    method LabelPath(ghost g0: seq<int>, i: int)
      requires 0 < w && grid.Length == w * h && 0 <= i < npaths && 2 * npaths <= |pathends| && npaths <= |pathspare|
      requires EndsOn(g0, pathends, npaths) && |g0| == w * h
      requires forall k :: 0 <= k < w * h && grid[k] != 0 ==>
        exists p, f :: 0 <= p < i && 0 <= f < 2 && End(pathends, p, f) == k
      requires forall p, f :: 0 <= p < i && 0 <= f < 2 ==> grid[End(pathends, p, f)] == pathspare[p]
      modifies grid
      ensures forall k :: 0 <= k < w * h && grid[k] != 0 ==>
        exists p, f :: 0 <= p < i + 1 && 0 <= f < 2 && End(pathends, p, f) == k
      ensures forall p, f :: 0 <= p < i + 1 && 0 <= f < 2 ==> grid[End(pathends, p, f)] == pathspare[p]
    {
      var a, b := End(pathends, i, 0), End(pathends, i, 1);
      grid[b] := pathspare[i];
      grid[a] := pathspare[i];
      forall p, f | 0 <= p < i && 0 <= f < 2
        ensures End(pathends, p, f) != a && End(pathends, p, f) != b
      {
        assert g0[End(pathends, p, f)] == p;
      }
    }

    /**
     * The first part of add_path: the empty squares are collected in
     * sparegrid, in increasing order, then shuffled.  Draws from rng from
     * draw on and returns the next unused draw.
     */
    method ShuffledEmpties(rng: nat -> nat, draw: nat) returns (n: int, next: nat)
      requires Valid()
      modifies sparegrid
      ensures 0 <= n <= w * h && multiset(sparegrid[..n]) == multiset(EmptySquares(grid[..], w * h))
      ensures next == draw + (if n > 1 then n - 1 else 0)
    {
      ghost var g := grid[..];
      n := 0;
      var i := 0;
      while i < w * h
        invariant 0 <= n <= i <= w * h && sparegrid[..n] == EmptySquares(g, i)
      {
        if grid[i] == -1 {
          sparegrid[n] := i;
          n := n + 1;
        }
        i := i + 1;
      }
      next := Shuffle(sparegrid, n, rng, draw);
      assert grid[..] == g;
    }

    /**
     * add_path: tries each empty square in random order as the start of a
     * new path, whose far end is a square of the start's empty region at
     * distance at least 3, and lays the path along a shortest route between
     * them.  A new path only takes empty squares; when no start works,
     * nothing changes.
     */
    method AddPath(rng: nat -> nat, draw: nat) returns (ok: bool, next: nat)
      requires Valid() && EndsMarked()
      modifies this, grid, sparegrid, dist, list
      ensures Valid() && EndsMarked() && pathsize >= old(pathsize) && extensions[..8 * old(pathsize)] == old(extensions)
      ensures !ok ==> grid[..] == old(grid[..]) && npaths == old(npaths) && pathends == old(pathends)
      ensures ok ==> npaths == old(npaths) + 1 && pathends[..2 * old(npaths)] == old(pathends[..2 * npaths])
      ensures ok ==> Grown(old(grid[..]), grid[..], npaths - 1)
      ensures ok ==> (var e := End(pathends, npaths - 1, 0); old(grid[e]) == -1 && dist[End(pathends, npaths - 1, 1)] >= 3)
    {
      var n;
      n, next := ShuffledEmpties(rng, draw);
      ShuffledEmptiesAreEmpty(grid[..], sparegrid[..n], w * h);
      assert forall t :: 0 <= t < n ==> sparegrid[t] == sparegrid[..n][t];
      ok, next := TryStarts(n, rng, next);
    }

    /** The loop of add_path over the shuffled empty squares sparegrid[0 .. n). */
    method TryStarts(n: int, rng: nat -> nat, draw: nat) returns (ok: bool, next: nat)
      requires Valid() && EndsMarked() && 0 <= n <= w * h
      requires forall t :: 0 <= t < n ==> 0 <= sparegrid[t] < w * h && grid[sparegrid[t]] == -1
      modifies this, grid, dist, list
      ensures Valid() && EndsMarked() && pathsize >= old(pathsize) && extensions[..8 * old(pathsize)] == old(extensions)
      ensures !ok ==> grid[..] == old(grid[..]) && npaths == old(npaths) && pathends == old(pathends)
      ensures ok ==> npaths == old(npaths) + 1 && pathends[..2 * old(npaths)] == old(pathends[..2 * npaths])
      ensures ok ==> Grown(old(grid[..]), grid[..], npaths - 1)
      ensures ok ==> (var e := End(pathends, npaths - 1, 0); old(grid[e]) == -1 && dist[End(pathends, npaths - 1, 1)] >= 3)
    {
      next := draw;
      var ii := 0;
      while ii < n
        invariant 0 <= ii <= n
        invariant Valid() && EndsMarked() && grid[..] == old(grid[..])
        invariant npaths == old(npaths) && pathsize == old(pathsize) && pathends == old(pathends) && extensions == old(extensions)
      {
        var i := sparegrid[ii];
        IdxOfLocOf(i, w, h);
        var nsq := Bfs(w, h, grid, i % w, i / w, dist, list);
        if dist[list[nsq - 1]] >= 3 {
          var r;
          r, next := ChooseEnd(dist, list, nsq, rng, next);
          next := StartPath(i, list[r], nsq, rng, next);
          return true, next;
        }
        ii := ii + 1;
      }
      ok := false;
    }

    /**
     * The end of add_path: a new path from the empty square i to square j of
     * its flood, laid along a shortest route.
     */
    method StartPath(i: int, j: int, ghost nsq: int, rng: nat -> nat, draw: nat) returns (next: nat)
      requires Valid() && EndsMarked() && 0 <= i < w * h && grid[i] == -1
      requires BfsResult(grid[..], w, h, i, dist[..], list[..], nsq) && 0 <= j < w * h && dist[j] >= 3
      modifies this, grid
      ensures Valid() && EndsMarked() && npaths == old(npaths) + 1
      ensures pathsize >= old(pathsize) && extensions[..8 * old(pathsize)] == old(extensions)
      ensures End(pathends, npaths - 1, 0) == i && End(pathends, npaths - 1, 1) == j
      ensures pathends[..2 * old(npaths)] == old(pathends[..2 * npaths])
      ensures Grown(old(grid[..]), grid[..], npaths - 1)
    {
      ghost var g0 := grid[..];
      ghost var ends0 := pathends;
      var c := OpenPath(i, j);
      next := LayNewPath(grid, dist, list[..], w, h, c, i, j, nsq, ends0, pathends, rng, draw);
      assert forall k :: 0 <= k < w * h ==> grid[k] == grid[..][k];
    }

    /** newpath followed by the recording of the two ends of the new path. */
    method OpenPath(i: int, j: int) returns (c: int)
      requires Valid()
      modifies this
      ensures Valid() && c == old(npaths) && npaths == c + 1
      ensures pathsize >= old(pathsize) && extensions[..8 * old(pathsize)] == old(extensions)
      ensures pathends[..2 * c] == old(pathends[..2 * c])
      ensures pathends[2 * c] == i && pathends[2 * c + 1] == j
    {
      ghost var ends0 := pathends;
      c := NewPath();
      assert pathends[..2 * c] == ends0[..2 * c];
      pathends := pathends[2 * c := i][2 * c + 1 := j];
      assert pathends[..2 * c] == ends0[..2 * c];
    }

    /** The start of each attempt of gridgen_mainloop: an empty grid with no paths. */
    method Clear()
      requires Valid()
      modifies this, grid
      ensures Valid() && EndsMarked() && npaths == 0 && pathsize == old(pathsize)
      ensures forall k :: 0 <= k < w * h ==> grid[k] == -1
    {
      npaths := 0;
      var i := 0;
      while i < w * h
        modifies grid
        invariant 0 <= i <= w * h && forall k :: 0 <= k < i ==> grid[k] == -1
      {
        grid[i] := -1;
        i := i + 1;
      }
    }

    /** The test of gridgen_mainloop for a finished grid: no square is empty. */
    method IsFull() returns (full: bool)
      requires Valid()
      ensures full <==> forall k :: 0 <= k < w * h ==> grid[k] >= 0
    {
      var i := 0;
      while i < w * h
        invariant 0 <= i <= w * h && forall k :: 0 <= k < i ==> grid[k] >= 0
      {
        if grid[i] < 0 {
          return false;
        }
        i := i + 1;
      }
      full := true;
    }

    /**
     * One pass of the inner loop of gridgen_mainloop: stop when the grid is
     * full, else add a path, else extend one of the 8 * npaths (path, end,
     * direction) choices taken in a random order; Stuck when none works.
     */
    method Grow(rng: nat -> nat, draw: nat) returns (g: Growth, next: nat)
      requires Valid() && EndsMarked()
      modifies this, grid, sparegrid, sparegrid2, sparegrid3, dist, list
      ensures Valid() && EndsMarked()
      ensures g == Full <==> old(forall k :: 0 <= k < w * h ==> grid[k] >= 0)
      ensures g == Full || g == Stuck ==> grid[..] == old(grid[..]) && npaths == old(npaths) && pathends == old(pathends)
      ensures g == Added ==> npaths == old(npaths) + 1
      ensures g == Extended ==> npaths == old(npaths)
    {
      next := draw;
      var full := IsFull();
      if full {
        return Full, next;
      }
      var ok;
      ok, next := AddPath(rng, next);
      if ok {
        return Added, next;
      }
      next := ExtensionOrder(rng, next);
      Arrangement(extensions[..8 * npaths], 0, 8 * npaths);
      assert forall j :: 0 <= j < 8 * npaths ==> extensions[j] == extensions[..8 * npaths][j];
      ok := TryExtensions();
      g := if ok then Extended else Stuck;
    }

    /**
     * gridgen_mainloop: grow paths until the grid is full, starting again
     * from an empty grid whenever growth is stuck.  The source loops until
     * it succeeds; here at most fuel passes are made.
     */
    method MainLoop(rng: nat -> nat, draw: nat, fuel: nat) returns (full: bool, next: nat)
      requires Valid()
      modifies this, grid, sparegrid, sparegrid2, sparegrid3, dist, list
      ensures Valid() && EndsMarked()
      ensures full ==> forall k :: 0 <= k < w * h ==> grid[k] >= 0
    {
      Clear();
      next := draw;
      var left := fuel;
      while left > 0
        invariant Valid() && EndsMarked()
      {
        var g;
        g, next := Grow(rng, next);
        if g == Full {
          return true, next;
        }
        if g == Stuck {
          Clear();
        }
        left := left - 1;
      }
      full := false;
    }
  }

  /**
   * gridgen: a full w x h grid of paths whose numbers are then shuffled into
   * the labels 1 .. n; the result keeps only the two ends of each path,
   * carrying its label, and 0 everywhere else.  ends holds the two end
   * squares of each path.  Not full when fuel passes did not fill the grid.
   */
  method GridGen(w: int, h: int, rng: nat -> nat, draw: nat, fuel: nat) returns (full: bool, ret: seq<int>, ends: seq<int>, n: int, next: nat)
    requires 0 < w && 0 < h
    ensures full ==> |ret| == w * h && 0 <= n && 2 * n <= |ends|
    ensures full ==> forall p :: 0 <= p < n ==>
      (forall f :: 0 <= f < 2 ==> 0 <= End(ends, p, f) < |ret| && 1 <= ret[End(ends, p, f)] <= n)
      && ret[End(ends, p, 0)] == ret[End(ends, p, 1)]
    ensures full ==> forall p, q :: 0 <= p < q < n ==> ret[End(ends, p, 0)] != ret[End(ends, q, 0)]
    ensures full ==> forall k :: 0 <= k < |ret| && ret[k] != 0 ==> exists p, f :: 0 <= p < n && 0 <= f < 2 && End(ends, p, f) == k
  {
    var ctx := new GenCtx(w, h);
    full, next := ctx.MainLoop(rng, draw, fuel);
    ret, ends, n := [], [], 0;
    if full {
      next := ctx.LabelEndpoints(rng, next);
      Arrangement(ctx.pathspare[..ctx.npaths], 1, ctx.npaths);
      assert forall p :: 0 <= p < ctx.npaths ==> ctx.pathspare[p] == ctx.pathspare[..ctx.npaths][p];
      ret, ends, n := ctx.grid[..], ctx.pathends, ctx.npaths;
    }
  }
}
