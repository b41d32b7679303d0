/**
 * The random source of the puzzle collection (random_upto) is outside this
 * model.  A run is described by an arbitrary stream `rng` of natural numbers;
 * the draw-th call random_upto(rs, n) yields rng(draw) reduced into [0, n).
 * Every sequence of results that random_upto can produce is described by
 * some stream.
 */
module Randomness {

  function RandomUpto(rng: nat -> nat, draw: nat, n: nat): (r: nat)
    requires n > 0
    ensures r < n
  {
    rng(draw) % n
  }

  /**
   * The Fisher-Yates shuffle of the first n entries of a, as written out in
   * unfinished/path.c (and used for the library's shuffle): for i from n - 1
   * down to 1, swap entry i with entry random_upto(i + 1). Draws n - 1
   * numbers starting at draw and returns the next unused draw.
   */
  method Shuffle(a: array<int>, n: int, rng: nat -> nat, draw: nat) returns (next: nat)
    requires 0 <= n <= a.Length
    modifies a
    ensures multiset(a[..n]) == multiset(old(a[..n])) && a[n..] == old(a[n..])
    ensures next == draw + (if n > 1 then n - 1 else 0)
  {
    next := draw;
    var i := n;
    while i > 1
      invariant 0 <= i <= n && (n > 0 ==> i >= 1)
      invariant multiset(a[..n]) == multiset(old(a[..n])) && a[n..] == old(a[n..])
      invariant next == draw + (n - i)
    {
      i := i - 1;
      var k := RandomUpto(rng, next, i + 1);
      next := next + 1;
      if k != i {
        ghost var before := a[..];
        a[i], a[k] := a[k], a[i];
        assert a[..] == before[k := before[i]][i := before[k]];
        SwapKeepsMultiset(before, k, i, n);
      }
    }
  }

  /** Exchanging two entries below n keeps the multiset of the first n. */
  lemma SwapKeepsMultiset(s: seq<int>, k: int, i: int, n: int)
    requires 0 <= k < n && 0 <= i < n && n <= |s|
    ensures multiset(s[k := s[i]][i := s[k]][..n]) == multiset(s[..n])
    ensures s[k := s[i]][i := s[k]][n..] == s[n..]
  {
    var t := s[k := s[i]][i := s[k]];
    assert t[..n] == s[..n][k := s[i]][i := s[k]];
  }
}
