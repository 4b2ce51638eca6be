/** Tile arrangements: the contents of the `pieces` vector of class Puzzle,
    read in row-major order, with 0 standing for the blank. */
module Tiles {

  /** The ascending values lo, lo + 1, ..., hi - 1. */
  function Range(lo: int, hi: int): (r: seq<int>)
    ensures |r| == if lo <= hi then hi - lo else 0
    ensures forall k :: 0 <= k < |r| ==> r[k] == lo + k
    decreases hi - lo
  {
    if lo >= hi then [] else [lo] + Range(lo + 1, hi)
  }

  /** Each value of [lo, hi) occurs in Range(lo, hi) exactly once, and no other value occurs. */
  lemma {:induction false} RangeCount(lo: int, hi: int, x: int)
    ensures multiset(Range(lo, hi))[x] == if lo <= x < hi then 1 else 0
    decreases hi - lo
  {
    if lo < hi {
      RangeCount(lo + 1, hi, x);
      assert Range(lo, hi) == [lo] + Range(lo + 1, hi);
    }
  }

  /** The values 0 .. n - 1 are the blank together with the tiles 1 .. n - 1. */
  lemma RangeFromZero(n: int)
    requires n >= 1
    ensures multiset(Range(0, n)) == multiset{0} + multiset(Range(1, n))
  {
    assert Range(0, n) == [0] + Range(1, n);
  }

  /** `s` is an arrangement of the values 0 .. n - 1: the board invariant on `pieces`. */
  predicate IsPermutation(s: seq<int>, n: int) {
    multiset(s) == multiset(Range(0, n))
  }

  /** An arrangement of 0 .. n - 1 has n cells. */
  lemma PermutationLength(s: seq<int>, n: int)
    requires IsPermutation(s, n)
    ensures |s| == if n >= 0 then n else 0
  {
    assert |s| == |multiset(s)| == |multiset(Range(0, n))| == |Range(0, n)|;
  }

  /** No value occurs twice in an arrangement of 0 .. n - 1. */
  lemma PermutationDistinct(s: seq<int>, n: int, i: int, j: int)
    requires IsPermutation(s, n) && 0 <= i < j < |s|
    ensures s[i] != s[j]
  {
    if s[i] == s[j] {
      assert s == s[..i] + [s[i]] + s[i + 1..j] + [s[j]] + s[j + 1..];
      assert multiset(s)[s[i]] >= 2;
      RangeCount(0, n, s[i]);
    }
  }

  /** Exchange the values in cells i and j (`std::swap` on two vector elements). */
  function Swap(s: seq<int>, i: int, j: int): (r: seq<int>)
    requires 0 <= i < |s| && 0 <= j < |s|
    ensures |r| == |s| && multiset(r) == multiset(s)
    ensures r[i] == s[j] && r[j] == s[i]
    ensures forall k :: 0 <= k < |s| && k != i && k != j ==> r[k] == s[k]
  {
    s[i := s[j]][j := s[i]]
  }

  /** The solved arrangement of an n-cell board: 1, 2, ..., n - 1 and then the blank. */
  function Solved(n: int): seq<int>
    requires n >= 1
  {
    Range(1, n) + [0]
  }

  /** The completion test of puzzle.cc: every cell but the last holds its index plus one. */
  predicate InOrder(s: seq<int>) {
    forall i :: 0 <= i < |s| - 1 ==> s[i] == i + 1
  }

  /** The solved arrangement is itself an arrangement of 0 .. n - 1. */
  lemma SolvedIsPermutation(n: int)
    requires n >= 1
    ensures IsPermutation(Solved(n), n)
    ensures |Solved(n)| == n && Solved(n)[n - 1] == 0
  {
    assert Range(0, n) == [0] + Range(1, n);
  }

  /** On an arrangement of 0 .. n - 1 the completion test holds exactly for
      the solved arrangement: the last cell needs no test, because the only
      value left for it is the blank. */
  lemma CompleteIffSolved(s: seq<int>, n: int)
    requires n >= 1 && IsPermutation(s, n)
    ensures InOrder(s) <==> s == Solved(n)
  {
    PermutationLength(s, n);
    if InOrder(s) {
      assert s[..n - 1] == Range(1, n);
      assert s == Range(1, n) + [s[n - 1]];
      assert multiset(s) == multiset(Range(1, n)) + multiset{s[n - 1]};
      RangeCount(0, n, 0);
      RangeCount(1, n, 0);
      assert multiset{s[n - 1]}[0] == 1;
    }
  }

  /** Exchanging any two cells of the solved arrangement fails the completion test. */
  lemma TranspositionNotComplete(n: int, i: int, j: int)
    requires 0 <= i < j < n
    ensures !InOrder(Swap(Solved(n), i, j))
  {
    var s := Swap(Solved(n), i, j);
    assert i < |s| - 1 && s[i] != i + 1;
  }
}
