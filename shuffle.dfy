/**
  The Fisher-Yates shuffle of `shuffle` in jeopardy.js. `Math.floor(Math.random() * (i + 1))`
  is replaced by an oracle: `draws[i]` is the index the loop swaps with at step `i`.
 */
module Shuffle {
  import opened Seqs

  /** Each draw lies in the range the random expression can produce at its step: `0 <= draws[i] <= i`. */
  predicate ValidDraws(draws: seq<nat>, n: nat)
  {
    |draws| == n && forall i :: 0 <= i < n ==> draws[i] <= i
  }

  /** `[s[i], s[j]] = [s[j], s[i]]` on a sequence. */
  function Swap<T>(s: seq<T>, i: nat, j: nat): (r: seq<T>)
    requires i < |s| && j < |s|
    ensures |r| == |s|
    ensures r[i] == s[j] && r[j] == s[i]
    ensures forall k :: 0 <= k < |s| && k != i && k != j ==> r[k] == s[k]
  {
    s[i := s[j]][j := s[i]]
  }

  lemma SwapPermutes<T>(s: seq<T>, i: nat, j: nat)
    requires i < |s| && j < |s|
    ensures multiset(Swap(s, i, j)) == multiset(s)
  {
  }

  /** The steps `i`, `i - 1`, ..., `1` of the shuffle loop, applied to `s`. */
  function ShuffleDown<T>(s: seq<T>, draws: seq<nat>, i: int): (r: seq<T>)
    requires ValidDraws(draws, |s|) && i < |s|
    ensures |r| == |s|
    ensures forall k :: 0 <= k < |s| && i < k ==> r[k] == s[k]
    ensures 0 < i ==> r[i] == s[draws[i]]
    decreases i
  {
    if i <= 0 then s
    else ShuffleDown(Swap(s, i, draws[i]), draws, i - 1)
  }

  /** The whole shuffle: the loop runs from the last index down to 1. */
  function Shuffled<T>(s: seq<T>, draws: seq<nat>): (r: seq<T>)
    requires ValidDraws(draws, |s|)
    ensures |r| == |s| && (1 < |s| ==> r[|s| - 1] == s[draws[|s| - 1]])
  {
    ShuffleDown(s, draws, |s| - 1)
  }

  lemma {:induction false} ShuffleDownPermutes<T>(s: seq<T>, draws: seq<nat>, i: int)
    requires ValidDraws(draws, |s|) && i < |s|
    ensures |ShuffleDown(s, draws, i)| == |s|
    ensures multiset(ShuffleDown(s, draws, i)) == multiset(s)
    decreases i
  {
    if i > 0 {
      SwapPermutes(s, i, draws[i]);
      ShuffleDownPermutes(Swap(s, i, draws[i]), draws, i - 1);
    }
  }

  /** For every admissible sequence of draws, the result is a permutation of the input. */
  lemma ShuffledPermutes<T>(s: seq<T>, draws: seq<nat>)
    requires ValidDraws(draws, |s|)
    ensures |Shuffled(s, draws)| == |s|
    ensures multiset(Shuffled(s, draws)) == multiset(s)
  {
    ShuffleDownPermutes(s, draws, |s| - 1);
  }

  /**
    The first `n` elements of a shuffle, the `slice(0, n)` after `shuffle`:
    no element is taken more often than it occurs in the input.
   */
  lemma ShuffledPrefix<T>(s: seq<T>, draws: seq<nat>, n: nat)
    requires ValidDraws(draws, |s|) && n <= |s|
    ensures multiset(Shuffled(s, draws)[..n]) <= multiset(s)
    ensures forall k :: 0 <= k < n ==> Shuffled(s, draws)[k] in s
  {
    var t := Shuffled(s, draws);
    ShuffledPermutes(s, draws);
    assert t == t[..n] + t[n..];
    assert multiset(t) == multiset(t[..n]) + multiset(t[n..]);
    forall k | 0 <= k < n ensures t[k] in s {
      assert t[k] in multiset(t);
    }
  }

  /** The first `n` elements of a shuffle keep keys pairwise distinct. */
  lemma ShuffledPrefixKeepsDistinctBy<T, K>(s: seq<T>, draws: seq<nat>, n: nat, key: T -> K)
    requires ValidDraws(draws, |s|) && n <= |s| && DistinctBy(s, key)
    ensures DistinctBy(Shuffled(s, draws)[..n], key)
  {
    ShuffledKeepsDistinctBy(s, draws, key);
    var t := Shuffled(s, draws);
    forall a, b | 0 <= a < b < n ensures key(t[..n][a]) != key(t[..n][b]) {
      assert t[..n][a] == t[a] && t[..n][b] == t[b];
    }
  }

  lemma SwapKeepsDistinctBy<T, K>(s: seq<T>, i: nat, j: nat, key: T -> K)
    requires i < |s| && j < |s| && DistinctBy(s, key)
    ensures DistinctBy(Swap(s, i, j), key)
  {
    var r := Swap(s, i, j);
    forall a, b | 0 <= a < b < |r| ensures key(r[a]) != key(r[b]) {
      var a' := if a == i then j else if a == j then i else a;
      var b' := if b == i then j else if b == j then i else b;
      assert r[a] == s[a'] && r[b] == s[b'] && a' != b';
      if a' > b' {
        assert key(s[b']) != key(s[a']);
      }
    }
  }

  lemma {:induction false} ShuffleDownKeepsDistinctBy<T, K>(s: seq<T>, draws: seq<nat>, i: int, key: T -> K)
    requires ValidDraws(draws, |s|) && i < |s| && DistinctBy(s, key)
    ensures DistinctBy(ShuffleDown(s, draws, i), key)
    decreases i
  {
    if i > 0 {
      var t := Swap(s, i, draws[i]);
      SwapKeepsDistinctBy(s, i, draws[i], key);
      assert |t| == |s| && DistinctBy(t, key);
      ShuffleDownKeepsDistinctBy(t, draws, i - 1, key);
      assert ShuffleDown(s, draws, i) == ShuffleDown(t, draws, i - 1);
    }
  }

  /** Shuffling never makes two elements share a key that no two shared before. */
  lemma ShuffledKeepsDistinctBy<T, K>(s: seq<T>, draws: seq<nat>, key: T -> K)
    requires ValidDraws(draws, |s|) && DistinctBy(s, key)
    ensures DistinctBy(Shuffled(s, draws), key)
  {
    ShuffleDownKeepsDistinctBy(s, draws, |s| - 1, key);
  }

  /**
    `shuffle(array)`: swaps in place, from the last index down to 1, and returns
    the same array object.
   */
  method Shuffle<T>(a: array<T>, draws: seq<nat>) returns (r: array<T>)
    requires ValidDraws(draws, a.Length)
    modifies a
    ensures r == a
    ensures a[..] == Shuffled(old(a[..]), draws)
    ensures multiset(a[..]) == multiset(old(a[..]))
  {
    var i := a.Length - 1;
    while i > 0
      invariant -1 <= i < a.Length
      invariant ShuffleDown(a[..], draws, i) == Shuffled(old(a[..]), draws)
      decreases i
    {
      var j := draws[i];
      ghost var before := a[..];
      var t := a[i];
      a[i] := a[j];
      a[j] := t;
      assert a[..] == Swap(before, i, j);
      i := i - 1;
    }
    ShuffledPermutes(old(a[..]), draws);
    r := a;
  }
}
