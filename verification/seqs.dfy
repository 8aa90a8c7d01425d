/** Sequence vocabulary shared by the key ordering and the walker: first index of
    an element, distinctness, duplicate counting and index permutations. */
module Seqs {

  /** The first position of `x` in `s`. */
  function IndexOf<T(==)>(s: seq<T>, x: T): (r: int)
    requires x in s
    ensures 0 <= r < |s| && s[r] == x
    ensures forall j :: 0 <= j < r ==> s[j] != x
  {
    if s[0] == x then 0 else 1 + IndexOf(s[1..], x)
  }

  predicate Distinct<T(==)>(s: seq<T>)
  {
    forall i, j :: 0 <= i < j < |s| ==> s[i] != s[j]
  }

  /** Appending keeps the first position of an element already present. */
  lemma IndexOfAppend<T>(s: seq<T>, y: T, x: T)
    requires x in s
    ensures x in s + [y] && IndexOf(s + [y], x) == IndexOf(s, x)
  {
    assert (s + [y])[IndexOf(s, x)] == x;
  }

  /** Two positions holding the same element make it occur at least twice. */
  lemma CountTwo<T>(s: seq<T>, i: int, j: int)
    requires 0 <= i < |s| && 0 <= j < |s| && i != j && s[i] == s[j]
    ensures multiset(s)[s[i]] >= 2
  {
    var lo, hi := if i < j then i else j, if i < j then j else i;
    assert s == s[..lo] + [s[lo]] + s[lo + 1..hi] + [s[hi]] + s[hi + 1..];
    assert multiset(s) == multiset(s[..lo]) + multiset{s[lo]} + multiset(s[lo + 1..hi])
                          + multiset{s[hi]} + multiset(s[hi + 1..]);
  }

  /** An element occurring at least twice occurs at some other position too. */
  lemma CountTwoWitness<T>(s: seq<T>, i: int) returns (j: int)
    requires 0 <= i < |s| && multiset(s)[s[i]] >= 2
    ensures 0 <= j < |s| && j != i && s[j] == s[i]
  {
    assert s == s[..i] + [s[i]] + s[i + 1..];
    assert multiset(s) == multiset(s[..i]) + multiset{s[i]} + multiset(s[i + 1..]);
    if s[i] in s[..i] {
      j := IndexOf(s[..i], s[i]);
    } else {
      assert s[i] in multiset(s[i + 1..]);
      j := i + 1 + IndexOf(s[i + 1..], s[i]);
    }
  }

  /** No element of a sequence without repetitions occurs twice. */
  lemma {:induction false} DistinctCounts<T>(s: seq<T>)
    requires Distinct(s)
    ensures forall x :: multiset(s)[x] <= 1
  {
    if s != [] {
      assert Distinct(s[1..]) by {
        forall i, j | 0 <= i < j < |s[1..]| ensures s[1..][i] != s[1..][j] {
          assert s[1..][i] == s[i + 1] && s[1..][j] == s[j + 1];
        }
      }
      DistinctCounts(s[1..]);
      assert s == [s[0]] + s[1..];
      assert s[0] !in s[1..];
      assert multiset(s) == multiset{s[0]} + multiset(s[1..]);
    }
  }

  /** A sequence in which every element occurs at most once has no repetitions. */
  lemma CountsDistinct<T>(s: seq<T>)
    requires forall x :: multiset(s)[x] <= 1
    ensures Distinct(s)
  {
    forall i, j | 0 <= i < j < |s| ensures s[i] != s[j] {
      if s[i] == s[j] {
        CountTwo(s, i, j);
      }
    }
  }

  /** `pi` lists every index of `0..n-1` exactly once. */
  predicate IsPermutation(pi: seq<int>, n: nat)
  {
    && |pi| == n
    && (forall i :: 0 <= i < n ==> 0 <= pi[i] < n)
    && (forall i, j :: 0 <= i < j < n ==> pi[i] != pi[j])
    && (forall k :: 0 <= k < n ==> k in pi)
  }

  /** `s` rearranged so that position `i` holds `s[pi[i]]`. */
  function Permute<T>(s: seq<T>, pi: seq<int>): (r: seq<T>)
    requires IsPermutation(pi, |s|)
    ensures |r| == |s|
    ensures forall i :: 0 <= i < |s| ==> r[i] == s[pi[i]]
  {
    seq(|s|, i requires 0 <= i < |s| => s[pi[i]])
  }

  /** Rearranging a sequence keeps its elements. */
  lemma PermuteElements<T>(s: seq<T>, pi: seq<int>)
    requires IsPermutation(pi, |s|)
    ensures forall x :: x in Permute(s, pi) <==> x in s
  {
    var r := Permute(s, pi);
    forall x | x in s ensures x in r {
      var k := IndexOf(s, x);
      var i := IndexOf(pi, k);
      assert r[i] == x;
    }
  }
}
