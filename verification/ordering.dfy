/** Canonical ordering of map keys (`sortValues` in hashstructure.go).

    Every key is given a digest: the CRC-64 of its encoding. Keys that share a
    digest with another key ("colliding" keys) are re-digested with FNV-64. If a
    fallback digest equals a digest already recorded, the ordering fails; else the
    keys are visited in ascending order of their final digests.

    Keys enter here as their encodings, because the digest of a key is the hash
    of the bytes the walker writes for it (`Hash(key)` in the source).
    `CanonicalOrder` is the declarative reference; `SortValues` follows the
    source loop by loop and is proved to compute it. */
module Ordering {
  import opened Bytes
  import opened Results
  import opened Seqs

  /** A 64-bit hash function over a byte stream. */
  type Digest = seq<byte> -> u64

  /** The two hash functions the library hard-codes: CRC-64 with the ECMA table
      (the default hasher and the primary key digest) and FNV-64 (the fallback
      key digest). Their algorithms are not modelled: every property below holds
      for any pair of functions. */
  datatype Hashers = Hashers(crc64: Digest, fnv64: Digest)

  // ---------------------------------------------------------------------------
  // uint64Slice: ascending sort of digests

  predicate Ascending(xs: seq<u64>)
  {
    forall i, j :: 0 <= i < j < |xs| ==> xs[i] <= xs[j]
  }

  predicate StrictlyAscending(xs: seq<u64>)
  {
    forall i, j :: 0 <= i < j < |xs| ==> xs[i] < xs[j]
  }

  function Insert(x: u64, xs: seq<u64>): (r: seq<u64>)
    requires Ascending(xs)
    ensures Ascending(r)
    ensures multiset(r) == multiset(xs) + multiset{x}
  {
    if xs == [] || x <= xs[0] then
      AscendingCons(x, xs);
      [x] + xs
    else
      AscendingTail(xs);
      var rest := Insert(x, xs[1..]);
      LowerBound(xs[0], x, xs[1..], rest);
      AscendingCons(xs[0], rest);
      assert xs == [xs[0]] + xs[1..];
      [xs[0]] + rest
  }

  /** A lower bound of an ascending sequence can be put in front of it. */
  lemma AscendingCons(lo: u64, xs: seq<u64>)
    requires Ascending(xs)
    requires forall k :: 0 <= k < |xs| ==> lo <= xs[k]
    ensures Ascending([lo] + xs)
  {
    var r := [lo] + xs;
    forall i, j | 0 <= i < j < |r| ensures r[i] <= r[j] {
      assert r[j] == xs[j - 1];
      if i > 0 {
        assert r[i] == xs[i - 1];
      }
    }
  }

  lemma AscendingTail(xs: seq<u64>)
    requires Ascending(xs) && xs != []
    ensures Ascending(xs[1..])
    ensures forall k :: 0 <= k < |xs[1..]| ==> xs[0] <= xs[1..][k]
  {
    forall i, j | 0 <= i < j < |xs[1..]| ensures xs[1..][i] <= xs[1..][j] {
      assert xs[1..][i] == xs[i + 1] && xs[1..][j] == xs[j + 1];
    }
    forall k | 0 <= k < |xs[1..]| ensures xs[0] <= xs[1..][k] {
      assert xs[1..][k] == xs[k + 1];
    }
  }

  /** A lower bound of a sequence and of `x` bounds any rearrangement of both. */
  lemma LowerBound(lo: u64, x: u64, tail: seq<u64>, rest: seq<u64>)
    requires lo <= x && forall k :: 0 <= k < |tail| ==> lo <= tail[k]
    requires multiset(rest) == multiset(tail) + multiset{x}
    ensures forall k :: 0 <= k < |rest| ==> lo <= rest[k]
  {
    forall k | 0 <= k < |rest| ensures lo <= rest[k] {
      assert rest[k] in multiset(rest);
      if rest[k] != x {
        assert rest[k] in multiset(tail);
        var t := IndexOf(tail, rest[k]);
      }
    }
  }

  /** `sort.Sort(uint64Slice(ks))`: the digests in ascending order. */
  function Sort(xs: seq<u64>): (r: seq<u64>)
    ensures Ascending(r)
    ensures multiset(r) == multiset(xs)
  {
    if xs == [] then []
    else
      assert xs == [xs[0]] + xs[1..];
      Insert(xs[0], Sort(xs[1..]))
  }

  /** Sorting digests that are pairwise distinct puts them in strictly
      ascending order, keeping exactly the same digests. */
  lemma SortDistinct(xs: seq<u64>)
    requires Distinct(xs)
    ensures StrictlyAscending(Sort(xs)) && Distinct(Sort(xs))
    ensures |Sort(xs)| == |xs|
    ensures forall x :: x in Sort(xs) <==> x in xs
  {
    var r := Sort(xs);
    assert |r| == |multiset(r)| == |multiset(xs)| == |xs|;
    DistinctCounts(xs);
    CountsDistinct(r);
    forall x ensures x in r <==> x in xs {
      assert x in r <==> x in multiset(r);
    }
  }

  /** Two strictly ascending sequences holding the same elements are equal:
      an ascending order of distinct digests is unique. */
  lemma {:induction false} AscendingUnique(a: seq<u64>, b: seq<u64>)
    requires StrictlyAscending(a) && StrictlyAscending(b)
    requires forall x :: x in a <==> x in b
    ensures a == b
    decreases |a|
  {
    assert b != [] ==> b[0] in b;
    if a != [] {
      assert a[0] in b;
      assert b != [];
      assert b[0] in a;
      assert a[0] == b[0];
      forall x ensures x in a[1..] <==> x in b[1..] {
        assert x in a[1..] <==> x in a && x != a[0];
        assert x in b[1..] <==> x in b && x != b[0];
      }
      AscendingUnique(a[1..], b[1..]);
      assert a == [a[0]] + a[1..] && b == [b[0]] + b[1..];
    }
  }

  // ---------------------------------------------------------------------------
  // Digests and collisions

  /** The digest of every key under one hash function. */
  function DigestAll(keys: seq<seq<byte>>, d: Digest): (ks: seq<u64>)
    ensures |ks| == |keys|
    ensures forall i :: 0 <= i < |keys| ==> ks[i] == d(keys[i])
  {
    seq(|keys|, i requires 0 <= i < |keys| => d(keys[i]))
  }

  /** Key `i` shares its digest with some other key. */
  predicate Colliding(ks: seq<u64>, i: int)
    requires 0 <= i < |ks|
  {
    multiset(ks)[ks[i]] >= 2
  }

  /** The collision list of the source, in the order it is built: scanning the
      digests left to right, the first repetition of a digest records the key
      that first had it followed by the repeating key, and every later
      repetition records just the repeating key. */
  function Collisions(ks: seq<u64>): (cl: seq<int>)
    ensures forall p :: 0 <= p < |cl| ==> 0 <= cl[p] < |ks|
    decreases |ks|
  {
    if ks == [] then []
    else
      var n := |ks| - 1;
      CollisionsStep(Collisions(ks[..n]), ks[..n], ks[n])
  }

  /** What scanning one more digest `x` after `seen` adds to the collision list. */
  function CollisionsStep(prev: seq<int>, seen: seq<u64>, x: u64): (cl: seq<int>)
    requires forall p :: 0 <= p < |prev| ==> 0 <= prev[p] < |seen|
    ensures forall p :: 0 <= p < |cl| ==> 0 <= cl[p] < |seen| + 1
  {
    if x !in seen then prev
    else if multiset(seen)[x] == 1 then prev + [IndexOf(seen, x), |seen|]
    else prev + [|seen|]
  }

  /** Appending a digest makes the earlier keys with that digest collide, and
      the new key collides exactly when its digest was already present. */
  lemma CollidingAppend(seen: seq<u64>, x: u64)
    ensures forall i :: 0 <= i < |seen| ==>
      (Colliding(seen + [x], i) <==> Colliding(seen, i) || seen[i] == x)
    ensures Colliding(seen + [x], |seen|) <==> x in seen
  {
    var ks := seen + [x];
    assert multiset(ks) == multiset(seen) + multiset{x};
    forall i | 0 <= i < |seen| ensures Colliding(ks, i) <==> Colliding(seen, i) || seen[i] == x {
      assert ks[i] == seen[i];
      assert seen[i] in multiset(seen);
    }
  }

  /** `cl` lists every colliding key of `ks` exactly once, and nothing else. */
  predicate ListsCollisions(ks: seq<u64>, cl: seq<int>)
  {
    && (forall p :: 0 <= p < |cl| ==> 0 <= cl[p] < |ks| && Colliding(ks, cl[p]))
    && (forall i :: 0 <= i < |ks| && Colliding(ks, i) ==> i in cl)
    && Distinct(cl)
  }

  lemma CollisionsStepFresh(seen: seq<u64>, x: u64, cl: seq<int>)
    requires ListsCollisions(seen, cl) && x !in seen
    ensures ListsCollisions(seen + [x], cl)
  {
    CollidingAppend(seen, x);
  }

  lemma CollisionsStepFirstRepeat(seen: seq<u64>, x: u64, cl: seq<int>)
    requires ListsCollisions(seen, cl) && x in seen && multiset(seen)[x] == 1
    ensures ListsCollisions(seen + [x], cl + [IndexOf(seen, x), |seen|])
  {
    FirstRepeatCollide(seen, x, cl);
    FirstRepeatComplete(seen, x, cl);
    FirstRepeatDistinct(seen, x, cl);
  }

  lemma FirstRepeatCollide(seen: seq<u64>, x: u64, cl: seq<int>)
    requires ListsCollisions(seen, cl) && x in seen
    ensures var cl' := cl + [IndexOf(seen, x), |seen|];
      forall p :: 0 <= p < |cl'| ==> 0 <= cl'[p] < |seen| + 1 && Colliding(seen + [x], cl'[p])
  {
    var cl' := cl + [IndexOf(seen, x), |seen|];
    CollidingAppend(seen, x);
    forall p | 0 <= p < |cl'| ensures 0 <= cl'[p] < |seen| + 1 && Colliding(seen + [x], cl'[p]) {
      if p < |cl| {
        assert cl'[p] == cl[p];
      }
    }
  }

  lemma FirstRepeatComplete(seen: seq<u64>, x: u64, cl: seq<int>)
    requires ListsCollisions(seen, cl) && x in seen && multiset(seen)[x] == 1
    ensures forall i :: 0 <= i < |seen| + 1 && Colliding(seen + [x], i) ==>
      i in cl + [IndexOf(seen, x), |seen|]
  {
    var f, n := IndexOf(seen, x), |seen|;
    var cl' := cl + [f, n];
    CollidingAppend(seen, x);
    forall i | 0 <= i < n + 1 && Colliding(seen + [x], i) ensures i in cl' {
      if i < n && seen[i] == x && i != f {
        CountTwo(seen, i, f);
      }
    }
  }

  lemma FirstRepeatDistinct(seen: seq<u64>, x: u64, cl: seq<int>)
    requires ListsCollisions(seen, cl) && x in seen && multiset(seen)[x] == 1
    ensures Distinct(cl + [IndexOf(seen, x), |seen|])
  {
    var f, n := IndexOf(seen, x), |seen|;
    var cl' := cl + [f, n];
    assert !Colliding(seen, f);
    assert f !in cl && n !in cl;
    forall p, q | 0 <= p < q < |cl'| ensures cl'[p] != cl'[q] {
      if q < |cl| {
        assert cl'[p] == cl[p] && cl'[q] == cl[q];
      } else if p < |cl| {
        assert cl'[p] == cl[p];
      }
    }
  }

  lemma CollisionsStepLaterRepeat(seen: seq<u64>, x: u64, cl: seq<int>)
    requires ListsCollisions(seen, cl) && x in seen && multiset(seen)[x] >= 2
    ensures ListsCollisions(seen + [x], cl + [|seen|])
  {
    var ks, n := seen + [x], |seen|;
    var cl' := cl + [n];
    CollidingAppend(seen, x);
    forall i | 0 <= i < |ks| && Colliding(ks, i) ensures i in cl' {
      if i < n && seen[i] == x {
        assert Colliding(seen, i);
      }
    }
    assert cl'[|cl|] == n;
    assert forall p :: 0 <= p < |cl| ==> cl'[p] == cl[p];
  }

  /** The collision list holds exactly the colliding keys, each once. */
  lemma {:induction false} CollisionsExact(ks: seq<u64>)
    ensures ListsCollisions(ks, Collisions(ks))
    decreases |ks|
  {
    if ks != [] {
      var n := |ks| - 1;
      var seen := ks[..n];
      var x := ks[n];
      CollisionsExact(seen);
      assert ks == seen + [x];
      if x !in seen {
        CollisionsStepFresh(seen, x, Collisions(seen));
      } else if multiset(seen)[x] == 1 {
        CollisionsStepFirstRepeat(seen, x, Collisions(seen));
      } else {
        CollisionsStepLaterRepeat(seen, x, Collisions(seen));
      }
    }
  }

  /** Position `p` of the collision list clashes: its fallback digest is some
      key's primary digest or the fallback digest of an earlier entry. These are
      exactly the digests the source's map holds when entry `p` is re-digested. */
  predicate Clashes(ks: seq<u64>, fb: seq<u64>, cl: seq<int>, p: int)
    requires |fb| == |ks| && 0 <= p < |cl|
    requires forall q :: 0 <= q < |cl| ==> 0 <= cl[q] < |ks|
  {
    fb[cl[p]] in ks || exists q :: 0 <= q < p && fb[cl[q]] == fb[cl[p]]
  }

  /** The first clashing position of the collision list at or after `p`. */
  function FirstClash(ks: seq<u64>, fb: seq<u64>, cl: seq<int>, p: int): (r: Option<int>)
    requires |fb| == |ks| && 0 <= p <= |cl|
    requires forall q :: 0 <= q < |cl| ==> 0 <= cl[q] < |ks|
    ensures r.Some? ==> p <= r.value < |cl| && Clashes(ks, fb, cl, r.value)
    ensures r.Some? ==> forall q :: p <= q < r.value ==> !Clashes(ks, fb, cl, q)
    ensures r.None? ==> forall q :: p <= q < |cl| ==> !Clashes(ks, fb, cl, q)
    decreases |cl| - p
  {
    if p == |cl| then None
    else if Clashes(ks, fb, cl, p) then Some(p)
    else FirstClash(ks, fb, cl, p + 1)
  }

  /** Colliding key `c` cannot be given a fresh fallback digest: its fallback
      digest is some key's primary digest, or the fallback digest of another
      colliding key. */
  predicate ClashesWith(ks: seq<u64>, fb: seq<u64>, c: int)
    requires |fb| == |ks| && 0 <= c < |ks|
  {
    fb[c] in ks || exists d :: 0 <= d < |ks| && d != c && Colliding(ks, d) && fb[d] == fb[c]
  }

  /** Some colliding key cannot be given a fresh fallback digest. */
  predicate Unresolvable(ks: seq<u64>, fb: seq<u64>)
    requires |fb| == |ks|
  {
    exists c :: 0 <= c < |ks| && Colliding(ks, c) && ClashesWith(ks, fb, c)
  }

  /** The digest each key is finally sorted by. */
  function FinalDigests(ks: seq<u64>, fb: seq<u64>): (fin: seq<u64>)
    requires |fb| == |ks|
    ensures |fin| == |ks|
    ensures forall i :: 0 <= i < |ks| ==> fin[i] == if Colliding(ks, i) then fb[i] else ks[i]
  {
    seq(|ks|, i requires 0 <= i < |ks| => if Colliding(ks, i) then fb[i] else ks[i])
  }

  /** The scan over the collision list finds a clash exactly when some colliding
      key is unresolvable. */
  lemma FirstClashUnresolvable(ks: seq<u64>, fb: seq<u64>)
    requires |fb| == |ks|
    ensures FirstClash(ks, fb, Collisions(ks), 0).Some? <==> Unresolvable(ks, fb)
    ensures FirstClash(ks, fb, Collisions(ks), 0).Some? ==>
      var c := Collisions(ks)[FirstClash(ks, fb, Collisions(ks), 0).value];
      Colliding(ks, c) && ClashesWith(ks, fb, c)
  {
    CollisionsExact(ks);
    var cl := Collisions(ks);
    var r := FirstClash(ks, fb, cl, 0);
    if r.Some? {
      ClashIsUnresolvable(ks, fb, cl, r.value);
    } else {
      NoClashResolvable(ks, fb, cl);
    }
  }

  /** A clashing entry of the collision list is an unresolvable key. */
  lemma ClashIsUnresolvable(ks: seq<u64>, fb: seq<u64>, cl: seq<int>, p: int)
    requires |fb| == |ks| && ListsCollisions(ks, cl) && 0 <= p < |cl|
    requires Clashes(ks, fb, cl, p)
    ensures Colliding(ks, cl[p]) && ClashesWith(ks, fb, cl[p])
  {
    var c := cl[p];
    if fb[c] !in ks {
      var q :| 0 <= q < p && fb[cl[q]] == fb[c];
      assert cl[q] != c;
      assert Colliding(ks, cl[q]);
    }
  }

  /** With no clashing entry in the collision list, no key is unresolvable. */
  lemma NoClashResolvable(ks: seq<u64>, fb: seq<u64>, cl: seq<int>)
    requires |fb| == |ks| && ListsCollisions(ks, cl)
    requires forall p :: 0 <= p < |cl| ==> !Clashes(ks, fb, cl, p)
    ensures !Unresolvable(ks, fb)
  {
    forall c | 0 <= c < |ks| && Colliding(ks, c) ensures !ClashesWith(ks, fb, c) {
      var pc := IndexOf(cl, c);
      assert !Clashes(ks, fb, cl, pc);
      forall d | 0 <= d < |ks| && d != c && Colliding(ks, d) ensures fb[d] != fb[c] {
        var pd := IndexOf(cl, d);
        assert !Clashes(ks, fb, cl, pd);
        if pd < pc {
          assert fb[cl[pd]] != fb[cl[pc]];
        } else {
          assert fb[cl[pc]] != fb[cl[pd]];
        }
      }
    }
  }

  /** When every colliding key gets a fresh fallback digest, the final digests
      are pairwise distinct. */
  lemma FinalDigestsDistinct(ks: seq<u64>, fb: seq<u64>)
    requires |fb| == |ks| && !Unresolvable(ks, fb)
    ensures Distinct(FinalDigests(ks, fb))
  {
    var fin := FinalDigests(ks, fb);
    forall i, j | 0 <= i < j < |ks| ensures fin[i] != fin[j] {
      if !Colliding(ks, i) && !Colliding(ks, j) && ks[i] == ks[j] {
        CountTwo(ks, i, j);
      }
    }
  }

  /** For each sorted digest, the key it belongs to. */
  function IndicesOf(fin: seq<u64>, sorted: seq<u64>): (idx: seq<int>)
    requires forall x :: x in sorted ==> x in fin
    ensures |idx| == |sorted|
    ensures forall i :: 0 <= i < |sorted| ==> idx[i] == IndexOf(fin, sorted[i])
  {
    seq(|sorted|, i requires 0 <= i < |sorted| => IndexOf(fin, sorted[i]))
  }

  /** Mapping the sorted distinct digests back to their keys lists every key
      once, in ascending order of digest. */
  lemma IndicesOfPermutation(fin: seq<u64>)
    requires Distinct(fin)
    ensures forall x :: x in Sort(fin) ==> x in fin
    ensures IsPermutation(IndicesOf(fin, Sort(fin)), |fin|)
    ensures forall i, j :: 0 <= i < j < |fin| ==>
      fin[IndicesOf(fin, Sort(fin))[i]] < fin[IndicesOf(fin, Sort(fin))[j]]
  {
    SortDistinct(fin);
    IndicesOfSorted(fin, Sort(fin));
  }

  lemma IndicesOfSorted(fin: seq<u64>, s: seq<u64>)
    requires Distinct(fin) && StrictlyAscending(s) && |s| == |fin|
    requires forall x :: x in s <==> x in fin
    ensures IsPermutation(IndicesOf(fin, s), |fin|)
    ensures forall i, j :: 0 <= i < j < |fin| ==> fin[IndicesOf(fin, s)[i]] < fin[IndicesOf(fin, s)[j]]
  {
    var idx := IndicesOf(fin, s);
    assert forall i :: 0 <= i < |s| ==> fin[idx[i]] == s[i];
    IndicesInjective(fin, s, idx);
    IndicesOnto(fin, s, idx);
  }

  lemma IndicesInjective(fin: seq<u64>, s: seq<u64>, idx: seq<int>)
    requires |s| == |idx| == |fin| && StrictlyAscending(s)
    requires forall i :: 0 <= i < |s| ==> 0 <= idx[i] < |fin| && fin[idx[i]] == s[i]
    ensures forall i, j :: 0 <= i < j < |fin| ==> idx[i] != idx[j]
  {
    forall i, j | 0 <= i < j < |fin| ensures idx[i] != idx[j] {
      assert s[i] < s[j];
    }
  }

  lemma IndicesOnto(fin: seq<u64>, s: seq<u64>, idx: seq<int>)
    requires Distinct(fin) && |s| == |idx| == |fin|
    requires forall x :: x in fin ==> x in s
    requires forall i :: 0 <= i < |s| ==> 0 <= idx[i] < |fin| && fin[idx[i]] == s[i]
    ensures forall k :: 0 <= k < |fin| ==> k in idx
  {
    forall k | 0 <= k < |fin| ensures k in idx {
      var i := IndexOf(s, fin[k]);
      assert fin[idx[i]] == fin[k];
      assert idx[i] == k;
    }
  }

  // ---------------------------------------------------------------------------
  // The ordering

  /** The order in which a map's keys are visited, as indices into `keys`, or
      the index of a key whose collision cannot be resolved. It succeeds exactly
      when every colliding key gets a fresh fallback digest, and then lists every
      key once, in strictly ascending order of final digest. */
  function CanonicalOrder(keys: seq<seq<byte>>, h: Hashers): (r: Result<seq<int>, int>)
    ensures var ks := DigestAll(keys, h.crc64); var fb := DigestAll(keys, h.fnv64);
      && (r.Success? <==> !Unresolvable(ks, fb))
      && (r.Success? ==> IsPermutation(r.value, |keys|))
      && (r.Success? ==> forall i, j :: 0 <= i < j < |keys| ==>
            FinalDigests(ks, fb)[r.value[i]] < FinalDigests(ks, fb)[r.value[j]])
      && (r.Failure? ==> 0 <= r.error < |keys| && Colliding(ks, r.error) && ClashesWith(ks, fb, r.error))
  {
    var ks := DigestAll(keys, h.crc64);
    var fb := DigestAll(keys, h.fnv64);
    var cl := Collisions(ks);
    FirstClashUnresolvable(ks, fb);
    match FirstClash(ks, fb, cl, 0)
    case Some(p) => Failure(cl[p])
    case None =>
      var fin := FinalDigests(ks, fb);
      FinalDigestsDistinct(ks, fb);
      SortDistinct(fin);
      IndicesOfPermutation(fin);
      Success(IndicesOf(fin, Sort(fin)))
  }
}

/** `sortValues` as the source writes it: one pass recording primary digests in
    a map (marking repeated digests with -1 and collecting the collision list),
    one pass re-digesting the collision list with the fallback hash, then a sort
    of the digests and a lookup of each sorted digest's key. */
module SortValuesLoop {
  import opened Bytes
  import opened Results
  import opened Seqs
  import opened Ordering

  /** What the source's map holds for a primary digest after scanning `seen`:
      the index of the only key with that digest, or -1 once it repeats. */
  function Marker(seen: seq<u64>, k: u64): int
    requires k in seen
  {
    if multiset(seen)[k] >= 2 then -1 else IndexOf(seen, k)
  }

  lemma MarkerAppend(seen: seq<u64>, x: u64)
    ensures forall k :: k in seen + [x] ==>
      Marker(seen + [x], k) == if k != x then Marker(seen, k) else if x in seen then -1 else |seen|
  {
    var s := seen + [x];
    assert multiset(s) == multiset(seen) + multiset{x};
    forall k | k in s
      ensures Marker(s, k) == if k != x then Marker(seen, k) else if x in seen then -1 else |seen|
    {
      if k != x {
        assert k in seen;
        IndexOfAppend(seen, x, k);
      } else if x !in seen {
        assert s[|seen|] == x;
      }
    }
  }

  lemma CollisionsAppend(seen: seq<u64>, x: u64)
    ensures Collisions(seen + [x]) ==
      if x !in seen then Collisions(seen)
      else if Marker(seen, x) >= 0 then Collisions(seen) + [Marker(seen, x), |seen|]
      else Collisions(seen) + [|seen|]
  {
    var ks := seen + [x];
    assert ks[..|seen|] == seen && ks[|seen|] == x;
    assert Collisions(ks) == CollisionsStep(Collisions(seen), seen, x);
    if x in seen {
      assert multiset(seen)[x] >= 1;
    }
  }

  /** A key that does not collide is the only key with its primary digest. */
  lemma MarkerOfUnique(ks: seq<u64>, j: int)
    requires 0 <= j < |ks| && !Colliding(ks, j)
    ensures Marker(ks, ks[j]) == j
  {
    var r := IndexOf(ks, ks[j]);
    if r != j {
      CountTwo(ks, r, j);
    }
  }

  lemma FirstClashAt(ks: seq<u64>, fb: seq<u64>, cl: seq<int>, p: int)
    requires |fb| == |ks| && 0 <= p < |cl|
    requires forall q :: 0 <= q < |cl| ==> 0 <= cl[q] < |ks|
    requires Clashes(ks, fb, cl, p) && forall q :: 0 <= q < p ==> !Clashes(ks, fb, cl, q)
    ensures FirstClash(ks, fb, cl, 0) == Some(p)
  {
  }

  /** The source's `sortValues`: the visiting order of the keys, or the index
      of the key whose collision could not be resolved. */
  method SortValues(keys: seq<seq<byte>>, h: Hashers) returns (r: Result<seq<int>, int>)
    ensures r == CanonicalOrder(keys, h)
  {
    var ks, m, collision := ScanPrimary(keys, h);
    var rehashed := Rehash(keys, h, ks, m, collision);
    if rehashed.Failure? {
      return Failure(rehashed.error);
    }
    var (fin, m') := rehashed.value;
    var pk, fb := DigestAll(keys, h.crc64), DigestAll(keys, h.fnv64);
    FirstClashUnresolvable(pk, fb);
    FinalDigestsDistinct(pk, fb);
    var result := LookUpSorted(fin, m');
    r := Success(result);
  }

  /** The map after the first pass over `seen`: it holds every primary digest
      seen so far, with the index of its only key or -1. */
  predicate Recorded(seen: seq<u64>, m: map<u64, int>)
  {
    && (forall k :: k in m <==> k in seen)
    && (forall k :: k in m ==> m[k] == Marker(seen, k))
  }

  /** One step of the first pass, in each of its three branches. */
  lemma ScanStep(seen: seq<u64>, x: u64, m: map<u64, int>)
    requires Recorded(seen, m)
    ensures x in m && m[x] >= 0 ==>
      Collisions(seen + [x]) == Collisions(seen) + [m[x], |seen|] && Recorded(seen + [x], m[x := -1])
    ensures x in m && m[x] < 0 ==>
      Collisions(seen + [x]) == Collisions(seen) + [|seen|] && Recorded(seen + [x], m)
    ensures x !in m ==>
      Collisions(seen + [x]) == Collisions(seen) && Recorded(seen + [x], m[x := |seen|])
  {
    CollisionsAppend(seen, x);
    if x in m {
      ScanStepRepeat(seen, x, m);
    } else {
      ScanStepFresh(seen, x, m);
    }
  }

  lemma ScanStepFresh(seen: seq<u64>, x: u64, m: map<u64, int>)
    requires Recorded(seen, m) && x !in m
    ensures Recorded(seen + [x], m[x := |seen|])
  {
    var s, m' := seen + [x], m[x := |seen|];
    MarkerAppend(seen, x);
    forall k ensures k in m' <==> k in s {
      assert k in s <==> k in seen || k == x;
    }
    forall k | k in m' ensures m'[k] == Marker(s, k) {
      if k != x {
        assert k in seen;
      }
    }
  }

  lemma ScanStepRepeat(seen: seq<u64>, x: u64, m: map<u64, int>)
    requires Recorded(seen, m) && x in m
    ensures Recorded(seen + [x], m[x := -1])
    ensures m[x] < 0 ==> Recorded(seen + [x], m)
  {
    var s, m' := seen + [x], m[x := -1];
    MarkerAppend(seen, x);
    assert x in seen;
    forall k ensures k in m' <==> k in s {
      assert k in s <==> k in seen || k == x;
    }
    forall k | k in m' ensures m'[k] == Marker(s, k) {
      if k != x {
        assert k in seen;
      }
    }
    assert m[x] < 0 ==> m' == m;
  }

  /** First pass: every key's primary digest, the map from digest to the index
      of its only key (or -1 once the digest repeats), and the collision list. */
  method ScanPrimary(keys: seq<seq<byte>>, h: Hashers) returns (ks: seq<u64>, m: map<u64, int>, collision: seq<int>)
    ensures ks == DigestAll(keys, h.crc64)
    ensures collision == Collisions(ks)
    ensures Recorded(ks, m)
  {
    var n := |keys|;
    ghost var pk := DigestAll(keys, h.crc64);
    collision := [];
    ks := seq(n, _ => 0);
    m := map[];
    ghost var seen: seq<u64> := [];
    for i := 0 to n
      invariant |ks| == n
      invariant forall j :: 0 <= j < i ==> ks[j] == pk[j]
      invariant seen == pk[..i]
      invariant collision == Collisions(seen)
      invariant Recorded(seen, m)
    {
      var x := h.crc64(keys[i]);
      ks := ks[i := x];
      ScanStep(seen, x, m);
      assert pk[..i + 1] == seen + [x];
      seen := seen + [x];
      if x in m {
        if m[x] >= 0 {
          // The first repetition: record the key that first had the digest.
          collision := collision + [m[x]];
          m := m[x := -1];
        }
        collision := collision + [i];
        continue;
      }
      m := m[x := i];
    }
    assert pk == pk[..n];
  }

  /** The state of the second pass after re-digesting the first `p` entries of
      the collision list without a clash. */
  predicate Rehashed(pk: seq<u64>, fb: seq<u64>, collision: seq<int>, p: int, ks: seq<u64>, m: map<u64, int>)
    requires |fb| == |pk| && 0 <= p <= |collision|
    requires forall q :: 0 <= q < |collision| ==> 0 <= collision[q] < |pk|
  {
    && |ks| == |pk|
    && (forall j :: 0 <= j < |pk| ==> ks[j] == if j in collision[..p] then fb[j] else pk[j])
    && (forall k :: k in m <==> k in pk || k in DigestsAt(fb, collision, p))
    && (forall k :: k in pk ==> m[k] == Marker(pk, k))
    && (forall q :: 0 <= q < p ==> m[fb[collision[q]]] == collision[q])
    && (forall q :: 0 <= q < p ==> !Clashes(pk, fb, collision, q))
  }

  /** One step of the second pass: the map already holds the fallback digest
      exactly when the entry clashes, and otherwise the step keeps the state. */
  lemma RehashStep(pk: seq<u64>, fb: seq<u64>, collision: seq<int>, p: int, ks: seq<u64>, m: map<u64, int>)
    requires |fb| == |pk| && 0 <= p < |collision| && Distinct(collision)
    requires forall q :: 0 <= q < |collision| ==> 0 <= collision[q] < |pk|
    requires Rehashed(pk, fb, collision, p, ks, m)
    ensures fb[collision[p]] in m <==> Clashes(pk, fb, collision, p)
    ensures !Clashes(pk, fb, collision, p) ==>
      Rehashed(pk, fb, collision, p + 1, ks[collision[p] := fb[collision[p]]], m[fb[collision[p]] := collision[p]])
  {
    var c := collision[p];
    if fb[c] in DigestsAt(fb, collision, p) {
      var q :| 0 <= q < p && fb[collision[q]] == fb[c];
    }
    if !Clashes(pk, fb, collision, p) {
      RehashAdvance(pk, fb, collision, p, ks, m);
    }
  }

  lemma RehashAdvance(pk: seq<u64>, fb: seq<u64>, collision: seq<int>, p: int, ks: seq<u64>, m: map<u64, int>)
    requires |fb| == |pk| && 0 <= p < |collision| && Distinct(collision)
    requires forall q :: 0 <= q < |collision| ==> 0 <= collision[q] < |pk|
    requires Rehashed(pk, fb, collision, p, ks, m) && !Clashes(pk, fb, collision, p)
    ensures Rehashed(pk, fb, collision, p + 1, ks[collision[p] := fb[collision[p]]], m[fb[collision[p]] := collision[p]])
  {
    var c := collision[p];
    var ks', m' := ks[c := fb[c]], m[fb[c] := c];
    assert collision[..p + 1] == collision[..p] + [c];
    forall j | 0 <= j < |pk| ensures ks'[j] == if j in collision[..p + 1] then fb[j] else pk[j] {
      assert j in collision[..p + 1] <==> j in collision[..p] || j == c;
    }
    DigestsAtStep(fb, collision, p);
    forall q | 0 <= q < p ensures fb[collision[q]] != fb[c] && collision[q] != c {
    }
    assert forall q :: 0 <= q < p + 1 ==> m'[fb[collision[q]]] == collision[q];
  }

  lemma DigestsAtStep(fb: seq<u64>, cl: seq<int>, p: int)
    requires 0 <= p < |cl|
    requires forall q :: 0 <= q < |cl| ==> 0 <= cl[q] < |fb|
    ensures forall k :: k in DigestsAt(fb, cl, p + 1) <==> k in DigestsAt(fb, cl, p) || k == fb[cl[p]]
  {
  }

  /** After the second pass without a clash, the digests are the final ones and
      the map sends each of them to its key. */
  lemma RehashDone(pk: seq<u64>, fb: seq<u64>, ks: seq<u64>, m: map<u64, int>)
    requires |fb| == |pk|
    requires Rehashed(pk, fb, Collisions(pk), |Collisions(pk)|, ks, m)
    ensures ks == FinalDigests(pk, fb)
    ensures forall j :: 0 <= j < |pk| ==> ks[j] in m && m[ks[j]] == j
  {
    var collision := Collisions(pk);
    CollisionsExact(pk);
    assert collision[..|collision|] == collision;
    var fin := FinalDigests(pk, fb);
    assert ks == fin;
    forall j | 0 <= j < |pk| ensures fin[j] in m && m[fin[j]] == j {
      if Colliding(pk, j) {
        var q := IndexOf(collision, j);
        assert fb[collision[q]] in DigestsAt(fb, collision, |collision|);
      } else {
        MarkerOfUnique(pk, j);
      }
    }
  }

  /** Second pass: re-digest every key of the collision list with the fallback
      hash, failing on the first fallback digest the map already holds. On
      success the digests are the final ones and the map sends each to its key. */
  method Rehash(keys: seq<seq<byte>>, h: Hashers, ks0: seq<u64>, m0: map<u64, int>, collision: seq<int>)
    returns (r: Result<(seq<u64>, map<u64, int>), int>)
    requires ks0 == DigestAll(keys, h.crc64)
    requires collision == Collisions(ks0)
    requires Recorded(ks0, m0)
    ensures var pk, fb := DigestAll(keys, h.crc64), DigestAll(keys, h.fnv64);
      match FirstClash(pk, fb, collision, 0)
      case Some(p) => r == Failure(collision[p])
      case None =>
        && r.Success?
        && r.value.0 == FinalDigests(pk, fb)
        && forall j :: 0 <= j < |keys| ==> r.value.0[j] in r.value.1 && r.value.1[r.value.0[j]] == j
  {
    ghost var pk, fb := ks0, DigestAll(keys, h.fnv64);
    CollisionsExact(pk);
    var ks, m := ks0, m0;
    assert collision[..0] == [];
    for p := 0 to |collision|
      invariant Rehashed(pk, fb, collision, p, ks, m)
    {
      var c := collision[p];
      RehashStep(pk, fb, collision, p, ks, m);
      ks := ks[c := h.fnv64(keys[c])];
      if ks[c] in m {
        FirstClashAt(pk, fb, collision, p);
        return Failure(c);
      }
      m := m[ks[c] := c];
    }
    RehashDone(pk, fb, ks, m);
    r := Success((ks, m));
  }

  /** Last step: sort the (distinct) final digests and look each one up. */
  method LookUpSorted(fin: seq<u64>, m: map<u64, int>) returns (result: seq<int>)
    requires Distinct(fin)
    requires forall j :: 0 <= j < |fin| ==> fin[j] in m && m[fin[j]] == j
    ensures forall x :: x in Sort(fin) ==> x in fin
    ensures result == IndicesOf(fin, Sort(fin))
  {
    var sorted := Sort(fin);
    SortDistinct(fin);
    result := [];
    for i := 0 to |fin|
      invariant |result| == i
      invariant forall j :: 0 <= j < i ==> result[j] == IndexOf(fin, sorted[j])
    {
      assert sorted[i] in fin;
      var j := IndexOf(fin, sorted[i]);
      assert m[sorted[i]] == j;
      result := result + [m[sorted[i]]];
    }
  }

  /** The fallback digests of the first `p` entries of the collision list. */
  function DigestsAt(fb: seq<u64>, cl: seq<int>, p: int): (s: set<u64>)
    requires 0 <= p <= |cl|
    requires forall q :: 0 <= q < |cl| ==> 0 <= cl[q] < |fb|
    ensures forall q :: 0 <= q < p ==> fb[cl[q]] in s
    ensures forall k :: k in s ==> exists q :: 0 <= q < p && fb[cl[q]] == k
  {
    set q | 0 <= q < p :: fb[cl[q]]
  }
}
