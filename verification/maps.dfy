/** What the walker writes for a map. The keys are ordered by `sortValues`
    (`CanonicalOrder`), each key is followed by its value, and the order in which
    the map yields its entries does not matter. */
module MapRules {
  import opened Bytes
  import opened Results
  import opened Seqs
  import opened Values
  import opened Ordering
  import opened Walker

  /** Every key of the map can be walked. */
  predicate KeysEncode(es: seq<Entry>, h: Hashers)
  {
    forall i :: 0 <= i < |es| ==> Encode(es[i].key, h).Success?
  }

  /** The keys are encoded exactly when each one is, and then position by
      position. */
  lemma {:induction false} KeysElementwise(es: seq<Entry>, h: Hashers)
    ensures EncodeKeys(es, h).Success? <==> KeysEncode(es, h)
    ensures EncodeKeys(es, h).Success? ==>
      forall i :: 0 <= i < |es| ==> EncodeKeys(es, h).value[i] == Encode(es[i].key, h).value
    decreases |es|
  {
    if es != [] {
      KeysElementwise(es[1..], h);
      assert forall i :: 1 <= i < |es| ==> es[1..][i - 1] == es[i];
    }
  }

  /** The digests by which `sortValues` orders the keys are the values of the
      nested `Hash` calls on each key: with the default hasher (CRC-64), and with
      FNV-64 for the fallback. */
  lemma KeyDigestsAreHashes(es: seq<Entry>, h: Hashers)
    requires EncodeKeys(es, h).Success?
    ensures forall i :: 0 <= i < |es| ==>
      Hash(es[i].key, None, h) == (DigestAll(EncodeKeys(es, h).value, h.crc64)[i], None)
    ensures forall i :: 0 <= i < |es| ==>
      Hash(es[i].key, Some(h.fnv64), h) == (DigestAll(EncodeKeys(es, h).value, h.fnv64)[i], None)
  {
    KeysElementwise(es, h);
  }

  /** Two keys that are written alike cannot be told apart by either digest, so
      the map cannot be hashed: the walk fails with an unresolvable collision.
      Distinct Go keys can be written alike (`nil` and `false` in a map with
      interface keys, or two pointers to equal values). */
  lemma EqualKeyEncodingsFail(es: seq<Entry>, i: int, j: int, h: Hashers)
    requires 0 <= i < |es| && 0 <= j < |es| && i != j
    requires KeysEncode(es, h)
    requires Encode(es[i].key, h) == Encode(es[j].key, h)
    ensures Encode(Map(es), h).Failure?
    ensures Encode(Map(es), h).error.UnresolvableCollision?
  {
    KeysElementwise(es, h);
    var kbs := EncodeKeys(es, h).value;
    var ks, fb := DigestAll(kbs, h.crc64), DigestAll(kbs, h.fnv64);
    assert ks[i] == ks[j] && fb[i] == fb[j];
    CountTwo(ks, i, j);
    CountTwo(ks, j, i);
    assert Colliding(ks, i) && ClashesWith(ks, fb, i);
    assert Unresolvable(ks, fb);
  }

  /** A map with interface keys holding `nil` and `false` cannot be hashed. */
  lemma NilAndFalseKeysCollide(v1: Value, v2: Value, h: Hashers)
    ensures Encode(Map([Entry(Iface(Nil), v1), Entry(Iface(Bool(false)), v2)]), h).Failure?
  {
    var es := [Entry(Iface(Nil), v1), Entry(Iface(Bool(false)), v2)];
    assert LittleEndian(0, 1) == [0];
    EqualKeyEncodingsFail(es, 0, 1, h);
  }

  // ---------------------------------------------------------------------------
  // Independence of the order the map yields its entries in

  lemma KeysPermute(es: seq<Entry>, pi: seq<int>, h: Hashers)
    requires IsPermutation(pi, |es|)
    ensures EncodeKeys(Permute(es, pi), h).Success? <==> EncodeKeys(es, h).Success?
    ensures EncodeKeys(es, h).Success? ==>
      EncodeKeys(Permute(es, pi), h).value == Permute(EncodeKeys(es, h).value, pi)
  {
    var es' := Permute(es, pi);
    KeysElementwise(es, h);
    KeysElementwise(es', h);
    if KeysEncode(es, h) {
      assert KeysEncode(es', h);
    }
    if KeysEncode(es', h) {
      forall k | 0 <= k < |es| ensures Encode(es[k].key, h).Success? {
        var i := IndexOf(pi, k);
        assert es'[i] == es[k];
      }
    }
  }

  lemma DigestAllPermute(kbs: seq<seq<byte>>, pi: seq<int>, d: Digest)
    requires IsPermutation(pi, |kbs|)
    ensures DigestAll(Permute(kbs, pi), d) == Permute(DigestAll(kbs, d), pi)
  {
  }

  /** A key collides after the rearrangement exactly when it collided before. */
  lemma CollidingPermute(ks: seq<u64>, pi: seq<int>)
    requires IsPermutation(pi, |ks|)
    ensures forall i :: 0 <= i < |ks| ==> (Colliding(Permute(ks, pi), i) <==> Colliding(ks, pi[i]))
  {
    var ks' := Permute(ks, pi);
    forall i | 0 <= i < |ks| ensures Colliding(ks', i) <==> Colliding(ks, pi[i]) {
      if Colliding(ks, pi[i]) {
        var j := CountTwoWitness(ks, pi[i]);
        var i' := IndexOf(pi, j);
        CountTwo(ks', i, i');
      }
      if Colliding(ks', i) {
        var i' := CountTwoWitness(ks', i);
        CountTwo(ks, pi[i], pi[i']);
      }
    }
  }

  /** Whether some colliding key is unresolvable does not depend on the order
      of the keys. */
  lemma UnresolvablePermute(ks: seq<u64>, fb: seq<u64>, pi: seq<int>)
    requires |fb| == |ks| && IsPermutation(pi, |ks|)
    ensures Unresolvable(Permute(ks, pi), Permute(fb, pi)) <==> Unresolvable(ks, fb)
  {
    var ks', fb' := Permute(ks, pi), Permute(fb, pi);
    CollidingPermute(ks, pi);
    PermuteElements(ks, pi);
    if Unresolvable(ks, fb) {
      var c :| 0 <= c < |ks| && Colliding(ks, c) && ClashesWith(ks, fb, c);
      var c' := IndexOf(pi, c);
      if fb[c] !in ks {
        var d :| 0 <= d < |ks| && d != c && Colliding(ks, d) && fb[d] == fb[c];
        var d' := IndexOf(pi, d);
        assert d' != c' && Colliding(ks', d') && fb'[d'] == fb'[c'];
      }
      assert Colliding(ks', c') && ClashesWith(ks', fb', c');
    }
    if Unresolvable(ks', fb') {
      var c' :| 0 <= c' < |ks| && Colliding(ks', c') && ClashesWith(ks', fb', c');
      var c := pi[c'];
      if fb'[c'] !in ks' {
        var d' :| 0 <= d' < |ks| && d' != c' && Colliding(ks', d') && fb'[d'] == fb'[c'];
        assert pi[d'] != c && Colliding(ks, pi[d']) && fb[pi[d']] == fb[c];
      }
      assert Colliding(ks, c) && ClashesWith(ks, fb, c);
    }
  }

  lemma FinalDigestsPermute(ks: seq<u64>, fb: seq<u64>, pi: seq<int>)
    requires |fb| == |ks| && IsPermutation(pi, |ks|)
    ensures FinalDigests(Permute(ks, pi), Permute(fb, pi)) == Permute(FinalDigests(ks, fb), pi)
  {
    CollidingPermute(ks, pi);
  }

  /** Rearranging the keys rearranges the canonical order the same way: the
      ordering succeeds for both or for neither, and it visits the same keys in
      the same sequence. */
  lemma CanonicalOrderPermute(kbs: seq<seq<byte>>, pi: seq<int>, h: Hashers)
    requires IsPermutation(pi, |kbs|)
    ensures CanonicalOrder(Permute(kbs, pi), h).Success? <==> CanonicalOrder(kbs, h).Success?
    ensures CanonicalOrder(kbs, h).Success? ==>
      forall i :: 0 <= i < |kbs| ==>
        0 <= CanonicalOrder(Permute(kbs, pi), h).value[i] < |kbs| &&
        pi[CanonicalOrder(Permute(kbs, pi), h).value[i]] == CanonicalOrder(kbs, h).value[i]
  {
    var kbs' := Permute(kbs, pi);
    var ks, fb := DigestAll(kbs, h.crc64), DigestAll(kbs, h.fnv64);
    DigestAllPermute(kbs, pi, h.crc64);
    DigestAllPermute(kbs, pi, h.fnv64);
    UnresolvablePermute(ks, fb, pi);
    if CanonicalOrder(kbs, h).Success? {
      SameOrder(kbs, pi, h);
    }
  }

  lemma SameOrder(kbs: seq<seq<byte>>, pi: seq<int>, h: Hashers)
    requires IsPermutation(pi, |kbs|)
    requires CanonicalOrder(kbs, h).Success? && CanonicalOrder(Permute(kbs, pi), h).Success?
    ensures forall i :: 0 <= i < |kbs| ==>
      pi[CanonicalOrder(Permute(kbs, pi), h).value[i]] == CanonicalOrder(kbs, h).value[i]
  {
    var kbs' := Permute(kbs, pi);
    var ks, fb := DigestAll(kbs, h.crc64), DigestAll(kbs, h.fnv64);
    var ks', fb' := DigestAll(kbs', h.crc64), DigestAll(kbs', h.fnv64);
    DigestAllPermute(kbs, pi, h.crc64);
    DigestAllPermute(kbs, pi, h.fnv64);
    var fin, fin' := FinalDigests(ks, fb), FinalDigests(ks', fb');
    FinalDigestsPermute(ks, fb, pi);
    FinalDigestsDistinct(ks, fb);
    var idx, idx' := CanonicalOrder(kbs, h).value, CanonicalOrder(kbs', h).value;
    SameSortedOrder(fin, pi, idx, idx');
  }

  /** Two orders along which distinct digests, and the same digests rearranged
      by `pi`, strictly ascend pick the same digests in the same sequence. */
  lemma SameSortedOrder(fin: seq<u64>, pi: seq<int>, idx: seq<int>, idx': seq<int>)
    requires IsPermutation(pi, |fin|) && IsPermutation(idx, |fin|) && IsPermutation(idx', |fin|)
    requires Distinct(fin)
    requires forall i, j :: 0 <= i < j < |fin| ==> fin[idx[i]] < fin[idx[j]]
    requires forall i, j :: 0 <= i < j < |fin| ==> Permute(fin, pi)[idx'[i]] < Permute(fin, pi)[idx'[j]]
    ensures forall i :: 0 <= i < |fin| ==> pi[idx'[i]] == idx[i]
  {
    var fin' := Permute(fin, pi);
    var a, b := Permute(fin, idx), Permute(fin', idx');
    PermuteElements(fin, idx);
    PermuteElements(fin', idx');
    PermuteElements(fin, pi);
    AscendingUnique(a, b);
    forall i | 0 <= i < |fin| ensures pi[idx'[i]] == idx[i] {
      assert fin[idx[i]] == fin[pi[idx'[i]]];
    }
  }

  /** Visiting two entry lists along two orders that pick the same entries
      writes the same bytes. */
  lemma {:induction false} VisitSameEntries(es1: seq<Entry>, o1: seq<int>, es2: seq<Entry>, o2: seq<int>, h: Hashers)
    requires forall i :: 0 <= i < |o1| ==> 0 <= o1[i] < |es1|
    requires forall i :: 0 <= i < |o2| ==> 0 <= o2[i] < |es2|
    requires |o1| == |o2| && forall i :: 0 <= i < |o1| ==> es1[o1[i]] == es2[o2[i]]
    ensures EncodeVisit(es1, o1, h) == EncodeVisit(es2, o2, h)
    decreases |o1|
  {
    if o1 != [] {
      VisitSameEntries(es1, o1[1..], es2, o2[1..], h);
    }
  }

  /** A map whose keys cannot all be written fails with the error of its first
      key that cannot be written; the keys before it were all written. */
  lemma {:induction false} KeysFirstError(es: seq<Entry>, h: Hashers) returns (i: int)
    requires EncodeKeys(es, h).Failure?
    ensures 0 <= i < |es| && Encode(es[i].key, h).Failure?
    ensures forall j :: 0 <= j < i ==> Encode(es[j].key, h).Success?
    ensures EncodeKeys(es, h).error == Encode(es[i].key, h).error
    decreases |es|
  {
    if Encode(es[0].key, h).Failure? {
      i := 0;
    } else {
      var k := KeysFirstError(es[1..], h);
      i := k + 1;
      assert es[1..][k] == es[i];
      forall j | 0 <= j < i ensures Encode(es[j].key, h).Success? {
        if j > 0 {
          assert es[1..][j - 1] == es[j];
        }
      }
    }
  }

  /** The three ways a map is walked: a key cannot be written, and the walk
      fails with that key's error; or the ordering fails, and the walk fails
      with an unresolvable collision naming the key the ordering stopped at; or
      the entries are visited in canonical order. */
  lemma MapCases(es: seq<Entry>, h: Hashers)
    ensures EncodeKeys(es, h).Failure? ==> Encode(Map(es), h) == Failure(EncodeKeys(es, h).error)
    ensures EncodeKeys(es, h).Success? && CanonicalOrder(EncodeKeys(es, h).value, h).Failure? ==>
      Encode(Map(es), h) == Failure(UnresolvableCollision(es[CanonicalOrder(EncodeKeys(es, h).value, h).error].key))
    ensures EncodeKeys(es, h).Success? && CanonicalOrder(EncodeKeys(es, h).value, h).Success? ==>
      Encode(Map(es), h) == EncodeVisit(es, CanonicalOrder(EncodeKeys(es, h).value, h).value, h)
  {
    EncodeOfMap(es, h);
    if EncodeKeys(es, h).Success? {
      var kbs := EncodeKeys(es, h).value;
      assert |kbs| == |es|;
      assert EncodeMap(es, h) ==
        match CanonicalOrder(kbs, h)
        case Failure(c) => Failure(UnresolvableCollision(es[c].key))
        case Success(order) => EncodeVisit(es, order, h);
    }
  }

  lemma EncodeOfMap(es: seq<Entry>, h: Hashers)
    ensures Encode(Map(es), h) == EncodeMap(es, h)
  {
  }

  /** Every value of the map can be walked. */
  predicate ValuesEncode(es: seq<Entry>, h: Hashers)
  {
    forall i :: 0 <= i < |es| ==> Encode(es[i].val, h).Success?
  }

  /** Visiting entries whose keys and values can all be written succeeds. */
  lemma {:induction false} VisitSucceeds(es: seq<Entry>, order: seq<int>, h: Hashers)
    requires forall i :: 0 <= i < |order| ==> 0 <= order[i] < |es|
    requires KeysEncode(es, h) && ValuesEncode(es, h)
    ensures EncodeVisit(es, order, h).Success?
    decreases |order|
  {
    if order != [] {
      VisitSucceeds(es, order[1..], h);
      var e := es[order[0]];
      assert Encode(e.key, h).Success? && Encode(e.val, h).Success?;
      NilByte();
    }
  }

  /** When every key and every value can be walked, a map fails exactly when
      some colliding key is unresolvable, and then with an unresolvable
      collision naming a colliding key whose fallback digest clashes. */
  lemma MapFailsOnlyByCollision(es: seq<Entry>, h: Hashers)
    requires KeysEncode(es, h) && ValuesEncode(es, h)
    ensures EncodeKeys(es, h).Success?
    ensures var kbs := EncodeKeys(es, h).value;
      var ks, fb := DigestAll(kbs, h.crc64), DigestAll(kbs, h.fnv64);
      && (Encode(Map(es), h).Failure? <==> Unresolvable(ks, fb))
      && (Unresolvable(ks, fb) ==>
            var c := CanonicalOrder(kbs, h).error;
            && 0 <= c < |es| && Colliding(ks, c) && ClashesWith(ks, fb, c)
            && Encode(Map(es), h) == Failure(UnresolvableCollision(es[c].key)))
  {
    KeysElementwise(es, h);
    MapCases(es, h);
    var kbs := EncodeKeys(es, h).value;
    if CanonicalOrder(kbs, h).Success? {
      VisitSucceeds(es, CanonicalOrder(kbs, h).value, h);
    }
  }

  /** A map with one entry writes its key, then its value if the key is equal
      to itself. A key holding a NaN finds no value, and the walker writes the
      missing value like nil, as the byte 0. */
  lemma SingleEntry(k: Value, v: Value, h: Hashers)
    requires Encode(k, h).Success?
    ensures SelfEqual(k) ==>
      Encode(Map([Entry(k, v)]), h) ==
        (match Encode(v, h)
         case Failure(e) => Failure(e)
         case Success(vb) => Success(Encode(k, h).value + vb))
    ensures !SelfEqual(k) ==> Encode(Map([Entry(k, v)]), h) == Success(Encode(k, h).value + [0])
  {
    SingleMapVisit(k, v, h);
    VisitOne([Entry(k, v)], 0, h);
    NilByte();
  }

  /** A one-entry map whose key can be written visits its only entry. */
  lemma SingleMapVisit(k: Value, v: Value, h: Hashers)
    requires Encode(k, h).Success?
    ensures Encode(Map([Entry(k, v)]), h) == EncodeVisit([Entry(k, v)], [0], h)
  {
    var es := [Entry(k, v)];
    SingleKey(k, v, h);
    SingleKeyOrder(Encode(k, h).value, h);
    EncodeOfMap(es, h);
  }

  /** The missing value of a failed lookup is written as the byte 0. */
  lemma NilByte()
    ensures EncodeScalar(Nil) == Success([0])
  {
    assert LittleEndian(0, 1) == [0];
  }

  /** Visiting one entry writes its key, then the value found under the key. */
  lemma VisitOne(es: seq<Entry>, i: int, h: Hashers)
    requires 0 <= i < |es| && Encode(es[i].key, h).Success?
    ensures var vb := if SelfEqual(es[i].key) then Encode(es[i].val, h) else EncodeScalar(Nil);
      EncodeVisit(es, [i], h) ==
        if vb.Failure? then Failure(vb.error) else Success(Encode(es[i].key, h).value + vb.value)
  {
    assert [i][0] == i && [i][1..] == [];
    assert EncodeVisit(es, [], h) == Success([]);
    var kb := Encode(es[i].key, h).value;
    var vb := if SelfEqual(es[i].key) then Encode(es[i].val, h) else EncodeScalar(Nil);
    if vb.Success? {
      assert kb + vb.value + [] == kb + vb.value;
    }
  }

  lemma SingleKey(k: Value, v: Value, h: Hashers)
    requires Encode(k, h).Success?
    ensures EncodeKeys([Entry(k, v)], h) == Success([Encode(k, h).value])
  {
    var es := [Entry(k, v)];
    assert es[0].key == k && es[1..] == [];
    assert EncodeKeys(es[1..], h) == Success([]);
    assert [Encode(k, h).value] + [] == [Encode(k, h).value];
  }

  /** A single key is never colliding, so it is ordered alone. */
  lemma SingleKeyOrder(kb: seq<byte>, h: Hashers)
    ensures CanonicalOrder([kb], h) == Success([0])
  {
    var ks, fb := DigestAll([kb], h.crc64), DigestAll([kb], h.fnv64);
    assert ks == [ks[0]] && multiset(ks)[ks[0]] == 1;
    assert !Colliding(ks, 0);
    assert !Unresolvable(ks, fb);
    var r := CanonicalOrder([kb], h);
    assert r.Success? && |r.value| == 1 && r.value[0] == 0;
    assert r.value == [0];
  }

  /** The NaN of Go's `math.NaN()`, as a `float64` bit pattern. */
  const NaN64: int := 0x7FF8_0000_0000_0001

  /** `map[float64]string{math.NaN(): "x"}` is written as the NaN's 8 bytes and
      the byte 0: the value "x" is not written. */
  lemma NaNKeyValueNotWritten(h: Hashers)
    ensures Encode(Map([Entry(Float64(NaN64), Str([120]))]), h) == Success(LittleEndian(NaN64, 8) + [0])
  {
    NaN64IsNaN();
    Float64Bytes(NaN64, h);
    SingleEntry(Float64(NaN64), Str([120]), h);
  }

  /** `math.NaN()` is not equal to itself. */
  lemma NaN64IsNaN()
    ensures !SelfEqual(Float64(NaN64))
  {
    assert IsNaN64(NaN64);
  }

  /** A `float64` is written as the 8 bytes of its bit pattern. */
  lemma Float64Bytes(b: int, h: Hashers)
    ensures Encode(Float64(b), h) == Success(LittleEndian(b, 8))
  {
    assert Encode(Float64(b), h) == EncodeScalar(Float64(b));
  }

  /** The order in which a map yields its entries does not change whether it
      can be hashed, nor the bytes written for it. */
  lemma MapOrderIrrelevant(es: seq<Entry>, pi: seq<int>, h: Hashers)
    requires IsPermutation(pi, |es|)
    ensures Encode(Map(Permute(es, pi)), h).Success? <==> Encode(Map(es), h).Success?
    ensures Encode(Map(es), h).Success? ==> Encode(Map(Permute(es, pi)), h) == Encode(Map(es), h)
  {
    KeysPermute(es, pi, h);
    MapCases(es, h);
    MapCases(Permute(es, pi), h);
    if EncodeKeys(es, h).Success? {
      KeysEncodedOrderIrrelevant(es, pi, h);
    }
  }

  lemma KeysEncodedOrderIrrelevant(es: seq<Entry>, pi: seq<int>, h: Hashers)
    requires IsPermutation(pi, |es|) && EncodeKeys(es, h).Success?
    ensures EncodeKeys(Permute(es, pi), h).Success?
    ensures CanonicalOrder(EncodeKeys(Permute(es, pi), h).value, h).Success? <==>
            CanonicalOrder(EncodeKeys(es, h).value, h).Success?
    ensures CanonicalOrder(EncodeKeys(es, h).value, h).Success? ==>
      EncodeVisit(Permute(es, pi), CanonicalOrder(EncodeKeys(Permute(es, pi), h).value, h).value, h) ==
      EncodeVisit(es, CanonicalOrder(EncodeKeys(es, h).value, h).value, h)
  {
    var es' := Permute(es, pi);
    KeysPermute(es, pi, h);
    var kbs := EncodeKeys(es, h).value;
    CanonicalOrderPermute(kbs, pi, h);
    if CanonicalOrder(kbs, h).Success? {
      var idx, idx' := CanonicalOrder(kbs, h).value, CanonicalOrder(Permute(kbs, pi), h).value;
      VisitSameEntries(es, idx, es', idx', h);
    }
  }

  /** Hence `Hash` of a map does not depend on the map's iteration order. */
  lemma HashIgnoresMapOrder(es: seq<Entry>, pi: seq<int>, hasher: Option<Digest>, h: Hashers)
    requires IsPermutation(pi, |es|)
    ensures Hash(Map(Permute(es, pi)), hasher, h).0 == Hash(Map(es), hasher, h).0
    ensures Hash(Map(Permute(es, pi)), hasher, h).1.None? <==> Hash(Map(es), hasher, h).1.None?
  {
    MapOrderIrrelevant(es, pi, h);
  }
}
