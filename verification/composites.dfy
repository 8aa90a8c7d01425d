/** What the walker writes for arrays, slices, structs and strings: the
    children's bytes one after the other, with no length, delimiter, type name
    or field name. The lemmas characterise the list encoding against the
    element encodings and spell out the values this makes indistinguishable. */
module CompositeRules {
  import opened Bytes
  import opened Results
  import opened Values
  import opened Ordering
  import opened Walker

  /** Every element of `es` can be walked. */
  predicate AllEncode(es: seq<Value>, h: Hashers)
  {
    forall i :: 0 <= i < |es| ==> Encode(es[i], h).Success?
  }

  /** The byte strings of `parts`, joined in order. */
  function Concat(parts: seq<seq<byte>>): (r: seq<byte>)
  {
    if parts == [] then [] else parts[0] + Concat(parts[1..])
  }

  /** The bytes of every element, in order. */
  function Encodings(es: seq<Value>, h: Hashers): (r: seq<seq<byte>>)
    requires AllEncode(es, h)
    ensures |r| == |es|
    ensures forall i :: 0 <= i < |es| ==> r[i] == Encode(es[i], h).value
  {
    seq(|es|, i requires 0 <= i < |es| && AllEncode(es, h) => Encode(es[i], h).value)
  }

  /** A list is written exactly when each element is, and then as the
      concatenation of the elements' bytes. */
  lemma {:induction false} ListIsConcatenation(es: seq<Value>, h: Hashers)
    ensures EncodeList(es, h).Success? <==> AllEncode(es, h)
    ensures EncodeList(es, h).Success? ==> EncodeList(es, h).value == Concat(Encodings(es, h))
    decreases |es|
  {
    if es != [] {
      ListIsConcatenation(es[1..], h);
      assert forall i :: 1 <= i < |es| ==> es[1..][i - 1] == es[i];
      if AllEncode(es, h) {
        assert Encodings(es, h)[1..] == Encodings(es[1..], h);
      }
    }
  }

  /** A list that cannot be written fails with the error of its first element
      that cannot be written; the elements before it were all written. */
  lemma {:induction false} ListFirstError(es: seq<Value>, h: Hashers) returns (i: int)
    requires EncodeList(es, h).Failure?
    ensures 0 <= i < |es| && Encode(es[i], h).Failure?
    ensures forall j :: 0 <= j < i ==> Encode(es[j], h).Success?
    ensures EncodeList(es, h).error == Encode(es[i], h).error
    decreases |es|
  {
    if Encode(es[0], h).Failure? {
      i := 0;
    } else {
      var k := ListFirstError(es[1..], h);
      i := k + 1;
      assert es[1..][k] == es[i];
      forall j | 0 <= j < i ensures Encode(es[j], h).Success? {
        if j > 0 {
          assert es[1..][j - 1] == es[j];
        }
      }
    }
  }

  /** Writing two lists one after the other is writing their concatenation: an
      error in the first list wins, then an error in the second. */
  lemma {:induction false} ListAppend(a: seq<Value>, b: seq<Value>, h: Hashers)
    ensures EncodeList(a + b, h) ==
      match EncodeList(a, h)
      case Failure(e) => Failure(e)
      case Success(x) =>
        match EncodeList(b, h)
        case Failure(e) => Failure(e)
        case Success(y) => Success(x + y)
    decreases |a|
  {
    if a != [] {
      assert (a + b)[0] == a[0] && (a + b)[1..] == a[1..] + b;
      ListAppend(a[1..], b, h);
      if Encode(a[0], h).Success? && EncodeList(a[1..], h).Success? && EncodeList(b, h).Success? {
        var hd, x, y := Encode(a[0], h).value, EncodeList(a[1..], h).value, EncodeList(b, h).value;
        assert hd + (x + y) == (hd + x) + y;
      }
    } else {
      assert a + b == b;
      if EncodeList(b, h).Success? {
        assert [] + EncodeList(b, h).value == EncodeList(b, h).value;
      }
    }
  }

  /** A list of two values is written as the first value then the second. */
  lemma Pair(x: Value, y: Value, h: Hashers)
    ensures EncodeList([x, y], h) ==
      match Encode(x, h)
      case Failure(e) => Failure(e)
      case Success(xs) =>
        match Encode(y, h)
        case Failure(e) => Failure(e)
        case Success(ys) => Success(xs + ys)
  {
    assert [x, y][0] == x && [x, y][1..] == [y];
    assert [y][0] == y && [y][1..] == [];
    if Encode(y, h).Success? {
      var ys := Encode(y, h).value;
      assert EncodeList([y], h) == Success(ys + []);
      assert ys + [] == ys;
    }
  }

  /** Nesting is not written: a slice of two slices is written like the slice of
      all their elements, and an array like a slice. */
  lemma NestingErased(a: seq<Value>, b: seq<Value>, h: Hashers)
    ensures Encode(Slice([Slice(a), Arr(b)]), h) == Encode(Slice(a + b), h)
    ensures Encode(Arr(a), h) == Encode(Slice(a), h)
  {
    ListValue(a, h);
    ListValue(b, h);
    ListValue(a + b, h);
    ListValue([Slice(a), Arr(b)], h);
    ListAppend(a, b, h);
    Pair(Slice(a), Arr(b), h);
  }

  /** An array and a slice are both written as the list of their elements. */
  lemma ListValue(es: seq<Value>, h: Hashers)
    ensures Encode(Slice(es), h) == EncodeList(es, h)
    ensures Encode(Arr(es), h) == EncodeList(es, h)
  {
  }

  /** Strings are written without a length or a terminator, so only the
      concatenation of adjacent strings is seen. */
  lemma StringsUndelimited(a: seq<byte>, b: seq<byte>, c: seq<byte>, d: seq<byte>, h: Hashers)
    requires a + b == c + d
    ensures Encode(Str(a), h) == Success(a)
    ensures Encode(Slice([Str(a), Str(b)]), h) == Encode(Slice([Str(c), Str(d)]), h)
  {
    Pair(Str(a), Str(b), h);
    Pair(Str(c), Str(d), h);
  }

  /** The slices `["ab", "c"]` and `["a", "bc"]` are written alike. */
  lemma SplitStringsCollide(h: Hashers)
    ensures Encode(Slice([Str([97, 98]), Str([99])]), h) == Encode(Slice([Str([97]), Str([98, 99])]), h)
  {
    StringsUndelimited([97, 98], [99], [97], [98, 99], h);
  }

  /** The values of the fields the walker visits: all but the blank ones. */
  function Visible(fs: seq<Field>): (r: seq<Value>)
    ensures |r| <= |fs|
  {
    if fs == [] then []
    else (if fs[0].name == "_" then [] else [fs[0].value]) + Visible(fs[1..])
  }

  /** A struct is written as the list of its non-blank fields' values. */
  lemma {:induction false} StructAsList(fs: seq<Field>, h: Hashers)
    ensures EncodeFields(fs, h) == EncodeList(Visible(fs), h)
    decreases |fs|
  {
    if fs != [] {
      StructAsList(fs[1..], h);
      var head := if fs[0].name == "_" then [] else [fs[0].value];
      ListAppend(head, Visible(fs[1..]), h);
      if head != [] {
        assert head[1..] == [];
      }
    }
  }

  lemma {:induction false} VisibleAppend(fs: seq<Field>, f: Field)
    ensures Visible(fs + [f]) == Visible(fs) + (if f.name == "_" then [] else [f.value])
    decreases |fs|
  {
    if fs == [] {
      assert fs + [f] == [f];
    } else {
      assert (fs + [f])[1..] == fs[1..] + [f];
      VisibleAppend(fs[1..], f);
    }
  }

  /** Neither the struct's type name nor its field names are written: two
      structs whose non-blank fields hold the same values are written alike,
      whatever their names. */
  lemma NamesIgnored(t1: string, fs1: seq<Field>, t2: string, fs2: seq<Field>, h: Hashers)
    requires Visible(fs1) == Visible(fs2)
    ensures Encode(Struct(t1, fs1), h) == Encode(Struct(t2, fs2), h)
    ensures Encode(Struct(t1, fs1), h) == Encode(Slice(Visible(fs1)), h)
  {
    StructIsList(t1, fs1, h);
    StructIsList(t2, fs2, h);
    assert Encode(Slice(Visible(fs1)), h) == EncodeList(Visible(fs1), h);
  }

  /** One struct is written as the list of its non-blank fields' values. */
  lemma StructIsList(t: string, fs: seq<Field>, h: Hashers)
    ensures Encode(Struct(t, fs), h) == EncodeList(Visible(fs), h)
  {
    assert Encode(Struct(t, fs), h) == EncodeFields(fs, h);
    StructAsList(fs, h);
    assert EncodeFields(fs, h) == EncodeList(Visible(fs), h);
  }

  /** A blank field is never written, whatever it holds; any other field adds
      its value's bytes at the end, which may be none. An error of the struct
      comes before an error of the added field. */
  lemma AddedField(t: string, fs: seq<Field>, f: Field, h: Hashers)
    ensures f.name == "_" ==> Encode(Struct(t, fs + [f]), h) == Encode(Struct(t, fs), h)
    ensures f.name != "_" ==>
      Encode(Struct(t, fs + [f]), h) ==
        (match Encode(Struct(t, fs), h)
         case Failure(e) => Failure(e)
         case Success(x) =>
           match Encode(f.value, h)
           case Failure(e) => Failure(e)
           case Success(y) => Success(x + y))
  {
    StructIsList(t, fs, h);
    StructIsList(t, fs + [f], h);
    VisibleAppend(fs, f);
    if f.name == "_" {
      assert Visible(fs) + [] == Visible(fs);
    } else {
      ListAppend(Visible(fs), [f.value], h);
      SingletonList(f.value, h);
    }
  }

  /** A list of one value is written like the value. */
  lemma SingletonList(x: Value, h: Hashers)
    ensures EncodeList([x], h) == Encode(x, h)
  {
    assert [x][0] == x && [x][1..] == [];
    if Encode(x, h).Success? {
      assert Encode(x, h).value + [] == Encode(x, h).value;
    }
  }

  /** A composite value with nothing in it: an empty string, an empty or nil
      slice, an empty array, an empty or nil map, or a struct without fields. */
  predicate Empty(z: Value)
  {
    z == Str([]) || z == Slice([]) || z == Arr([]) || z == Map([]) || (z.Struct? && z.fields == [])
  }

  /** An empty value writes no bytes. */
  lemma EmptyWritesNothing(z: Value, h: Hashers)
    requires Empty(z)
    ensures Encode(z, h) == Success([])
  {
    if z == Map([]) {
      assert EncodeKeys([], h) == Success([]);
      assert CanonicalOrder([], h).Success?;
    }
  }

  /** A field whose value writes no bytes leaves the struct's bytes unchanged. */
  lemma SilentField(t: string, fs: seq<Field>, f: Field, h: Hashers)
    requires Encode(f.value, h) == Success([])
    ensures Encode(Struct(t, fs + [f]), h) == Encode(Struct(t, fs), h)
  {
    StructIsList(t, fs, h);
    StructIsList(t, fs + [f], h);
    VisibleAppend(fs, f);
    if f.name == "_" {
      assert Visible(fs) + [] == Visible(fs);
    } else {
      ListAppend(Visible(fs), [f.value], h);
      assert [f.value][0] == f.value && [f.value][1..] == [];
      assert EncodeList([f.value][1..], h) == Success([]);
      var none: seq<byte> := [];
      assert EncodeList([f.value], h) == Success(none + none);
      assert none + none == none;
      if EncodeList(Visible(fs), h).Success? {
        assert EncodeList(Visible(fs), h).value + [] == EncodeList(Visible(fs), h).value;
      }
    }
  }

  /** Adding a field that holds an empty value, blank or not, leaves the
      struct's bytes and its hash unchanged, although such a field holds its
      type's zero value. */
  lemma EmptyFieldInvisible(t: string, fs: seq<Field>, name: string, z: Value, hasher: Option<Digest>, h: Hashers)
    requires Empty(z)
    ensures Encode(z, h) == Success([])
    ensures Encode(Struct(t, fs + [Field(name, z)]), h) == Encode(Struct(t, fs), h)
    ensures Hash(Struct(t, fs + [Field(name, z)]), hasher, h) == Hash(Struct(t, fs), hasher, h)
  {
    EmptyWritesNothing(z, h);
    SilentField(t, fs, Field(name, z), h);
  }
}
