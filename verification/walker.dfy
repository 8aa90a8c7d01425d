/** The walker of hashstructure.go (`walker.visit` and `Hash`).

    The source writes a value's bytes into a hash function as it walks the value.
    Here the walk is the pure function `Encode`, which returns the bytes written
    or the error the walk stops with; `Hash` feeds those bytes to the chosen
    hash function. Nothing of the bytes written before an error matters, because
    `Hash` then discards the hasher's state and returns 0. */
module Walker {
  import opened Bytes
  import opened Results
  import opened Seqs
  import K = Kinds
  import opened Values
  import opened Ordering

  datatype Error =
    | UnknownKind(kind: K.Kind)             // "unknown kind to hash"
    | InvalidWriteType(kind: K.Kind)        // `binary.Write` rejects a type with no fixed size
    | UnresolvableCollision(key: Value)     // "unresolvable hash collision" naming the key

  /** What `binary.Write(w, binary.LittleEndian, x)` writes for the values the
      walker's numeric shortcut hands it: fixed-size integers and floats in
      little-endian order, a `complex64` as its real then its imaginary half.
      `int`, `uint` and `uintptr` have no fixed size and are rejected; the walker
      widens the first two beforehand, but not `uintptr`. */
  function WriteNumeric(v: Value): (r: Result<seq<byte>, Error>)
    requires K.IsNumericShortcut(KindOf(v))
  {
    match v
    case Int(w, i) => if w == Native then Failure(InvalidWriteType(K.Int)) else Success(LittleEndian(i, Size(w)))
    case Uint(w, u) => if w == Native then Failure(InvalidWriteType(K.Uint)) else Success(LittleEndian(u, Size(w)))
    case Uintptr(_) => Failure(InvalidWriteType(K.Uintptr))
    case Float32(b) => Success(LittleEndian(b, 4))
    case Float64(b) => Success(LittleEndian(b, 8))
    case Complex64(re, im) => Success(LittleEndian(re, 4) + LittleEndian(im, 4))
    case _ => Failure(InvalidWriteType(KindOf(v)))
  }

  /** `walker.visit`: the bytes the walker writes for `v`, or the error it
      stops with. Pointers and interfaces are looked through, however deeply
      nested; the composite kinds write their children in order; every other
      value is a scalar, handled by `EncodeScalar`. No type information and no
      field name is ever written. */
  function Encode(v: Value, h: Hashers): (r: Result<seq<byte>, Error>)
    decreases v, 0, 0
  {
    match v
    case Ptr(t) => Encode(t, h)
    case Iface(i) => Encode(i, h)
    case Arr(es) => EncodeList(es, h)
    case Map(entries) => EncodeMap(entries, h)
    case Struct(_, fs) => EncodeFields(fs, h)
    case Slice(es) => EncodeList(es, h)
    case Str(bs) => Success(bs)
    case _ => EncodeScalar(v)
  }

  /** A value that is neither a pointer, an interface nor composite: nil, `int`,
      `uint` and `bool` are rewritten by `Normalize`, the kinds from `Int` to
      `Complex64` go to `binary.Write`, and the rest are unknown kinds. (The
      source tests the numeric range before switching on the composite kinds;
      the two tests never both hold, so their order does not matter.) */
  function EncodeScalar(v: Value): (r: Result<seq<byte>, Error>)
  {
    var n := Normalize(v);
    var k := KindOf(n);
    if K.IsNumericShortcut(k) then WriteNumeric(n) else Failure(UnknownKind(k))
  }

  /** The elements of an array or slice, one after the other; the first element
      that fails stops the walk. */
  function EncodeList(es: seq<Value>, h: Hashers): (r: Result<seq<byte>, Error>)
    decreases es, 0, 0
  {
    if es == [] then Success([])
    else
      var head :- Encode(es[0], h);
      var tail :- EncodeList(es[1..], h);
      Success(head + tail)
  }

  /** The fields of a struct in declaration order, skipping the blank fields
      (named `_`): a blank field can never be set, so the source's test
      `CanSet() || name != "_"` keeps exactly the others. */
  function EncodeFields(fs: seq<Field>, h: Hashers): (r: Result<seq<byte>, Error>)
    decreases fs, 0, 0
  {
    if fs == [] then Success([])
    else
      var head :- if fs[0].name == "_" then Success([]) else Encode(fs[0].value, h);
      var tail :- EncodeFields(fs[1..], h);
      Success(head + tail)
  }

  /** The encoding of every key, in the order the map yields them; the first key
      that cannot be encoded stops the walk (the key's own `Hash` fails). */
  function EncodeKeys(entries: seq<Entry>, h: Hashers): (r: Result<seq<seq<byte>>, Error>)
    ensures r.Success? ==> |r.value| == |entries|
    decreases entries, 1, 0
  {
    if entries == [] then Success([])
    else
      assert entries[0] in entries && entries[0].key < entries[0];
      var head :- Encode(entries[0].key, h);
      var tail :- EncodeKeys(entries[1..], h);
      Success([head] + tail)
  }

  /** A map: the keys are put in canonical order, then each key is written
      followed by its value. */
  function EncodeMap(entries: seq<Entry>, h: Hashers): (r: Result<seq<byte>, Error>)
    decreases entries, 2, 0
  {
    var kbs :- EncodeKeys(entries, h);
    match CanonicalOrder(kbs, h)
    case Failure(c) => Failure(UnresolvableCollision(entries[c].key))
    case Success(order) => EncodeVisit(entries, order, h)
  }

  /** The entries at the positions `order` lists, each as its key's bytes
      followed by its value's bytes. The value is looked up by the key
      (`MapIndex`); a key that is not equal to itself (one holding a NaN) finds
      nothing, and the missing value is written like nil. */
  function EncodeVisit(entries: seq<Entry>, order: seq<int>, h: Hashers): (r: Result<seq<byte>, Error>)
    requires forall i :: 0 <= i < |order| ==> 0 <= order[i] < |entries|
    decreases entries, 1, |order|
  {
    if order == [] then Success([])
    else
      var e := entries[order[0]];
      assert e in entries && e.key < e && e.val < e;
      var kb :- Encode(e.key, h);
      var vb :- if SelfEqual(e.key) then Encode(e.val, h) else EncodeScalar(Nil);
      var rest :- EncodeVisit(entries, order[1..], h);
      Success(kb + vb + rest)
  }

  /** `Hash`: the digest of `v`'s bytes under the chosen hash function, CRC-64
      when none is given, or 0 together with the walk's error. */
  function Hash(v: Value, hasher: Option<Digest>, h: Hashers): (r: (u64, Option<Error>))
    ensures r.1.None? <==> Encode(v, h).Success?
    ensures r.1.Some? ==> r.0 == 0 && r.1.value == Encode(v, h).error
    ensures r.1.None? && hasher.None? ==> r.0 == h.crc64(Encode(v, h).value)
    ensures r.1.None? && hasher.Some? ==> r.0 == hasher.value(Encode(v, h).value)
  {
    match Encode(v, h)
    case Failure(e) => (0, Some(e))
    case Success(bs) => (if hasher.Some? then hasher.value(bs) else h.crc64(bs), None)
  }
}
