/** What the walker writes for a single value that is not a collection: the
    rules for pointers and interfaces, nil, booleans, the integer and float
    kinds, and the kinds it refuses. Each rule about bytes is stated through the
    decoders of module Bytes, so that it says what the bytes mean rather than how
    they are produced. */
module ScalarRules {
  import opened Bytes
  import opened Results
  import K = Kinds
  import opened Values
  import opened Ordering
  import opened Walker

  /** One layer of indirection around a value. */
  datatype Layer = PtrLayer | IfaceLayer

  /** `v` inside the given layers, the first layer outermost. */
  function Wrap(layers: seq<Layer>, v: Value): Value
  {
    if layers == [] then v
    else
      match layers[0]
      case PtrLayer => Ptr(Wrap(layers[1..], v))
      case IfaceLayer => Iface(Wrap(layers[1..], v))
  }

  /** Any number of pointers and interfaces around a value are looked through:
      the walker writes exactly what it writes for the value itself. */
  lemma {:induction false} WrappersTransparent(layers: seq<Layer>, v: Value, h: Hashers)
    ensures Encode(Wrap(layers, v), h) == Encode(v, h)
    decreases |layers|
  {
    if layers != [] {
      WrappersTransparent(layers[1..], v, h);
    }
  }

  /** Nil (an untyped nil, a nil pointer or a nil interface) is written as the
      `int8` zero, which is also what `false` is written as. */
  lemma NilIsZero(layers: seq<Layer>, h: Hashers)
    ensures Encode(Wrap(layers, Nil), h) == Success([0])
    ensures Encode(Wrap(layers, Nil), h) == Encode(Bool(false), h) == Encode(Int(W8, 0), h)
  {
    WrappersTransparent(layers, Nil, h);
    assert LittleEndian(0, 1) == [0];
  }

  /** A boolean is written as the one `int8` byte 1 or 0. */
  lemma BoolAsInt8(b: bool, h: Hashers)
    ensures Encode(Bool(b), h) == Encode(Int(W8, if b then 1 else 0), h)
    ensures Encode(Bool(b), h) == Success([if b then 1 else 0])
  {
    if b {
      assert LittleEndian(1, 1) == [1];
    } else {
      assert LittleEndian(0, 1) == [0];
    }
  }

  /** `int` is hashed as `int64` and `uint` as `uint64`. */
  lemma NativeWidened(i: int, h: Hashers)
    ensures Encode(Int(Native, i), h) == Encode(Int(W64, i), h)
    ensures Encode(Uint(Native, i), h) == Encode(Uint(W64, i), h)
  {
  }

  /** A signed integer is written in exactly as many bytes as its type is wide,
      and those bytes read back, as a two's complement number, to the integer. */
  lemma SignedRoundTripEncoding(w: Width, i: int, h: Hashers)
    requires InSignedRange(i, Size(w))
    ensures Encode(Int(w, i), h).Success?
    ensures |Encode(Int(w, i), h).value| == Size(w)
    ensures ToSigned(FromLittleEndian(Encode(Int(w, i), h).value), Size(w)) == i
  {
    SignedRoundTrip(i, Size(w));
  }

  /** An unsigned integer is written in exactly as many bytes as its type is
      wide, and those bytes read back to the integer. */
  lemma UnsignedRoundTripEncoding(w: Width, u: int, h: Hashers)
    requires InUnsignedRange(u, Size(w))
    ensures Encode(Uint(w, u), h).Success?
    ensures |Encode(Uint(w, u), h).value| == Size(w)
    ensures FromLittleEndian(Encode(Uint(w, u), h).value) == u
  {
    UnsignedRoundTrip(u, Size(w));
  }

  /** A `float32` is written as its 4-byte IEEE 754 bit pattern. */
  lemma Float32RoundTripEncoding(b: int, h: Hashers)
    requires InUnsignedRange(b, 4)
    ensures Encode(Float32(b), h).Success?
    ensures |Encode(Float32(b), h).value| == 4
    ensures FromLittleEndian(Encode(Float32(b), h).value) == b
  {
    UnsignedRoundTrip(b, 4);
  }

  /** A `float64` is written as its 8-byte IEEE 754 bit pattern. */
  lemma Float64RoundTripEncoding(b: int, h: Hashers)
    requires InUnsignedRange(b, 8)
    ensures Encode(Float64(b), h).Success?
    ensures |Encode(Float64(b), h).value| == 8
    ensures FromLittleEndian(Encode(Float64(b), h).value) == b
  {
    UnsignedRoundTrip(b, 8);
  }

  /** A `complex64` is written as the 4-byte bit patterns of its real part then
      its imaginary part. */
  lemma Complex64RoundTripEncoding(re: int, im: int, h: Hashers)
    requires WellFormed(Complex64(re, im))
    ensures Encode(Complex64(re, im), h).Success?
    ensures var bs := Encode(Complex64(re, im), h).value;
      |bs| == 8 && FromLittleEndian(bs[..4]) == re && FromLittleEndian(bs[4..]) == im
  {
    UnsignedRoundTrip(re, 4);
    UnsignedRoundTrip(im, 4);
    var bs := Encode(Complex64(re, im), h).value;
    assert bs == LittleEndian(re, 4) + LittleEndian(im, 4);
    assert bs[..4] == LittleEndian(re, 4) && bs[4..] == LittleEndian(im, 4);
  }

  /** A value that is neither composite nor an indirection. */
  predicate IsScalar(v: Value)
  {
    !(v.Ptr? || v.Iface? || v.Arr? || v.Slice? || v.Struct? || v.Map? || v.Str?)
  }

  /** A scalar cannot be hashed exactly when it is a `complex128`, a channel, a
      function or an unsafe pointer (unknown kinds) or a `uintptr` (which
      `binary.Write` rejects); each of those fails with the error naming its
      kind. */
  lemma ScalarFailures(v: Value, h: Hashers)
    requires IsScalar(v)
    ensures Encode(v, h).Failure? <==> KindOf(v) in {K.Complex128, K.Chan, K.Func, K.UnsafePointer, K.Uintptr}
    ensures KindOf(v) in {K.Complex128, K.Chan, K.Func, K.UnsafePointer} ==>
      Encode(v, h) == Failure(UnknownKind(KindOf(v)))
    ensures v.Uintptr? ==> Encode(v, h) == Failure(InvalidWriteType(K.Uintptr))
  {
    K.NumericShortcutKinds(KindOf(Normalize(v)));
  }

  /** For a value of an unknown kind, `Hash` returns 0 and the error instead of
      a digest, whichever hash function was asked for. */
  lemma HashOfUnknownKind(v: Value, hasher: Option<Digest>, h: Hashers)
    requires KindOf(v) in {K.Complex128, K.Chan, K.Func, K.UnsafePointer}
    ensures Hash(v, hasher, h) == (0, Some(UnknownKind(KindOf(v))))
  {
    ScalarFailures(v, h);
  }
}
