/** The values the hasher walks: a finite tree standing for what Go's reflection
    library exposes of an arbitrary value. Scalars carry their Go type, composite
    values carry their children in the order the reflection library yields them,
    and a struct carries its type name and its fields' names. */
module Values {
  import opened Bytes
  import K = Kinds

  /** The width of a sized integer type; `Native` is Go's `int` / `uint`, which
      is 8 bytes wide on the 64-bit platforms this model assumes. */
  datatype Width = Native | W8 | W16 | W32 | W64

  datatype Value =
    | Nil                                   // an invalid reflect.Value: untyped nil
    | Ptr(target: Value)                    // a pointer; a nil pointer is Ptr(Nil)
    | Iface(inner: Value)                   // an interface; a nil interface is Iface(Nil)
    | Bool(b: bool)
    | Int(iw: Width, i: int)                // int, int8 .. int64
    | Uint(uw: Width, u: int)               // uint, uint8 .. uint64
    | Uintptr(p: int)
    | Float32(bits32: int)                  // IEEE 754 bit pattern
    | Float64(bits64: int)
    | Complex64(re32: int, im32: int)       // bit patterns of both float32 halves
    | Complex128(re64: int, im64: int)
    | Str(bytes: seq<byte>)                 // a Go string is a sequence of bytes
    | Arr(elems: seq<Value>)                // a fixed-length array
    | Slice(elems: seq<Value>)              // a nil slice is Slice([])
    | Struct(typeName: string, fields: seq<Field>)
    | Map(entries: seq<Entry>)              // entries in the (arbitrary) order MapKeys yields them
    | Chan
    | Func
    | UnsafePointer

  datatype Field = Field(name: string, value: Value)

  datatype Entry = Entry(key: Value, val: Value)

  function Size(w: Width): nat
  {
    match w
    case Native => 8
    case W8 => 1
    case W16 => 2
    case W32 => 4
    case W64 => 8
  }

  /** The reflection kind of a value. */
  function KindOf(v: Value): K.Kind
  {
    match v
    case Nil => K.Invalid
    case Ptr(_) => K.Ptr
    case Iface(_) => K.Interface
    case Bool(_) => K.Bool
    case Int(w, _) =>
      (match w
       case Native => K.Int
       case W8 => K.Int8
       case W16 => K.Int16
       case W32 => K.Int32
       case W64 => K.Int64)
    case Uint(w, _) =>
      (match w
       case Native => K.Uint
       case W8 => K.Uint8
       case W16 => K.Uint16
       case W32 => K.Uint32
       case W64 => K.Uint64)
    case Uintptr(_) => K.Uintptr
    case Float32(_) => K.Float32
    case Float64(_) => K.Float64
    case Complex64(_, _) => K.Complex64
    case Complex128(_, _) => K.Complex128
    case Str(_) => K.String
    case Arr(_) => K.Array
    case Slice(_) => K.Slice
    case Struct(_, _) => K.Struct
    case Map(_) => K.Map
    case Chan => K.Chan
    case Func => K.Func
    case UnsafePointer => K.UnsafePointer
  }

  /** A scalar holds a value its Go type can represent. The encoder does not
      need this (it reduces every integer modulo its width, as a Go conversion
      would); the lemmas that read the bytes back do. */
  predicate WellFormed(v: Value)
  {
    match v
    case Int(w, i) => InSignedRange(i, Size(w))
    case Uint(w, u) => InUnsignedRange(u, Size(w))
    case Uintptr(p) => InUnsignedRange(p, 8)
    case Float32(b) => InUnsignedRange(b, 4)
    case Float64(b) => InUnsignedRange(b, 8)
    case Complex64(re, im) => InUnsignedRange(re, 4) && InUnsignedRange(im, 4)
    case Complex128(re, im) => InUnsignedRange(re, 8) && InUnsignedRange(im, 8)
    case _ => true
  }

  /** A `float32` bit pattern is a NaN: all eight exponent bits set and a
      non-zero fraction (section 3.4 of IEEE 754-2008). */
  predicate IsNaN32(b: int)
  {
    (b / 0x80_0000) % 0x100 == 0xFF && b % 0x80_0000 != 0
  }

  /** A `float64` bit pattern is a NaN: all eleven exponent bits set and a
      non-zero fraction. */
  predicate IsNaN64(b: int)
  {
    (b / 0x10_0000_0000_0000) % 0x800 == 0x7FF && b % 0x10_0000_0000_0000 != 0
  }

  /** Go's `v == v` holds. It fails only for a NaN, or for an interface, array
      or struct holding one where Go's equality looks (an interface compares its
      dynamic value, an array every element, a struct every non-blank field; a
      pointer compares its address, not its target). A map can only find an
      entry by a key that is equal to itself. Slices, maps and functions cannot
      be map keys in Go; they are taken to be equal to themselves here. */
  predicate SelfEqual(v: Value)
  {
    match v
    case Float32(b) => !IsNaN32(b)
    case Float64(b) => !IsNaN64(b)
    case Complex64(re, im) => !IsNaN32(re) && !IsNaN32(im)
    case Complex128(re, im) => !IsNaN64(re) && !IsNaN64(im)
    case Iface(i) => SelfEqual(i)
    case Arr(es) => forall i :: 0 <= i < |es| ==> SelfEqual(es[i])
    case Struct(_, fs) => forall i :: 0 <= i < |fs| ==> fs[i].name == "_" || SelfEqual(fs[i].value)
    case _ => true
  }

  /** The scalar rewriting the walker applies after dereferencing: nil becomes
      `int8(0)`, `int` widens to `int64`, `uint` widens to `uint64`, and a bool
      becomes the `int8` 1 or 0. Every other value is left alone. */
  function Normalize(v: Value): (r: Value)
    ensures KindOf(r) !in {K.Invalid, K.Bool, K.Int, K.Uint}
    ensures KindOf(v) !in {K.Invalid, K.Bool, K.Int, K.Uint} ==> r == v
    ensures WellFormed(v) ==> WellFormed(r)
  {
    match v
    case Nil => Int(W8, 0)
    case Int(Native, i) => Int(W64, i)
    case Uint(Native, u) => Uint(W64, u)
    case Bool(b) => Int(W8, if b then 1 else 0)
    case _ => v
  }
}
