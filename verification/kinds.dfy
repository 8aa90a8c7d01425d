/** The kinds of Go's reflection library, in the order the library declares them.
    The order matters: the encoder takes its numeric shortcut for every kind whose
    position lies between `Int` and `Complex64`, bounds included. */
module Kinds {

  datatype Kind =
    | Invalid
    | Bool
    | Int | Int8 | Int16 | Int32 | Int64
    | Uint | Uint8 | Uint16 | Uint32 | Uint64 | Uintptr
    | Float32 | Float64
    | Complex64 | Complex128
    | Array | Chan | Func | Interface | Map | Ptr | Slice | String | Struct
    | UnsafePointer

  /** The position of a kind in the library's enumeration (`Invalid` is 0). */
  function Ordinal(k: Kind): nat
  {
    match k
    case Invalid => 0
    case Bool => 1
    case Int => 2
    case Int8 => 3
    case Int16 => 4
    case Int32 => 5
    case Int64 => 6
    case Uint => 7
    case Uint8 => 8
    case Uint16 => 9
    case Uint32 => 10
    case Uint64 => 11
    case Uintptr => 12
    case Float32 => 13
    case Float64 => 14
    case Complex64 => 15
    case Complex128 => 16
    case Array => 17
    case Chan => 18
    case Func => 19
    case Interface => 20
    case Map => 21
    case Ptr => 22
    case Slice => 23
    case String => 24
    case Struct => 25
    case UnsafePointer => 26
  }

  /** The kinds the encoder writes directly with `binary.Write`. */
  predicate IsNumericShortcut(k: Kind)
  {
    Ordinal(Int) <= Ordinal(k) <= Ordinal(Complex64)
  }

  /** The shortcut covers exactly the integer kinds, `uintptr`, the two float
      kinds and `complex64`; `complex128` lies just past its upper bound. */
  lemma NumericShortcutKinds(k: Kind)
    ensures IsNumericShortcut(k) <==>
      k in {Int, Int8, Int16, Int32, Int64, Uint, Uint8, Uint16, Uint32, Uint64, Uintptr,
            Float32, Float64, Complex64}
    ensures !IsNumericShortcut(Complex128) && !IsNumericShortcut(Bool)
  {
  }
}
