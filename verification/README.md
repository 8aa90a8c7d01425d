# hashstructure: the walker and the key ordering, in Dafny

This project models the hashing engine of the Go library `hashstructure`
(`hashstructure.go`) and proves properties of the model.

- `Hash(v, opts)` walks an arbitrary Go value and writes bytes into a 64-bit
  hash function. CRC-64 with the ECMA table is the default hash function.
- `walker.visit` does the walk:
  - it looks through any number of pointers and interfaces;
  - it rewrites nil, `int`, `uint` and `bool`;
  - it writes numbers with `binary.Write` in little-endian order;
  - it writes arrays, slices, struct fields and strings in order;
  - it writes a map as key, value, key, value, in an order fixed by `sortValues`.
- `sortValues` gives every map key a digest, which is the CRC-64 of the key's
  bytes.
  - Keys that share a digest are re-digested with FNV-64.
  - The walk fails with "unresolvable hash collision" when a fallback digest is
    already taken.
  - Otherwise the keys are visited in ascending order of digest. That order does
    not depend on the order in which Go's map yields its keys.

The model has these modules:

| file | module | contents |
|---|---|---|
| results.dfy | `Results` | `Option` and `Result`, which stand for Go's `(T, error)` |
| bytes.dfy | `Bytes` | bytes, `u64`, little-endian fixed-width writing and its decoders |
| kinds.dfy | `Kinds` | the kinds of Go's reflection library, in declaration order |
| values.dfy | `Values` | the value tree the walker sees, and the scalar rewriting |
| seqs.dfy | `Seqs` | index lookup, distinctness, counting and permutations of sequences |
| ordering.dfy | `Ordering` | `uint64Slice` sorting, the collision list and `CanonicalOrder`, the declarative key order |
| ordering.dfy | `SortValuesLoop` | `SortValues`, which follows the source loop by loop and is proved equal to `CanonicalOrder` |
| walker.dfy | `Walker` | `Encode` (the walk), `Hash` |
| scalars.dfy | `ScalarRules` | what is written for pointers, nil, booleans and numbers, and which kinds fail |
| composites.dfy | `CompositeRules` | the rules for lists, structs and strings, and the values they make indistinguishable |
| maps.dfy | `MapRules` | map keys and `Hash`; unresolvable keys; independence from iteration order |

Some of the system is abstract:

- The two hash functions are parameters of type `seq<byte> -> u64`. They are
  bundled in `Hashers`. Every property holds for any pair of functions.
- The reflection library is replaced by the datatype `Value`. It carries each
  scalar's Go type, each struct's type name and field names, and each map's
  entries in the order the map yields them.
- Go's `int` and `uint` are taken to be 64 bits wide.

The model follows the code where the code and its documentation differ:

- The doc comment of `Hash` (hashstructure.go:30-31) says that unexported
  struct fields are ignored. The code visits every field except the blank ones
  (named `_`). `CompositeRules.StructAsList` states what the code does.
- No type name and no field name is ever written. So two struct types with the
  same field values hash alike, and so do an array and a slice with the same
  elements (`CompositeRules.NamesIgnored`, `CompositeRules.NestingErased`).
- The doc comment of `Hash` (hashstructure.go:33-34) says that adding an
  exported field holding a zero value changes the hash. The code writes no bytes
  at all for an empty string, slice, array or map, or for a struct without
  fields. A field holding one of those leaves the hash unchanged
  (`CompositeRules.EmptyFieldInvisible`).
- A map entry whose key is not equal to itself (a NaN, or an interface, array
  or struct holding one) cannot be looked up. The walker writes the missing
  value as nil, the byte 0, instead of the entry's value
  (`MapRules.SingleEntry`, `MapRules.NaNKeyValueNotWritten`).
- Field directives (`hash:"ignore"`, `"set"`, `"string"`) and the inclusion hooks
  (`HashInclude`, `HashIncludeMap`) have no implementation in this code. The
  model has none either.
- `complex128` lies just past the numeric shortcut `Int <= k <= Complex64`. It
  therefore fails with "unknown kind to hash".
- `uintptr` lies inside the shortcut, but `binary.Write` rejects it. It
  therefore fails with `binary.Write`'s "invalid type" error. Both cases are
  modelled as written (`ScalarRules.ScalarFailures`).

## Model

| member | source | states |
|---|---|---|
| Walker.Hash | hashstructure.go:36-55 | On failure the result is 0 with the walk's error. Otherwise it is the chosen hash function applied to the walked bytes, with CRC-64 when no hasher is given. |
| ScalarRules.WrappersTransparent | hashstructure.go:64-79 | Any number of pointer and interface layers around a value produce exactly the value's own bytes, or its error. |
| ScalarRules.NilIsZero | hashstructure.go:81-85 | Nil, behind any layers, is written as the one byte 0. That equals what `false` and `int8(0)` write. |
| Values.Normalize | hashstructure.go:81-100 | After the rewriting, no value is invalid, `bool`, `int` or `uint`. Every other kind is left unchanged. The rewriting keeps scalars in their type's range. |
| ScalarRules.NativeWidened | hashstructure.go:89-93 | `int` is written exactly like `int64`, and `uint` exactly like `uint64`. |
| ScalarRules.BoolAsInt8 | hashstructure.go:94-100 | A bool is written like the `int8` 1 or 0, which is the single byte 1 or 0. |
| Kinds.NumericShortcutKinds | hashstructure.go:102-106 | The shortcut range `Int..Complex64` is exactly the integer kinds, `uintptr`, the two float kinds and `complex64`. It contains neither `bool` nor `complex128`. |
| Bytes.LittleEndianRoundTrip | hashstructure.go:104-106 | Reading back the `w` little-endian bytes written for `x` gives `x` modulo 256^w. |
| Bytes.UnsignedRoundTrip | hashstructure.go:104-106 | An unsigned value of `w` bytes reads back exactly. |
| Bytes.SignedRoundTrip | hashstructure.go:104-106 | A signed value of `w` bytes reads back exactly as a two's complement number. |
| ScalarRules.SignedRoundTripEncoding | hashstructure.go:87-106 | A signed integer of any width is written in exactly its width in bytes, and those bytes decode to the integer. |
| ScalarRules.UnsignedRoundTripEncoding | hashstructure.go:87-106 | The same for unsigned integers. |
| ScalarRules.Float32RoundTripEncoding | hashstructure.go:104-106 | A `float32` is written as the 4 bytes of its bit pattern, which decode back to it. |
| ScalarRules.Float64RoundTripEncoding | hashstructure.go:104-106 | A `float64` is written as the 8 bytes of its bit pattern, which decode back to it. |
| ScalarRules.Complex64RoundTripEncoding | hashstructure.go:104-106 | A `complex64` is written as 8 bytes. The first 4 decode to the real part and the last 4 to the imaginary part. |
| ScalarRules.ScalarFailures | hashstructure.go:102-161 | A scalar fails exactly when it is a `complex128`, channel, function, unsafe pointer or `uintptr`. The first four fail with "unknown kind" naming their kind; `uintptr` fails with the write error. |
| ScalarRules.HashOfUnknownKind | hashstructure.go:50-52 | For a value of an unknown kind, `Hash` returns 0 and the "unknown kind" error, whatever hasher was asked for. |
| CompositeRules.ListIsConcatenation | hashstructure.go:110-116 | An array or slice is written exactly when every element is. Its bytes are then the concatenation of the elements' bytes in index order. |
| CompositeRules.ListFirstError | hashstructure.go:110-116 | A failing list fails with the error of its first failing element. Every element before that one was written. |
| CompositeRules.ListAppend | hashstructure.go:148-154 | Writing `a + b` is writing `a` then `b`. An error in `a` takes precedence, then an error in `b`. |
| CompositeRules.Pair | hashstructure.go:148-154 | A two-element slice is written as the first element's bytes followed by the second's. The first element's error takes precedence. |
| CompositeRules.NestingErased | hashstructure.go:110-154 | A slice holding two nested lists is written like the flat slice of their elements. An array is written like a slice. |
| CompositeRules.StringsUndelimited | hashstructure.go:156-158 | A string is written as its raw bytes. Two pairs of strings with the same concatenation are written alike. |
| CompositeRules.SplitStringsCollide | hashstructure.go:156-158 | The slices `["ab","c"]` and `["a","bc"]` are written alike. |
| CompositeRules.StructAsList | hashstructure.go:137-146 | A struct is written as the list of its non-blank fields' values, in declaration order. |
| CompositeRules.VisibleAppend | hashstructure.go:137-146 | Appending a field adds its value to the visited values, unless the field is blank. |
| CompositeRules.NamesIgnored | hashstructure.go:137-146 | Neither the struct's type name nor its field names are written. Structs with equal non-blank field values are written alike, and like a slice of those values. |
| CompositeRules.StructIsList | hashstructure.go:137-146 | A struct value, whatever its type name, is written as the list of its non-blank fields' values. |
| CompositeRules.AddedField | hashstructure.go:137-146 | A blank field added to a struct changes nothing, whatever it holds, even when the struct already fails. Any other added field appends its value's bytes, which may be none at all. The struct's error comes first, then the field's. |
| CompositeRules.SingletonList | hashstructure.go:110-116 | A one-element list is written exactly like its element, error included. |
| CompositeRules.EmptyWritesNothing | hashstructure.go:110-158 | An empty string, slice, array or map, or a struct without fields, writes no bytes. |
| CompositeRules.SilentField | hashstructure.go:137-146 | Adding a field whose value writes no bytes leaves the struct's bytes unchanged. |
| CompositeRules.EmptyFieldInvisible | hashstructure.go:33-34 | Against the doc comment, adding a field that holds an empty value, blank or not, changes neither the struct's bytes nor its hash. |
| Ordering.Insert | hashstructure.go:230-235 | Inserting into an ascending sequence keeps it ascending and adds exactly that element (multiset equality). |
| Ordering.Sort | hashstructure.go:219-220 | `sort.Sort(uint64Slice(ks))` returns an ascending rearrangement of the digests (multiset equality). |
| Ordering.SortDistinct | hashstructure.go:219-220 | Sorting pairwise-distinct digests gives a strictly ascending sequence with the same length and the same elements. |
| Ordering.AscendingUnique | hashstructure.go:219-227 | Two strictly ascending sequences with the same elements are equal, so the sorted order of distinct digests is unique. |
| Ordering.CollisionsExact | hashstructure.go:185-196 | The collision list built by the first loop holds every key that shares its primary digest, each once, and nothing else. |
| Ordering.FirstClashUnresolvable | hashstructure.go:201-216 | The re-digesting loop finds a fallback digest already in the map exactly when some colliding key is unresolvable. The clashing entry is such a key. |
| Ordering.FinalDigestsDistinct | hashstructure.go:201-216 | When no colliding key is unresolvable, the final digests are pairwise distinct. |
| Ordering.IndicesOfPermutation | hashstructure.go:222-227 | Looking up the sorted distinct digests gives a permutation of `0..n-1`, along which the digests strictly ascend. |
| Ordering.CanonicalOrder | hashstructure.go:170-228 | It succeeds exactly when no colliding key is unresolvable. On success it is a permutation of the key indices, strictly ascending in final digest. On failure it names a colliding key whose fallback digest clashes. |
| SortValuesLoop.SortValues | hashstructure.go:170-228 | The source's three loops compute `CanonicalOrder`. |
| SortValuesLoop.ScanStep | hashstructure.go:185-198 | Each branch of the first loop's body extends the collision list and the digest map consistently with the prefix scanned. |
| SortValuesLoop.ScanPrimary | hashstructure.go:175-199 | The first loop computes every primary digest and the collision list. Its map holds each digest, with the index of its only key or -1 once the digest repeats. |
| SortValuesLoop.RehashStep | hashstructure.go:204-215 | The map holds an entry's fallback digest exactly when the entry clashes. A step without a clash keeps the loop invariant. |
| SortValuesLoop.RehashDone | hashstructure.go:201-217 | After the second loop without a clash, the digests are the final ones and the map sends each of them back to its key. |
| SortValuesLoop.Rehash | hashstructure.go:201-217 | The second loop fails with the first clashing entry of the collision list. Otherwise it yields the final digests and a map from each of them back to its key. |
| SortValuesLoop.LookUpSorted | hashstructure.go:219-227 | The last loop maps each sorted digest back to the index of its key. |
| MapRules.KeysElementwise | hashstructure.go:179-183 | The map's keys are encoded exactly when each one is, and then position by position. |
| MapRules.KeyDigestsAreHashes | hashstructure.go:179-207 | The digests `sortValues` orders by are the results of the nested `Hash` calls on each key, with CRC-64 and with FNV-64. |
| MapRules.EqualKeyEncodingsFail | hashstructure.go:201-213 | Two keys written alike make the map fail with an unresolvable collision. |
| MapRules.NilAndFalseKeysCollide | hashstructure.go:81-100 | A map with interface keys `nil` and `false` cannot be hashed. |
| MapRules.CollidingPermute | hashstructure.go:185-196 | Rearranging the keys does not change which keys collide. |
| MapRules.UnresolvablePermute | hashstructure.go:201-216 | Rearranging the keys does not change whether some key is unresolvable. |
| MapRules.CanonicalOrderPermute | hashstructure.go:167-169 | Rearranging the keys rearranges the canonical order the same way. It succeeds for both or for neither, and it visits the same keys in the same sequence. |
| MapRules.KeysFirstError | hashstructure.go:179-183 | When the keys cannot all be written, the error is that of the first key, in iteration order, that cannot be written. Every earlier key was written. |
| MapRules.MapCases | hashstructure.go:118-135 | When a key cannot be written, the map fails with that key's error. When the ordering fails, the map fails with an unresolvable collision naming the key the ordering stopped at. Otherwise its entries are visited in canonical order, key then value. |
| MapRules.VisitSucceeds | hashstructure.go:126-135 | Visiting entries whose keys and values can all be written succeeds. |
| MapRules.MapFailsOnlyByCollision | hashstructure.go:118-135 | When every key and value can be written, the map fails exactly when some colliding key is unresolvable. It then fails with an unresolvable collision naming a colliding key whose fallback digest clashes. |
| MapRules.VisitOne | hashstructure.go:126-135 | One entry is written as its key, then the value the lookup by that key finds. A key not equal to itself finds nothing, and nil is written in its place. |
| MapRules.SingleEntry | hashstructure.go:126-135 | A one-entry map writes its key and then its value. When the key holds a NaN, it writes the key and then the byte 0. |
| MapRules.NaNKeyValueNotWritten | hashstructure.go:128 | `map[float64]string{math.NaN(): "x"}` is written as the NaN's 8 bytes followed by 0. The value "x" is not written. |
| MapRules.VisitSameEntries | hashstructure.go:126-135 | Visiting the same entries in the same sequence writes the same bytes. |
| MapRules.MapOrderIrrelevant | hashstructure.go:118-135 | The order in which the map yields its entries changes neither whether the map can be hashed nor the bytes written for it. |
| MapRules.HashIgnoresMapOrder | hashstructure.go:36-55 | `Hash` of a map returns the same digest and the same success status for every iteration order. |

## Left out

- The reflection library itself (`reflect.Value`, `MapKeys`, `CanSet`) is replaced by the `Value` datatype. A map's entries are a sequence in iteration order; Go's guarantee that keys are distinct is not assumed.
- The reflection panic on `Interface()` for a value read through an unexported field is not modelled. It hits a value of a sized numeric kind (`int8` to `complex64`, or `uintptr`) in such a field (hashstructure.go:106). `int`, `uint`, `bool` and nil are not affected, because lines 83-84 and 90-99 rebuild them with a fresh `reflect.ValueOf` before writing. It also hits every key of a non-empty map reached through such a field, because `sortValues` calls `Interface()` on each key (hashstructure.go:180, 205, 212). The model treats such fields as exported, so it hashes these values, and `MapRules.MapOrderIrrelevant` speaks about such maps.
- The CRC-64 and FNV-64 algorithms are not modelled. They are parameters, so no digest value is computed.
- `io.Writer` errors are not modelled. Writes into an in-memory hasher do not fail. A failed walk's partial output is not modelled either, because `Hash` discards it.
- Floats and complex numbers are opaque bit patterns. Of IEEE 754 only the recognition of NaNs is modelled, because a map cannot look up a key that holds one (`Values.SelfEqual`).
- The mutation of the caller's `opts` (setting the default hasher, `Reset`) and concurrent use of a shared hasher are not modelled.
- Cyclic values are not modelled. `Value` is a finite tree.
- The `len(collision) > 0` guard before the second loop of `sortValues` is not modelled, because that loop does nothing on an empty list.
- `binary.Write` is modelled only for the values the numeric shortcut passes to it.
- errors.go (`ErrNotStringer`) and include.go (`IncludableMap`) are not part of this model. They only declare types that the walker never uses.
