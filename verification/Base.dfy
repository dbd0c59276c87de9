/** Go's fixed-width integers and byte strings, and the optional value. */
module Base {
  datatype Option<+T> = None | Some(value: T)

  const TWO_31 := 0x8000_0000
  const TWO_32 := 0x1_0000_0000
  const TWO_63 := 0x8000_0000_0000_0000
  const TWO_64 := 0x1_0000_0000_0000_0000

  type byte = x: int | 0 <= x < 0x100
  type uint64 = x: int | 0 <= x < TWO_64

  /** A Go string or byte slice, as a value. */
  type bytes = seq<byte>

  /** No string stands in it twice. */
  predicate Distinct(strings: seq<bytes>) {
    forall i, j :: 0 <= i < j < |strings| ==> strings[i] != strings[j]
  }

  /** `int64(u)`: the same 64 bits read as a signed integer. */
  function ToInt64(u: uint64): int {
    if u < TWO_63 then u else u - TWO_64
  }

  /** `int32(u)`: the low 32 bits read as a signed integer. */
  function ToInt32(u: nat): int {
    if u % TWO_32 < TWO_31 then u % TWO_32 else u % TWO_32 - TWO_32
  }

  /** `uint64(i)`: sign extension of a signed integer. */
  function ToUint64(i: int): uint64 {
    i % TWO_64
  }

  /** The signed sum of two non-negative 64-bit integers is negative exactly when it wraps. */
  predicate Wraps(sum: nat) {
    sum >= TWO_63
  }
}
