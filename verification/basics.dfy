/**
 Go value types the rest of the model is written in: 64-bit signed integers
 with Go's wrap-around, optional values (Go pointers), results with an error
 (Go's `(T, error)` pairs) and slices that distinguish `nil` from empty.
 */
module Basics {

  const MinInt64: int := -0x8000_0000_0000_0000
  const MaxInt64: int := 0x7fff_ffff_ffff_ffff

  /** Go's `int64`. */
  newtype int64 = x: int | -0x8000_0000_0000_0000 <= x <= 0x7fff_ffff_ffff_ffff

  /** Go's `v + 1` on an `int64`: two's-complement wrap-around from the maximum to the minimum. */
  function WrappingIncrement(v: int64): (r: int64)
    ensures (r as int - v as int - 1) % 0x1_0000_0000_0000_0000 == 0
    ensures v as int < MaxInt64 ==> r as int == v as int + 1
    ensures r != v
  {
    if v as int == MaxInt64 then MinInt64 as int64 else v + 1
  }

  /** A Go pointer to a value: `nil` or present. */
  datatype Option<+T> = None | Some(value: T)

  /** A Go `(T, error)` return, usable with `:-`. */
  datatype Result<+T, +E> = Success(value: T) | Failure(error: E) {
    predicate IsFailure() {
      Failure?
    }

    function PropagateFailure<U>(): Result<U, E>
      requires Failure?
    {
      Failure(error)
    }

    function Extract(): T
      requires Success?
    {
      value
    }
  }

  /** A Go slice: `nil` is different from a non-nil slice with no elements. */
  datatype GoSlice<+T> = Nil | Slice(items: seq<T>) {
    /** What `range` iterates over. */
    function Elements(): seq<T> {
      if Nil? then [] else items
    }
  }
}
