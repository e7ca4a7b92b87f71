/** Shared building blocks: optional values, results, and Go's int64 range. */
module Common {

  const MinInt64: int := -0x8000_0000_0000_0000
  const MaxInt64: int := 0x7fff_ffff_ffff_ffff

  /** The values of Go's `int64`; timestamps in milliseconds use this type. */
  type Int64 = x: int | MinInt64 <= x <= MaxInt64

  /** A value that may be absent; stands for a Go pointer that may be nil. */
  datatype Option<+T> = None | Some(value: T)

  /** A value or the error that replaced it; stands for Go's `(T, error)` pair. */
  datatype Result<+T, +E> = Ok(value: T) | Err(error: E)
}
