/** Value types shared by the resolver and the frame builder: optional values,
    fallible results, and the fixed-width integers of rallyup. */
module Base {

  /** An optional value (Rust's `Option`). */
  datatype Option<+T> = None | Some(value: T)

  /** A fallible value (Rust's `Result`): `Ok` carries the value, `Err` the error. */
  datatype Result<+T, +E> = Ok(value: T) | Err(error: E)

  /** An octet of a frame or of a hardware address. */
  type byte = bv8

  /** Rust's `u16`: sixteen bits, with Rust's masks and shifts. */
  type u16 = bv16

  /** Rust's `u32`. */
  newtype u32 = x: int | 0 <= x < 0x1_0000_0000

  /** A sequence whose elements are pairwise different. */
  ghost predicate Distinct<T>(s: seq<T>)
  {
    forall i, j :: 0 <= i < j < |s| ==> s[i] != s[j]
  }

  /** The elements of a sequence, as a set. */
  ghost function Elements<T>(s: seq<T>): set<T>
  {
    set x | x in s
  }
}
