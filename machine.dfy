/**
 * Go's fixed-width integers and the conversions between them, written out
 * over Dafny's unbounded `int`. Go's `int` is taken to be 64 bits wide.
 */
module Machine {

  const TWO_8: int := 0x100
  const TWO_31: int := 0x8000_0000
  const TWO_32: int := 0x1_0000_0000
  const TWO_63: int := 0x8000_0000_0000_0000
  const TWO_64: int := 0x1_0000_0000_0000_0000

  type byte = x: int | 0 <= x < 0x100
  type u32 = x: int | 0 <= x < 0x1_0000_0000
  type i32 = x: int | -0x8000_0000 <= x < 0x8000_0000
  type i64 = x: int | -0x8000_0000_0000_0000 <= x < 0x8000_0000_0000_0000

  /**
   * An instant, as nanoseconds counted from Go's zero `time.Time`
   * (January 1, year 1, UTC), so that the zero value of `time.Time` is 0.
   */
  type Time = int

  const ZeroTime: Time := 0

  /** `t.After(u)`: strictly later. */
  predicate After(t: Time, u: Time) {
    t > u
  }

  /** Go's `uint32(x)` for an integer `x`: keep the low 32 bits. */
  function Uint32Of(x: int): (r: u32)
    ensures (r - x) % TWO_32 == 0
  {
    x % TWO_32
  }

  /** Go's `int32(x)` for an integer `x`: the low 32 bits read as two's complement. */
  function Int32Of(x: int): (r: i32)
    ensures (r - x) % TWO_32 == 0
    ensures -TWO_31 <= x < TWO_31 ==> r == x
  {
    var u := x % TWO_32;
    if u < TWO_31 then u else u - TWO_32
  }

  /** Go's `uint32(d)` for an `int32` value `d`. */
  function U32OfI32(d: i32): (r: u32)
    ensures (r - d) % TWO_32 == 0
  {
    if d < 0 then d + TWO_32 else d
  }

  /** Go's `int32(u)` for a `uint32` value `u`. */
  function I32OfU32(u: u32): (r: i32)
    ensures (r - u) % TWO_32 == 0
  {
    if u < TWO_31 then u else u - TWO_32
  }

  /** The two casts between `int32` and `uint32` undo each other. */
  lemma CastRoundTrip(d: i32, u: u32)
    ensures I32OfU32(U32OfI32(d)) == d
    ensures U32OfI32(I32OfU32(u)) == u
  {
  }

  /** Truncating to 32 bits commutes with adding one, modulo 2^32. */
  lemma Uint32OfSucc(x: int)
    ensures Uint32Of(x + 1) == (Uint32Of(x) + 1) % TWO_32
  {
    var q := x / TWO_32;
    assert x == q * TWO_32 + Uint32Of(x);
    if Uint32Of(x) + 1 < TWO_32 {
      assert x + 1 == q * TWO_32 + (Uint32Of(x) + 1);
    } else {
      assert x + 1 == (q + 1) * TWO_32;
    }
  }
}
