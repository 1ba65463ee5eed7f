/** Small shared vocabulary: optional values, identifiers and fixed-width integers. */
module Common {

  datatype Option<+T> = None | Some(value: T)

  /** Identifiers (`Uuid` in the source) are modelled as naturals; the nil UUID is 0. */
  type Uuid = nat
  const NilUuid: Uuid := 0

  type byte = x: int | 0 <= x < 0x100
  type u16 = x: int | 0 <= x < 0x1_0000
  type u32 = x: int | 0 <= x < 0x1_0000_0000
  type i16 = x: int | -0x8000 <= x < 0x8000
  type i32 = x: int | -0x8000_0000 <= x < 0x8000_0000

  /** `v as i16` for an unsigned 32-bit value: keep the low 16 bits, read them as two's complement. */
  function U32AsI16(v: u32): (r: i16)
    ensures v < 0x8000 ==> r == v
    ensures (r - v) % 0x1_0000 == 0
  {
    var low := v % 0x1_0000;
    if low < 0x8000 then low else low - 0x1_0000
  }

  /** `v as u32` for a signed 16-bit value: sign extension, then read as unsigned. */
  function I16AsU32(v: i16): (r: u32)
    ensures 0 <= v ==> r == v
    ensures v < 0 ==> r == v + 0x1_0000_0000
  {
    if v < 0 then v + 0x1_0000_0000 else v
  }

  /** Truncation of a real toward zero (the rounding of Rust's float-to-integer `as`). */
  function Trunc(x: real): (t: int)
    ensures 0.0 <= x ==> 0 <= t && t as real <= x < t as real + 1.0
    ensures x < 0.0 ==> t <= 0 && t as real - 1.0 < x <= t as real
  {
    if x >= 0.0 then x.Floor else -((-x).Floor)
  }

  /** `x as i32` for a real: truncation toward zero, saturating at the i32 bounds. */
  function RealAsI32(x: real): (r: i32)
    ensures -0x8000_0000 as real <= x <= 0x7FFF_FFFF as real ==> r == Trunc(x)
    ensures x < -0x8000_0000 as real ==> r == -0x8000_0000
    ensures x > 0x7FFF_FFFF as real ==> r == 0x7FFF_FFFF
  {
    var t := Trunc(x);
    if t < -0x8000_0000 then -0x8000_0000
    else if t > 0x7FFF_FFFF then 0x7FFF_FFFF
    else t
  }

  /** `x as u64` for a real: truncation toward zero, saturating at 0 and at the u64 maximum. */
  function RealAsU64(x: real): (r: nat)
    ensures 0.0 <= x < 0x1_0000_0000_0000_0000 as real ==> r == Trunc(x)
    ensures x < 0.0 ==> r == 0
    ensures x >= 0x1_0000_0000_0000_0000 as real ==> r == 0xFFFF_FFFF_FFFF_FFFF
  {
    var t := Trunc(x);
    if t < 0 then 0
    else if t > 0xFFFF_FFFF_FFFF_FFFF then 0xFFFF_FFFF_FFFF_FFFF
    else t
  }

  /** An integral real in the i32 range survives the cast unchanged. */
  lemma IntegralRealAsI32(k: int)
    requires -0x8000_0000 <= k <= 0x7FFF_FFFF
    ensures RealAsI32(k as real) == k
  {
  }
}
