/**
 * The byte level of the GDSII stream format (Calma GDSII Stream Format Manual, Release 6.0,
 * "Stream Record Format" and "Data Types"): record framing, big-endian integers, NUL-padded
 * strings and the excess-64 eight-byte real.
 */
module GdsCodec {
  import opened Common

  // ── Record types: the kind in the high byte, the data type tag in the low byte ──

  const HEADER: u16 := 0x0002
  const BGNLIB: u16 := 0x0102
  const LIBNAME: u16 := 0x0206
  const UNITS: u16 := 0x0305
  const ENDLIB: u16 := 0x0400
  const BGNSTR: u16 := 0x0502
  const STRNAME: u16 := 0x0606
  const ENDSTR: u16 := 0x0700
  const BOUNDARY: u16 := 0x0800
  const PATH: u16 := 0x0900
  const SREF: u16 := 0x0A00
  const AREF: u16 := 0x0B00
  const TEXT: u16 := 0x0C00
  const LAYER: u16 := 0x0D02
  const DATATYPE: u16 := 0x0E02
  const WIDTH: u16 := 0x0F03
  const XY: u16 := 0x1003
  const ENDEL: u16 := 0x1100
  const SNAME: u16 := 0x1206
  const NODE: u16 := 0x1500
  const STRANS: u16 := 0x1A01
  const MAG: u16 := 0x1B05
  const ANGLE: u16 := 0x1C05
  const PATHTYPE: u16 := 0x2102
  const BOX: u16 := 0x2D00
  const BOXTYPE: u16 := 0x2E02

  // ── Data type tags ──

  const NO_DATA: byte := 0x00
  const INT16: byte := 0x02
  const INT32: byte := 0x03
  const REAL8: byte := 0x05
  const ASCII: byte := 0x06

  datatype GdsRecord = GdsRecord(recordType: u16, data: seq<byte>) {
    /** The record kind: the high byte of the type. */
    function Kind(): (k: byte)
      ensures recordType == k * 0x100 + DataTypeTag()
    {
      recordType / 0x100
    }

    /** The data type tag: the low byte of the type. */
    function DataTypeTag(): (t: byte)
      ensures t < 0x100 && (recordType - t) % 0x100 == 0
    {
      recordType % 0x100
    }
  }

  /** The record types carry the tag of the payload they hold. */
  lemma RecordTypeTags()
    ensures GdsRecord(XY, []).Kind() == 0x10 && GdsRecord(XY, []).DataTypeTag() == INT32
    ensures GdsRecord(LAYER, []).DataTypeTag() == INT16 && GdsRecord(MAG, []).DataTypeTag() == REAL8
    ensures GdsRecord(STRNAME, []).DataTypeTag() == ASCII && GdsRecord(ENDEL, []).DataTypeTag() == NO_DATA
  {
  }

  datatype GdsError =
    | Io                                           // the stream ended inside a record
    | InvalidRecord(offset: nat)                    // a declared record length below 4, or an empty file
    | UnexpectedRecord(recordType: u16, expected: u16)

  // ── Big-endian unsigned integers ──

  function Pow256(n: nat): (p: nat)
    ensures p >= 1
  {
    if n == 0 then 1 else 0x100 * Pow256(n - 1)
  }

  /** The low `n` bytes of `v`, most significant first. */
  function BeBytes(v: nat, n: nat): (r: seq<byte>)
    ensures |r| == n
  {
    if n == 0 then [] else BeBytes(v / 0x100, n - 1) + [v % 0x100]
  }

  /** The unsigned big-endian value of a byte string. */
  function BeValue(bs: seq<byte>): (v: nat)
    ensures v < Pow256(|bs|)
  {
    if |bs| == 0 then 0
    else
      var init := BeValue(bs[..|bs| - 1]);
      assert init * 0x100 + bs[|bs| - 1] < Pow256(|bs| - 1) * 0x100;
      init * 0x100 + bs[|bs| - 1]
  }

  /** Encoding a value that fits, then decoding, gives the value back. */
  lemma {:induction false} BeValueOfBytes(v: nat, n: nat)
    requires v < Pow256(n)
    ensures BeValue(BeBytes(v, n)) == v
  {
    if n > 0 {
      assert v / 0x100 < Pow256(n - 1);
      BeValueOfBytes(v / 0x100, n - 1);
      assert BeBytes(v, n)[..n - 1] == BeBytes(v / 0x100, n - 1);
    }
  }

  /** Decoding, then encoding at the same width, gives the bytes back. */
  lemma {:induction false} BeBytesOfValue(bs: seq<byte>)
    ensures BeBytes(BeValue(bs), |bs|) == bs
  {
    if |bs| > 0 {
      var init := bs[..|bs| - 1];
      BeBytesOfValue(init);
      assert BeValue(bs) / 0x100 == BeValue(init);
      assert bs == init + [bs[|bs| - 1]];
    }
  }

  // ── Two's complement ──

  /** A signed value as the unsigned value of the same bit pattern, `bound` being 2 to the number of bits. */
  function ToTwos(v: int, bound: nat): int
  {
    if v < 0 then v + bound else v
  }

  /** An unsigned value as the signed value of the same bit pattern. */
  function FromTwos(u: nat, bound: nat): int
  {
    if u >= bound / 2 then u - bound else u
  }

  function I16Bytes(v: i16): (r: seq<byte>)
    ensures |r| == 2
  {
    BeBytes(ToTwos(v, 0x1_0000), 2)
  }

  function I16Of(bs: seq<byte>): (v: i16)
    requires |bs| == 2
  {
    FromTwos(BeValue(bs), 0x1_0000)
  }

  function I32Bytes(v: i32): (r: seq<byte>)
    ensures |r| == 4
  {
    BeBytes(ToTwos(v, 0x1_0000_0000), 4)
  }

  function I32Of(bs: seq<byte>): (v: i32)
    requires |bs| == 4
  {
    FromTwos(BeValue(bs), 0x1_0000_0000)
  }

  lemma I16RoundTrip(v: i16)
    ensures I16Of(I16Bytes(v)) == v
  {
    BeValueOfBytes(ToTwos(v, 0x1_0000), 2);
  }

  lemma I32RoundTrip(v: i32)
    ensures I32Of(I32Bytes(v)) == v
  {
    BeValueOfBytes(ToTwos(v, 0x1_0000_0000), 4);
  }

  // ── Integer payloads ──

  /** The payload read as 16-bit integers; a trailing odd byte is ignored. */
  function I16s(data: seq<byte>): (r: seq<i16>)
    ensures |r| == |data| / 2
  {
    if |data| < 2 then [] else [I16Of(data[..2])] + I16s(data[2..])
  }

  function I16sBytes(vs: seq<i16>): (r: seq<byte>)
    ensures |r| == 2 * |vs|
  {
    if |vs| == 0 then [] else I16Bytes(vs[0]) + I16sBytes(vs[1..])
  }

  /** The payload read as 32-bit integers; a trailing partial chunk is ignored. */
  function I32s(data: seq<byte>): (r: seq<i32>)
    ensures |r| == |data| / 4
  {
    if |data| < 4 then [] else [I32Of(data[..4])] + I32s(data[4..])
  }

  function I32sBytes(vs: seq<i32>): (r: seq<byte>)
    ensures |r| == 4 * |vs|
  {
    if |vs| == 0 then [] else I32Bytes(vs[0]) + I32sBytes(vs[1..])
  }

  lemma {:induction false} I16sRoundTrip(vs: seq<i16>, tail: seq<byte>)
    requires |tail| < 2
    ensures I16s(I16sBytes(vs) + tail) == vs
  {
    if |vs| > 0 {
      var d := I16sBytes(vs) + tail;
      assert d[..2] == I16Bytes(vs[0]);
      assert d[2..] == I16sBytes(vs[1..]) + tail;
      I16RoundTrip(vs[0]);
      I16sRoundTrip(vs[1..], tail);
    }
  }

  lemma {:induction false} I32sRoundTrip(vs: seq<i32>, tail: seq<byte>)
    requires |tail| < 4
    ensures I32s(I32sBytes(vs) + tail) == vs
  {
    if |vs| > 0 {
      var d := I32sBytes(vs) + tail;
      assert d[..4] == I32Bytes(vs[0]);
      assert d[4..] == I32sBytes(vs[1..]) + tail;
      I32RoundTrip(vs[0]);
      I32sRoundTrip(vs[1..], tail);
    }
  }

  // ── Strings ──

  /** The UTF-8 encoding of one character, as `str::bytes` yields it. */
  function Utf8(c: char): (r: seq<byte>)
    ensures 1 <= |r| <= 4
    ensures c as int < 0x80 ==> r == [c as int]
    ensures c as int >= 0x80 ==> forall i :: 0 <= i < |r| ==> r[i] >= 0x80
  {
    var n := c as int;
    if n < 0x80 then [n]
    else if n < 0x800 then [0xC0 + n / 0x40, 0x80 + n % 0x40]
    else if n < 0x1_0000 then [0xE0 + n / 0x1000, 0x80 + (n / 0x40) % 0x40, 0x80 + n % 0x40]
    else [0xF0 + n / 0x4_0000, 0x80 + (n / 0x1000) % 0x40, 0x80 + (n / 0x40) % 0x40, 0x80 + n % 0x40]
  }

  function StringBytes(s: string): (r: seq<byte>)
    ensures |r| >= |s|
  {
    if |s| == 0 then [] else StringBytes(s[..|s| - 1]) + Utf8(s[|s| - 1])
  }

  /** The payload of a string record: the bytes, padded with one NUL to an even length. */
  function PaddedStringBytes(s: string): (r: seq<byte>)
    ensures |r| % 2 == 0
    ensures |r| == |StringBytes(s)| || |r| == |StringBytes(s)| + 1
  {
    var d := StringBytes(s);
    if |d| % 2 != 0 then d + [0] else d
  }

  /** Each byte read as the character with that code. */
  function Latin1(data: seq<byte>): (s: string)
    ensures |s| == |data| && forall i :: 0 <= i < |data| ==> s[i] as int == data[i]
  {
    seq(|data|, i requires 0 <= i < |data| => data[i] as char)
  }

  /** The string without its trailing NUL characters. */
  function TrimNul(s: string): (r: string)
    ensures |r| <= |s| && r == s[..|r|]
    ensures |r| == 0 || r[|r| - 1] != '\0'
    ensures forall i :: |r| <= i < |s| ==> s[i] == '\0'
  {
    if |s| > 0 && s[|s| - 1] == '\0' then TrimNul(s[..|s| - 1]) else s
  }

  /** A string payload: its bytes as characters, trailing NULs stripped. */
  function AsString(data: seq<byte>): string
  {
    TrimNul(Latin1(data))
  }

  predicate IsAscii(s: string)
  {
    forall i :: 0 <= i < |s| ==> s[i] as int < 0x80
  }

  lemma {:induction false} AsciiBytes(s: string)
    requires IsAscii(s)
    ensures Latin1(StringBytes(s)) == s
  {
    if |s| > 0 {
      AsciiBytes(s[..|s| - 1]);
      assert s == s[..|s| - 1] + [s[|s| - 1]];
    }
  }

  /** An ASCII string that does not end in NUL survives writing and reading. */
  lemma StringRoundTrip(s: string)
    requires IsAscii(s)
    requires |s| == 0 || s[|s| - 1] != '\0'
    ensures AsString(PaddedStringBytes(s)) == s
  {
    AsciiBytes(s);
    var d := StringBytes(s);
    if |d| % 2 != 0 {
      assert Latin1(d + [0]) == s + ['\0'];
      assert (s + ['\0'])[..|s|] == s;
    }
  }

  /** A non-ASCII character is written as UTF-8 but read back byte by byte, so it comes back as two characters. */
  lemma NonAsciiStringChanges()
    ensures AsString(PaddedStringBytes("\U{E9}")) == "\U{C3}\U{A9}"
  {
    var e9 := "\U{E9}";
    assert e9[..0] == [] && StringBytes(e9) == StringBytes([]) + Utf8(e9[0]);
    assert Utf8(e9[0]) == [0xC3, 0xA9];
    var chars := Latin1([0xC3, 0xA9]);
    assert chars == "\U{C3}\U{A9}";
    assert TrimNul(chars) == chars;
  }

  // ── The excess-64 eight-byte real ──

  const Two56: nat := 0x100_0000_0000_0000

  /** A real's bytes from its sign, exponent and mantissa: `(exponent + 64) as u8 & 0x7F`, then the low 56 mantissa bits. */
  function PackReal8(negative: bool, exponent: int, mantissa: nat): (r: seq<byte>)
    ensures |r| == 8
  {
    [(if negative then 0x80 else 0) + (exponent + 64) % 0x80] + BeBytes(mantissa % Two56, 7)
  }

  datatype Real8Fields = Real8Fields(negative: bool, exponent: int, mantissa: nat)

  /** The sign bit, the exponent with its bias of 64 removed, and the 56-bit mantissa. */
  function UnpackReal8(bs: seq<byte>): (f: Real8Fields)
    requires |bs| == 8
    ensures -64 <= f.exponent < 64 && f.mantissa < Two56
  {
    assert Pow256(7) == Two56;
    Real8Fields(bs[0] >= 0x80, (bs[0] as int) % 0x80 - 64, BeValue(bs[1..]))
  }

  /** Unpacking recovers the fields whenever they fit the layout. */
  lemma UnpackPack(negative: bool, exponent: int, mantissa: nat)
    requires -64 <= exponent < 64 && mantissa < Two56
    ensures UnpackReal8(PackReal8(negative, exponent, mantissa)) == Real8Fields(negative, exponent, mantissa)
  {
    var r := PackReal8(negative, exponent, mantissa);
    assert r[1..] == BeBytes(mantissa, 7);
    BeValueOfBytes(mantissa, 7);
  }

  /** Every eight bytes are the packing of their own fields. */
  lemma PackUnpack(bs: seq<byte>)
    requires |bs| == 8
    ensures var f := UnpackReal8(bs); PackReal8(f.negative, f.exponent, f.mantissa) == bs
  {
    var f := UnpackReal8(bs);
    BeBytesOfValue(bs[1..]);
    assert f.mantissa % Two56 == f.mantissa;
    assert (f.exponent + 64) % 0x80 == (bs[0] as int) % 0x80;
    assert (if f.negative then 0x80 else 0) + (bs[0] as int) % 0x80 == bs[0];
    assert bs == [bs[0]] + bs[1..];
  }

  const ZeroReal8: seq<byte> := [0, 0, 0, 0, 0, 0, 0, 0]

  /** `x` times 16 to the power `e`, one factor of 16 at a time. */
  function Scale16(x: real, e: int): real
    decreases if e < 0 then -e else e
  {
    if e == 0 then x else if e > 0 then 16.0 * Scale16(x, e - 1) else Scale16(x, e + 1) / 16.0
  }

  /** Scaling by a power of 16 keeps a positive value positive and zero zero. */
  lemma {:induction false} Scale16Sign(x: real, e: int)
    requires x >= 0.0
    ensures x > 0.0 ==> Scale16(x, e) > 0.0
    ensures x == 0.0 ==> Scale16(x, e) == 0.0
    decreases if e < 0 then -e else e
  {
    if e > 0 {
      Scale16Sign(x, e - 1);
    } else if e < 0 {
      Scale16Sign(x, e + 1);
    }
  }

  /** The value of eight bytes read as an excess-64 real (exactly, where the source rounds to a double). */
  function Real8Value(bs: seq<byte>): real
    requires |bs| == 8
  {
    if bs == ZeroReal8 then 0.0
    else
      var f := UnpackReal8(bs);
      var magnitude := Scale16(f.mantissa as real / Two56 as real, f.exponent);
      if f.negative then -magnitude else magnitude
  }

  /** A real is zero exactly when its mantissa is. */
  lemma Real8ZeroIffNoMantissa(bs: seq<byte>)
    requires |bs| == 8
    ensures Real8Value(bs) == 0.0 <==> UnpackReal8(bs).mantissa == 0
    ensures Real8Value(ZeroReal8) == 0.0
  {
    var f := UnpackReal8(bs);
    ZeroBytesValue(7);
    if bs == ZeroReal8 {
      assert bs[1..] == BeBytes(0, 7);
    } else {
      Scale16Sign(f.mantissa as real / Two56 as real, f.exponent);
    }
  }

  lemma {:induction false} ZeroBytesValue(n: nat)
    ensures BeValue(BeBytes(0, n)) == 0
    ensures BeBytes(0, n) == seq(n, i => 0)
  {
    if n > 0 {
      ZeroBytesValue(n - 1);
      assert BeBytes(0, n)[..n - 1] == BeBytes(0, n - 1);
    }
  }

  /** The payload read as eight-byte reals; a trailing partial chunk is ignored. */
  function Real8s(data: seq<byte>): (r: seq<real>)
    ensures |r| == |data| / 8
  {
    if |data| < 8 then [] else [Real8Value(data[..8])] + Real8s(data[8..])
  }

  /** A normalised magnitude: base-16 exponent and integer mantissa, as `f64_to_gds_real8`'s loops find them. */
  datatype Excess64 = Excess64(exponent: int, mantissa: nat)

  /** The bytes written for a real: all zero for 0, otherwise its sign and its normalised magnitude. */
  function RealBytes(v: real, normalise: real -> Excess64): (r: seq<byte>)
    ensures |r| == 8
    ensures v == 0.0 ==> r == ZeroReal8
    ensures v != 0.0 ==> (r[0] >= 0x80 <==> v < 0.0)
  {
    if v == 0.0 then ZeroReal8
    else
      var n := normalise(if v < 0.0 then -v else v);
      PackReal8(v < 0.0, n.exponent, n.mantissa)
  }

  /** One more factor of 16 in the exponent is one more factor of 16 in the value. */
  lemma Scale16Succ(x: real, e: int)
    ensures Scale16(x, e + 1) == 16.0 * Scale16(x, e)
  {
    if e + 1 == 0 {
      assert Scale16(x, -1) == Scale16(x, 0) / 16.0;
    }
  }

  /** A non-negative exponent never makes a non-negative value smaller. */
  lemma {:induction false} Scale16Grows(x: real, j: nat)
    requires x >= 0.0
    ensures Scale16(x, j) >= x
  {
    if j > 0 {
      Scale16Grows(x, j - 1);
    }
  }

  /** A non-positive exponent never makes a non-negative value larger. */
  lemma {:induction false} Scale16Shrinks(x: real, j: int)
    requires x >= 0.0 && j >= 0
    ensures 0.0 <= Scale16(x, -j) <= x
  {
    if j > 0 {
      Scale16Shrinks(x, j - 1);
    }
  }

  /**
   * The first loop of `f64_to_gds_real8`: divide by 16 and raise the exponent while the value is at
   * least 1 and the exponent below 127.
   */
  function ScaleDown(val: real, exponent: int): (r: (real, int))
    ensures r.1 >= exponent && (exponent <= 127 ==> r.1 <= 127)
    ensures r.1 < 127 ==> r.0 < 1.0
    ensures r.1 > exponent ==> r.0 >= 1.0 / 16.0
    decreases 127 - exponent
  {
    if val >= 1.0 && exponent < 127 then ScaleDown(val / 16.0, exponent + 1) else (val, exponent)
  }

  /**
   * The second loop: multiply by 16 and lower the exponent while the value is below 1/16 and the
   * exponent above -64.
   */
  function ScaleUp(val: real, exponent: int): (r: (real, int))
    ensures r.1 <= exponent && (exponent >= -64 ==> r.1 >= -64)
    ensures r.1 > -64 ==> r.0 >= 1.0 / 16.0
    ensures r.1 < exponent ==> r.0 < 1.0
    decreases exponent + 64
  {
    if val < 1.0 / 16.0 && exponent > -64 then ScaleUp(val * 16.0, exponent - 1) else (val, exponent)
  }

  /** The first loop's invariant: the value times 16 to the exponents gained is the value it started from. */
  lemma {:induction false} ScaleDownKeeps(val: real, exponent: int)
    ensures Scale16(ScaleDown(val, exponent).0, ScaleDown(val, exponent).1 - exponent) == val
    decreases 127 - exponent
  {
    if val >= 1.0 && exponent < 127 {
      var r := ScaleDown(val / 16.0, exponent + 1);
      ScaleDownKeeps(val / 16.0, exponent + 1);
      Scale16Succ(r.0, r.1 - exponent - 1);
    }
  }

  /** The second loop's invariant: the value times 16 to the exponents given up is the value it started from. */
  lemma {:induction false} ScaleUpKeeps(val: real, exponent: int)
    ensures Scale16(ScaleUp(val, exponent).0, ScaleUp(val, exponent).1 - exponent) == val
    decreases exponent + 64
  {
    if val < 1.0 / 16.0 && exponent > -64 {
      var r := ScaleUp(val * 16.0, exponent - 1);
      ScaleUpKeeps(val * 16.0, exponent - 1);
      Scale16Succ(r.0, r.1 - exponent);
    }
  }

  /**
   * The normalisation of a positive magnitude by `f64_to_gds_real8`'s two loops, with the exponent
   * starting at `start`, then `(val * 2^56) as u64`. Within the exponent range the loops leave the
   * magnitude equal to the fraction times 16 to the power `exponent - start`.
   */
  function NormaliseFrom(start: int, m: real): (n: Excess64)
    ensures -64 <= start <= 127 ==> -64 <= n.exponent <= 127
    ensures n.mantissa <= 0xFFFF_FFFF_FFFF_FFFF
  {
    var down := ScaleDown(m, start);
    var up := ScaleUp(down.0, down.1);
    Excess64(up.1, RealAsU64(up.0 * Two56 as real))
  }

  /** The program's normalisation: the exponent starts at 1. */
  function SourceNormalise(m: real): Excess64
  {
    NormaliseFrom(1, m)
  }

  /** The normalisation as the loop's own comment intends (a fraction in [1/16, 1)): the exponent starts at 0. */
  function CorrectedNormalise(m: real): Excess64
  {
    NormaliseFrom(0, m)
  }

  /** One pass of the first loop leaves the loop's outcome unchanged; so does stopping. */
  lemma DownStep(val: real, exponent: int)
    ensures val >= 1.0 && exponent < 127 ==> ScaleDown(val, exponent) == ScaleDown(val / 16.0, exponent + 1)
    ensures !(val >= 1.0 && exponent < 127) ==> ScaleDown(val, exponent) == (val, exponent)
  {
  }

  /** One pass of the second loop leaves the loop's outcome unchanged; so does stopping. */
  lemma UpStep(val: real, exponent: int)
    ensures val < 1.0 / 16.0 && exponent > -64 ==> ScaleUp(val, exponent) == ScaleUp(val * 16.0, exponent - 1)
    ensures !(val < 1.0 / 16.0 && exponent > -64) ==> ScaleUp(val, exponent) == (val, exponent)
  {
  }

  /** Where both loops end, the packed fields are the bytes `RealBytes` gives with the program's normalisation. */
  lemma LoopsNormalise(value: real, val: real, exponent: int)
    requires value != 0.0
    requires var down := ScaleDown(if value < 0.0 then -value else value, 1); (val, exponent) == ScaleUp(down.0, down.1)
    ensures PackReal8(value < 0.0, exponent, RealAsU64(val * Two56 as real)) == RealBytes(value, SourceNormalise)
  {
    assert SourceNormalise(if value < 0.0 then -value else value) == Excess64(exponent, RealAsU64(val * Two56 as real));
  }

  /**
   * `f64_to_gds_real8`: all zero for 0; otherwise the sign bit, the two normalising loops from
   * exponent 1, the truncated 56-bit mantissa, and the packed bytes.
   */
  method F64ToGdsReal8(value: real) returns (r: seq<byte>)
    ensures r == RealBytes(value, SourceNormalise)
  {
    if value == 0.0 {
      return ZeroReal8;
    }
    var negative := value < 0.0;
    var val := if negative then -value else value;
    ghost var magnitude := val;
    var exponent := 1;
    while val >= 1.0 && exponent < 127
      invariant exponent <= 127
      invariant ScaleDown(val, exponent) == ScaleDown(magnitude, 1)
      decreases 127 - exponent
    {
      DownStep(val, exponent);
      val := val / 16.0;
      exponent := exponent + 1;
    }
    DownStep(val, exponent);
    ghost var down := ScaleDown(magnitude, 1);
    while val < 1.0 / 16.0 && exponent > -64
      invariant exponent >= -64
      invariant ScaleUp(val, exponent) == ScaleUp(down.0, down.1)
      decreases exponent + 64
    {
      UpStep(val, exponent);
      val := val * 16.0;
      exponent := exponent - 1;
    }
    UpStep(val, exponent);
    var mantissa := RealAsU64(val * Two56 as real);
    LoopsNormalise(value, val, exponent);
    r := PackReal8(negative, exponent, mantissa);
  }

  /** `normalise` finds `m` exactly: an exponent and a non-zero mantissa that fit the layout and read back as `m`. */
  predicate ExactFor(normalise: real -> Excess64, m: real)
  {
    var n := normalise(m);
    -64 <= n.exponent < 64 && 0 < n.mantissa < Two56 && Real8Value(PackReal8(false, n.exponent, n.mantissa)) == m
  }

  /**
   * `m` is `k / 2^56` times 16 to the power `e`, with `k` a 56-bit mantissa whose top hex digit is
   * not zero: its exact excess-64 form. Every double of magnitude between 16^-65 and 16^63 has one.
   */
  predicate HasForm(m: real, e: int, k: nat)
  {
    Two56 / 16 <= k < Two56 && m == Scale16(k as real / Two56 as real, e)
  }

  /** The first loop takes `f` times 16^j down to `f`, gaining `j` in the exponent. */
  lemma {:induction false} DownFrom(f: real, j: nat, exponent: int)
    requires 1.0 / 16.0 <= f < 1.0 && exponent + j <= 127
    ensures ScaleDown(Scale16(f, j), exponent) == (f, exponent + j)
  {
    if j > 0 {
      Scale16Grows(f, j - 1);
      assert Scale16(f, j) / 16.0 == Scale16(f, j - 1);
      DownFrom(f, j - 1, exponent + 1);
    }
  }

  /** The second loop takes `f` times 16^-j up to `f`, giving up `j` in the exponent. */
  lemma {:induction false} UpFrom(f: real, j: int, exponent: int)
    requires 1.0 / 16.0 <= f < 1.0 && j >= 0 && exponent - j >= -64
    ensures ScaleUp(Scale16(f, -j), exponent) == (f, exponent - j)
  {
    if j > 0 {
      Scale16Shrinks(f, j - 1);
      assert Scale16(f, -j) * 16.0 == Scale16(f, -(j - 1));
      UpFrom(f, j - 1, exponent - 1);
    }
  }

  /** A magnitude with an exact form `(e, k)` is normalised to mantissa `k` and exponent `e + start`. */
  lemma NormaliseFromForm(start: int, m: real, e: int, k: nat)
    requires HasForm(m, e, k) && -64 <= e + start <= 127
    ensures NormaliseFrom(start, m) == Excess64(e + start, k)
  {
    var f := k as real / Two56 as real;
    if e >= 0 {
      DownFrom(f, e, start);
    } else {
      Scale16Shrinks(f, -e);
      UpFrom(f, -e, start);
    }
    assert f * Two56 as real == k as real;
  }

  /** Eight bytes packed from a fitting exponent and a non-zero mantissa read back as the mantissa's fraction times 16^exponent. */
  lemma PackedValue(negative: bool, exponent: int, mantissa: nat)
    requires -64 <= exponent < 64 && 0 < mantissa < Two56
    ensures Real8Value(PackReal8(negative, exponent, mantissa))
         == if negative then -Scale16(mantissa as real / Two56 as real, exponent) else Scale16(mantissa as real / Two56 as real, exponent)
  {
    UnpackPack(negative, exponent, mantissa);
    Real8ZeroIffNoMantissa(PackReal8(negative, exponent, mantissa));
  }

  /**
   * As written: a real whose magnitude has an exact form is written with an exponent one too large,
   * so it reads back sixteen times larger, and the program's normalisation is exact for no such value.
   */
  lemma SourceReadsSixteenfold(v: real, e: int, k: nat)
    requires v != 0.0 && HasForm(if v < 0.0 then -v else v, e, k) && -65 <= e < 63
    ensures SourceNormalise(if v < 0.0 then -v else v) == Excess64(e + 1, k)
    ensures Real8Value(RealBytes(v, SourceNormalise)) == 16.0 * v
    ensures !ExactFor(SourceNormalise, if v < 0.0 then -v else v)
  {
    var m := if v < 0.0 then -v else v;
    NormaliseFromForm(1, m, e, k);
    assert RealBytes(v, SourceNormalise) == PackReal8(v < 0.0, e + 1, k);
    PackedValue(v < 0.0, e + 1, k);
    PackedValue(false, e + 1, k);
    Scale16Succ(k as real / Two56 as real, e);
    Scale16Sign(k as real / Two56 as real, e);
  }

  /** 1.0 goes out as 0x42 0x10 0 0 0 0 0 0 and reads back as 16.0. */
  lemma SourceOneExample()
    ensures RealBytes(1.0, SourceNormalise) == [0x42, 0x10, 0, 0, 0, 0, 0, 0]
    ensures Real8Value(RealBytes(1.0, SourceNormalise)) == 16.0
  {
    var k := 0x10_0000_0000_0000;
    assert HasForm(1.0, 1, k) by {
      assert Scale16(1.0 / 16.0, 1) == 16.0 * Scale16(1.0 / 16.0, 0);
    }
    SourceReadsSixteenfold(1.0, 1, k);
    assert RealBytes(1.0, SourceNormalise) == PackReal8(false, 2, k);
    TopDigitBytes();
  }

  /** The mantissa 2^52 is the bytes 0x10 0 0 0 0 0 0. */
  lemma TopDigitBytes()
    ensures PackReal8(false, 2, 0x10_0000_0000_0000) == [0x42, 0x10, 0, 0, 0, 0, 0, 0]
  {
    assert BeBytes(0x10, 1) == [0x10];
    assert BeBytes(0x1000, 2) == [0x10, 0];
    assert BeBytes(0x10_0000, 3) == [0x10, 0, 0];
    assert BeBytes(0x1000_0000, 4) == [0x10, 0, 0, 0];
    assert BeBytes(0x10_0000_0000, 5) == [0x10, 0, 0, 0, 0];
    assert BeBytes(0x1000_0000_0000, 6) == [0x10, 0, 0, 0, 0, 0];
    assert BeBytes(0x10_0000_0000_0000, 7) == [0x10, 0, 0, 0, 0, 0, 0];
  }

  /**
   * Corrected: with the exponent starting at 0, a real whose magnitude has an exact form in the
   * exponent range is found exactly and reads back unchanged; zero always does.
   */
  lemma CorrectedReal8RoundTrip(v: real, e: int, k: nat)
    requires v != 0.0 ==> HasForm(if v < 0.0 then -v else v, e, k) && -64 <= e < 64
    ensures v != 0.0 ==> ExactFor(CorrectedNormalise, if v < 0.0 then -v else v)
    ensures Real8Value(RealBytes(v, CorrectedNormalise)) == v
  {
    Real8ZeroIffNoMantissa(ZeroReal8);
    if v != 0.0 {
      NormaliseFromForm(0, if v < 0.0 then -v else v, e, k);
      assert RealBytes(v, CorrectedNormalise) == PackReal8(v < 0.0, e, k);
      PackedValue(v < 0.0, e, k);
      PackedValue(false, e, k);
    }
  }


  /** 1e-6 has no exact form: the loops leave the fraction 0.065536, four exponents below the start, and truncate its mantissa. */
  lemma MicroNormalised(start: int)
    requires -60 <= start <= 1
    ensures NormaliseFrom(start, 0.000_001) == Excess64(start - 4, 0x10_C6F7_A0B5_ED8D)
  {
    assert ScaleDown(0.000_001, start) == (0.000_001, start);
    assert ScaleUp(0.000_001, start) == ScaleUp(0.000_016, start - 1) == ScaleUp(0.000_256, start - 2)
        == ScaleUp(0.004_096, start - 3) == ScaleUp(0.065_536, start - 4) == (0.065_536, start - 4);
  }

  /** 1e-9 likewise: the fraction 0.268435456, seven exponents below the start. */
  lemma NanoNormalised(start: int)
    requires -57 <= start <= 1
    ensures NormaliseFrom(start, 0.000_000_001) == Excess64(start - 7, 0x44_B82F_A09B_5A52)
  {
    assert ScaleDown(0.000_000_001, start) == (0.000_000_001, start);
    assert ScaleUp(0.000_000_001, start) == ScaleUp(0.000_000_016, start - 1) == ScaleUp(0.000_000_256, start - 2)
        == ScaleUp(0.000_004_096, start - 3) == ScaleUp(0.000_065_536, start - 4) == ScaleUp(0.001_048_576, start - 5)
        == ScaleUp(0.016_777_216, start - 6) == ScaleUp(0.268_435_456, start - 7) == (0.268_435_456, start - 7);
  }

  /** 1e-6 as the program writes it reads back as about 1.6e-5; with the corrected start, as about 1e-6. */
  lemma MicroBack()
    ensures 0.000_015_999_984 <= Real8Value(RealBytes(0.000_001, SourceNormalise)) <= 0.000_016
    ensures 0.000_000_999_999 <= Real8Value(RealBytes(0.000_001, CorrectedNormalise)) <= 0.000_001
  {
    var k := 0x10_C6F7_A0B5_ED8D;
    var f := k as real / Two56 as real;
    MicroNormalised(1);
    MicroNormalised(0);
    PackedValue(false, -3, k);
    PackedValue(false, -4, k);
    assert Scale16(f, -3) == f / 4096.0 && Scale16(f, -4) == f / 65536.0 by {
      assert Scale16(f, -1) == f / 16.0;
      assert Scale16(f, -2) == Scale16(f, -1) / 16.0;
      assert Scale16(f, -3) == Scale16(f, -2) / 16.0;
      assert Scale16(f, -4) == Scale16(f, -3) / 16.0;
    }
  }

  /** 1e-9 as the program writes it reads back as about 1.6e-8; with the corrected start, as about 1e-9. */
  lemma NanoBack()
    ensures 0.000_000_015_999_984 <= Real8Value(RealBytes(0.000_000_001, SourceNormalise)) <= 0.000_000_016
    ensures 0.000_000_000_999_999 <= Real8Value(RealBytes(0.000_000_001, CorrectedNormalise)) <= 0.000_000_001
  {
    var k := 0x44_B82F_A09B_5A52;
    var f := k as real / Two56 as real;
    NanoNormalised(1);
    NanoNormalised(0);
    PackedValue(false, -6, k);
    PackedValue(false, -7, k);
    assert Scale16(f, -6) == f / 16_777_216.0 && Scale16(f, -7) == f / 268_435_456.0 by {
      assert Scale16(f, -1) == f / 16.0;
      assert Scale16(f, -2) == Scale16(f, -1) / 16.0;
      assert Scale16(f, -3) == Scale16(f, -2) / 16.0;
      assert Scale16(f, -4) == Scale16(f, -3) / 16.0;
      assert Scale16(f, -5) == Scale16(f, -4) / 16.0;
      assert Scale16(f, -6) == Scale16(f, -5) / 16.0;
      assert Scale16(f, -7) == Scale16(f, -6) / 16.0;
    }
  }

  /** Setting the sign bit negates the value. */
  lemma Real8Negate(exponent: int, mantissa: nat)
    requires -64 <= exponent < 64 && 0 < mantissa < Two56
    ensures Real8Value(PackReal8(true, exponent, mantissa)) == -Real8Value(PackReal8(false, exponent, mantissa))
  {
    PackedValue(true, exponent, mantissa);
    PackedValue(false, exponent, mantissa);
  }

  function Real8sBytes(vs: seq<real>, normalise: real -> Excess64): (r: seq<byte>)
    ensures |r| == 8 * |vs|
  {
    if |vs| == 0 then [] else RealBytes(vs[0], normalise) + Real8sBytes(vs[1..], normalise)
  }
  /** The payload of a real record: each value's eight bytes from `F64ToGdsReal8`, in turn. */
  method Real8sPayload(values: seq<real>) returns (data: seq<byte>)
    ensures data == Real8sBytes(values, SourceNormalise)
  {
    data := [];
    for i := 0 to |values|
      invariant data == Real8sBytes(values[..i], SourceNormalise)
    {
      var bytes := F64ToGdsReal8(values[i]);
      Real8sBytesSnoc(values[..i], values[i], SourceNormalise);
      assert values[..i + 1] == values[..i] + [values[i]];
      data := data + bytes;
    }
    assert values[..|values|] == values;
  }

  /** Writing one more real appends its eight bytes. */
  lemma {:induction false} Real8sBytesSnoc(vs: seq<real>, v: real, normalise: real -> Excess64)
    ensures Real8sBytes(vs + [v], normalise) == Real8sBytes(vs, normalise) + RealBytes(v, normalise)
  {
    if |vs| > 0 {
      assert (vs + [v])[1..] == vs[1..] + [v];
      Real8sBytesSnoc(vs[1..], v, normalise);
    }
  }


  // ── Record framing ──

  /** A record on the wire: the length including the 4-byte header, truncated to 16 bits, the type, the payload. */
  function RecordBytes(rec: GdsRecord): (r: seq<byte>)
    ensures |r| == 4 + |rec.data|
  {
    BeBytes((|rec.data| + 4) % 0x1_0000, 2) + BeBytes(rec.recordType, 2) + rec.data
  }

  /** What reading one record from position `pos` yields. */
  datatype Step = EndOfStream | Next(rec: GdsRecord, next: nat) | Failed(error: GdsError)

  /**
   * One record read at `pos`. Fewer than two bytes left is a clean end; a declared length below 4
   * is an invalid record (reported at the offset after the length field); a stream that ends
   * inside the header or the payload is an I/O error.
   */
  function NextRecord(s: seq<byte>, pos: nat): (r: Step)
    requires pos <= |s|
    ensures r == EndOfStream <==> pos + 2 > |s|
    ensures pos + 2 <= |s| && BeValue(s[pos..pos + 2]) < 4 ==> r == Failed(InvalidRecord(pos + 2))
    ensures r.Failed? ==> r.error.Io? || r.error.InvalidRecord?
    ensures r.Next? ==> pos < r.next <= |s| && r.next == pos + 4 + |r.rec.data|
  {
    if pos + 2 > |s| then EndOfStream
    else
      var total := BeValue(s[pos..pos + 2]);
      if total < 4 then Failed(InvalidRecord(pos + 2))
      else if pos + total > |s| then Failed(Io)
      else Next(GdsRecord(BeValue(s[pos + 2..pos + 4]), s[pos + 4..pos + total]), pos + total)
  }

  /** A record read is exactly the bytes it spans: writing it back gives them again. */
  lemma NextRecordSpan(s: seq<byte>, pos: nat)
    requires pos <= |s| && NextRecord(s, pos).Next?
    ensures s[pos..NextRecord(s, pos).next] == RecordBytes(NextRecord(s, pos).rec)
  {
    var total := BeValue(s[pos..pos + 2]);
    BeBytesOfValue(s[pos..pos + 2]);
    BeBytesOfValue(s[pos + 2..pos + 4]);
    assert s[pos..pos + total] == s[pos..pos + 2] + s[pos + 2..pos + 4] + s[pos + 4..pos + total];
  }

  /** A record whose payload is short enough for the 16-bit length reads back as itself, whatever follows it. */
  lemma ReadWrittenRecord(prefix: seq<byte>, rec: GdsRecord, rest: seq<byte>)
    requires |rec.data| + 4 <= 0xFFFF
    ensures NextRecord(prefix + RecordBytes(rec) + rest, |prefix|) == Next(rec, |prefix| + 4 + |rec.data|)
  {
    var s := prefix + RecordBytes(rec) + rest;
    var p := |prefix|;
    assert s[p..p + 2] == BeBytes(|rec.data| + 4, 2);
    assert s[p + 2..p + 4] == BeBytes(rec.recordType, 2);
    assert s[p + 4..p + 4 + |rec.data|] == rec.data;
    BeValueOfBytes(|rec.data| + 4, 2);
    BeValueOfBytes(rec.recordType, 2);
  }
}
