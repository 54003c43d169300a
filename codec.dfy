/** Decoding of one 16-byte frame of the logger's wire format:

      offset 0   DE AD        sync header
      offset 2   A (3 bytes)  big-endian, low 20 bits significant, sign bit = bit 19
      offset 5   B (3 bytes)
      offset 8   C (3 bytes)
      offset 11  D (3 bytes)
      offset 14  BE EF        trailer

    The decoder sign-extends each field by shifting it left 12 bits, packing the
    result as an unsigned 32-bit integer, reading it back as a signed 32-bit
    integer and shifting it right 12 bits.  Packing a value of 2^32 or more
    raises an error, so a field whose top nibble is not zero makes decoding fail.
 */
module Codec {

  type byte = b: int | 0 <= b < 256

  const FrameLen: nat := 16
  const Two19: int := 0x8_0000
  const Two20: int := 0x10_0000
  const Two31: int := 0x8000_0000
  const Two32: int := 0x1_0000_0000

  datatype Option<T> = None | Some(value: T)

  /** The four channels of one decoded frame. */
  datatype Sample = Sample(a: int, b: int, c: int, d: int)

  /** What decoding one 16-byte window produces: `Rejected` (the script's
      `None`) for a bad header or trailer, four values, or the error raised
      when packing a shifted field overflows 32 bits. */
  datatype Parsed = Rejected | Decoded(sample: Sample) | PackError

  /** `v` is the 20-bit two's-complement reading of the raw field value `raw`:
      it lies in the signed 20-bit range and agrees with `raw` modulo 2^20. */
  predicate Represents(v: int, raw: int) {
    -Two19 <= v < Two19 && (v - raw) % Two20 == 0
  }

  /** The 24-bit big-endian value of a 3-byte field: `b0 << 16 | b1 << 8 | b2`.
      The three bytes occupy disjoint bits, so the bitwise or is a sum. */
  function Field(b0: byte, b1: byte, b2: byte): (raw: nat)
    ensures raw < 0x100_0000
    ensures raw / 0x1_0000 == b0 && raw / 0x100 % 0x100 == b1 && raw % 0x100 == b2
  {
    var raw := b0 * 0x1_0000 + b1 * 0x100 + b2;
    assert raw == (b0 * 0x100 + b1) * 0x100 + b2;
    assert raw / 0x100 == b0 * 0x100 + b1;
    raw
  }

  /** The raw value of the field that starts at offset `i` of a frame. */
  function RawAt(p: seq<byte>, i: nat): nat
    requires i + 3 <= |p|
  {
    Field(p[i], p[i + 1], p[i + 2])
  }

  /** `struct.pack('I', u)`: an unsigned 32-bit container, or `None` when `u`
      does not fit and packing raises. */
  function PackU32(u: int): Option<int> {
    if 0 <= u < Two32 then Some(u) else None
  }

  /** `struct.unpack('i', …)` of a packed unsigned 32-bit value: the signed
      32-bit integer with the same bits. */
  function AsSigned32(u: int): (r: int)
    requires 0 <= u < Two32
    ensures -Two31 <= r < Two31
    ensures (r - u) % Two32 == 0
  {
    if u < Two31 then u else u - Two32
  }

  /** `x >> 12` on an unbounded integer: an arithmetic shift, i.e. division by
      4096 rounded towards minus infinity (Dafny's `/` with a positive divisor
      rounds the same way). */
  function ShiftRight12(x: int): (r: int)
    ensures r * 4096 <= x < r * 4096 + 4096
  {
    x / 4096
  }

  /** Sign extension of the low 20 bits of `raw`, as one line of lines 26-29
      computes it: shift left 12, pack unsigned, unpack signed, shift right 12. */
  function SignExtend20(raw: nat): (r: Option<int>)
    ensures r.Some? <==> raw < Two20
    ensures r.Some? ==> Represents(r.value, raw)
    ensures r.Some? ==> (r.value < 0 <==> raw / Two19 % 2 == 1)
  {
    match PackU32(raw * 4096)
    case None => None
    case Some(u) =>
      var v := ShiftRight12(AsSigned32(u));
      assert v == if raw < Two19 then raw else raw - Two20 by {
        if raw >= Two19 {
          assert AsSigned32(u) == (raw - Two20) * 4096;
        }
      }
      Some(v)
  }

  /** Header `DE AD` at the front and trailer `BE EF` at the end. */
  predicate Framed(p: seq<byte>)
    requires |p| == FrameLen
  {
    p[0] == 0xDE && p[1] == 0xAD && p[14] == 0xBE && p[15] == 0xEF
  }

  /** Every channel field's top nibble is zero, so the 32-bit pack succeeds. */
  predicate FieldsFit(p: seq<byte>)
    requires |p| == FrameLen
  {
    RawAt(p, 2) < Two20 && RawAt(p, 5) < Two20 && RawAt(p, 8) < Two20 && RawAt(p, 11) < Two20
  }

  /** `parse_packet` on the 16-byte window its only caller passes. */
  function ParsePacket(p: seq<byte>): (r: Parsed)
    requires |p| == FrameLen
    ensures r == Rejected <==> !Framed(p)
    ensures r == PackError <==> Framed(p) && !FieldsFit(p)
    ensures r.Decoded? ==>
      Represents(r.sample.a, RawAt(p, 2)) && Represents(r.sample.b, RawAt(p, 5)) &&
      Represents(r.sample.c, RawAt(p, 8)) && Represents(r.sample.d, RawAt(p, 11))
  {
    if !Framed(p) then Rejected
    else
      match (SignExtend20(RawAt(p, 2)), SignExtend20(RawAt(p, 5)),
             SignExtend20(RawAt(p, 8)), SignExtend20(RawAt(p, 11)))
      case (Some(a), Some(b), Some(c), Some(d)) => Decoded(Sample(a, b, c, d))
      case _ => PackError
  }

  /** A value has at most one 20-bit two's-complement reading of a field. */
  lemma RepresentsUnique(v: int, w: int, raw: int)
    requires Represents(v, raw) && Represents(w, raw)
    ensures v == w
  {
    assert (v - w) % Two20 == 0 by {
      assert v - w == (v - raw) - (w - raw);
    }
  }

  /** The boundaries of the signed 20-bit range. */
  lemma SignBoundaries()
    ensures SignExtend20(0x00001) == Some(1)
    ensures SignExtend20(0x7FFFF) == Some(524287)
    ensures SignExtend20(0x80000) == Some(-524288)
    ensures SignExtend20(0xFFFFF) == Some(-1)
    ensures SignExtend20(0x100000) == None
  {
  }

  /** Packs the low 20 bits of `v` into a 3-byte big-endian field. */
  function EncodeField(v: int): (bs: seq<byte>)
    ensures |bs| == 3
    ensures Field(bs[0], bs[1], bs[2]) == v % Two20
  {
    var m := v % Two20;
    var low := m % 0x1_0000;
    [m / 0x1_0000, low / 0x100, low % 0x100]
  }

  /** The frame that carries `s`: header, the four fields, trailer. */
  function Encode(s: Sample): (p: seq<byte>)
    ensures |p| == FrameLen && Framed(p)
  {
    [0xDE, 0xAD] + EncodeField(s.a) + EncodeField(s.b) + EncodeField(s.c) + EncodeField(s.d)
      + [0xBE, 0xEF]
  }

  predicate InRange20(v: int) {
    -Two19 <= v < Two19
  }

  /** Every sample whose channels lie in the signed 20-bit range is decoded
      back from its encoding. */
  lemma RoundTrip(s: Sample)
    requires InRange20(s.a) && InRange20(s.b) && InRange20(s.c) && InRange20(s.d)
    ensures ParsePacket(Encode(s)) == Decoded(s)
  {
    EncodedFields(s);
    FieldRoundTrip(s.a);
    FieldRoundTrip(s.b);
    FieldRoundTrip(s.c);
    FieldRoundTrip(s.d);
  }

  /** The raw fields of an encoded frame are the low 20 bits of the channels. */
  lemma EncodedFields(s: Sample)
    ensures RawAt(Encode(s), 2) == s.a % Two20 && RawAt(Encode(s), 5) == s.b % Two20
    ensures RawAt(Encode(s), 8) == s.c % Two20 && RawAt(Encode(s), 11) == s.d % Two20
  {
    var p := Encode(s);
    var ea, eb, ec, ed := EncodeField(s.a), EncodeField(s.b), EncodeField(s.c), EncodeField(s.d);
    assert p[2] == ea[0] && p[3] == ea[1] && p[4] == ea[2];
    assert p[5] == eb[0] && p[6] == eb[1] && p[7] == eb[2];
    assert p[8] == ec[0] && p[9] == ec[1] && p[10] == ec[2];
    assert p[11] == ed[0] && p[12] == ed[1] && p[13] == ed[2];
  }

  /** Sign extension undoes the 20-bit masking of an in-range value. */
  lemma FieldRoundTrip(v: int)
    requires InRange20(v)
    ensures SignExtend20(v % Two20) == Some(v)
  {
    var r := SignExtend20(v % Two20);
    assert Represents(v, v % Two20);
    RepresentsUnique(r.value, v, v % Two20);
  }

  /** A field is recovered from the low 20 bits of any value it represents,
      provided its top nibble is zero. */
  lemma EncodeFieldInverts(b0: byte, b1: byte, b2: byte, v: int)
    requires Field(b0, b1, b2) < Two20 && Represents(v, Field(b0, b1, b2))
    ensures EncodeField(v) == [b0, b1, b2]
  {
    var raw := Field(b0, b1, b2);
    assert v % Two20 == raw by {
      assert (v - raw) % Two20 == 0;
      assert v == raw + (v - raw);
    }
  }

  /** Every accepted window is exactly the encoding of the sample decoded from it. */
  lemma EncodeInverts(p: seq<byte>)
    requires |p| == FrameLen && Framed(p) && FieldsFit(p)
    ensures ParsePacket(p).Decoded? && Encode(ParsePacket(p).sample) == p
  {
    var s := ParsePacket(p).sample;
    EncodeFieldInverts(p[2], p[3], p[4], s.a);
    EncodeFieldInverts(p[5], p[6], p[7], s.b);
    EncodeFieldInverts(p[8], p[9], p[10], s.c);
    EncodeFieldInverts(p[11], p[12], p[13], s.d);
    assert Encode(s) == p;
  }

  /** A frame whose first field starts with byte 0x10 makes the 32-bit pack raise. */
  lemma TopNibbleRaises()
    ensures ParsePacket([0xDE, 0xAD, 0x10, 0, 0, 0, 0, 0, 0, 0, 0, 0, 0, 0, 0xBE, 0xEF]) == PackError
  {
  }
}
