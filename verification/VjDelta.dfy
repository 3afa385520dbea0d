/** The number coding and the change mask of VJ.h. */
module VjDelta {
  import opened Bytes

  /** ENCODE: one octet, or a zero octet and the 16-bit number, for a number known to be non-zero. */
  function Encode(n: u16): (e: seq<byte>)
    ensures |e| == 1 || |e| == 3
  {
    if n >= 0x100 then [0, n / 0x100, n % 0x100] else [n]
  }

  /** ENCODEZ: as ENCODE, but zero takes the long form. */
  function EncodeZ(n: u16): (e: seq<byte>)
    ensures |e| == 1 || |e| == 3
  {
    if n >= 0x100 || n == 0 then [0, n / 0x100, n % 0x100] else [n]
  }

  /** The number at the cursor that DECODEL, DECODES and DECODEU all read, and the octets after it. */
  function Decode(s: seq<byte>): (r: (u16, seq<byte>))
    requires |s| >= 3
    ensures |r.1| == |s| - 1 || |r.1| == |s| - 3
    ensures r.1 == s[|s| - |r.1|..]
  {
    if s[0] == 0 then (U16(s, 1), s[3..]) else (s[0], s[1..])
  }

  /** Decoding undoes both encoders and consumes exactly what they wrote. */
  lemma DecodeEncode(n: u16, rest: seq<byte>)
    requires |rest| >= 2
    ensures n != 0 ==> Decode(Encode(n) + rest) == (n, rest)
    ensures Decode(EncodeZ(n) + rest) == (n, rest)
  {
    assert (Encode(n) + rest)[|Encode(n)|..] == rest;
    assert (EncodeZ(n) + rest)[|EncodeZ(n)|..] == rest;
  }

  /** The bits of the first octet of a compressed packet. */
  datatype Mask = Mask(c: bool, i: bool, push: bool, s: bool, a: bool, w: bool, u: bool)

  /** A number with bit `on` below the bits of `high`. */
  function Below(on: bool, high: nat): (v: nat)
    ensures v / 2 == high && (v % 2 == 1 <==> on)
  {
    2 * high + if on then 1 else 0
  }

  /** The four bits under SPECIALS_MASK. */
  function LowBits(m: Mask): (v: nat)
    ensures v < 16
  {
    Below(m.u, Below(m.w, Below(m.a, Below(m.s, 0))))
  }

  function MaskByte(m: Mask): (v: byte)
    ensures v % 16 == LowBits(m)
  {
    LowBits(m) + 16 * Below(m.push, Below(m.i, Below(m.c, 0)))
  }

  function MaskOf(v: byte): (m: Mask) {
    var low, high := v % 16, v / 16;
    Mask(high / 2 / 2 % 2 == 1, high / 2 % 2 == 1, high % 2 == 1,
         low / 2 / 2 / 2 % 2 == 1, low / 2 / 2 % 2 == 1, low / 2 % 2 == 1, low % 2 == 1)
  }

  /** No two change masks share an octet. */
  lemma MaskRoundTrip(m: Mask)
    ensures MaskOf(MaskByte(m)) == m
  {
    assert MaskByte(m) / 16 == Below(m.push, Below(m.i, Below(m.c, 0)));
  }

  /** SPECIAL_I: echoed interactive traffic. */
  predicate IsSpecialI(m: Mask) { m.s && !m.a && m.w && m.u }

  /** SPECIAL_D: unidirectional data. */
  predicate IsSpecialD(m: Mask) { m.s && m.a && m.w && m.u }

  predicate IsSpecial(m: Mask) { IsSpecialI(m) || IsSpecialD(m) }
}
