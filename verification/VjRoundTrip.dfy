/** One compressed packet through both ends: what the decompressor makes of what the compressor wrote. */
module VjRoundTrip {
  import opened Bytes
  import opened Checksum
  import opened VjDelta
  import opened VjHeader
  import opened VjCompress
  import opened VjUncompress
  import VjReceiver

  /** A transmit slot that has carried a packet; the others are still blank. */
  predicate Used(t: Header) { t[0] % 16 >= 5 }

  /** What every packet that reaches a transmit slot leaves there. */
  ghost predicate SlotInvariant(t: Header) {
    Used(t) ==> Segment(t)
  }

  /** The two ends hold the same header, but for the IP checksum that the receiver zeroes. */
  ghost predicate Agrees(t: Header, s: Saved) {
    && s.hlen == HeaderLen(t)
    && forall k :: 0 <= k < HeaderLen(t) ==> s.hdr[k] == if k == 10 || k == 11 then 0 else t[k]
  }

  // ---- decoding undoes encoding, number by number ----

  function Opt(on: bool, e: seq<byte>): (r: seq<byte>) { if on then e else [] }

  lemma AddNothing(h: Header, at: nat)
    ensures at + 2 <= MAX_HDR ==> AddShort(h, at, 0) == h
    ensures at + 4 <= MAX_HDR ==> AddLong(h, at, 0) == h
  {
    if at + 2 <= MAX_HDR {
      U16Injective(AddShort(h, at, 0), h, at);
    }
    if at + 4 <= MAX_HDR {
      U32Injective(AddLong(h, at, 0), h, at);
    }
  }

  lemma ShortStage(h: Header, at: nat, d: u16, rest: seq<byte>)
    requires at + 2 <= MAX_HDR && |rest| >= 3
    ensures DecodeShort(d != 0, Cursor(h, Opt(d != 0, Encode(d)) + rest), at) == Cursor(AddShort(h, at, d), rest)
  {
    hide AddShort, Encode, Decode;
    DecodeEncode(d, rest);
    assert [] + rest == rest;
    AddNothing(h, at);
  }

  lemma LongStage(h: Header, at: nat, d: u16, rest: seq<byte>)
    requires at + 4 <= MAX_HDR && |rest| >= 3
    ensures DecodeLong(d != 0, Cursor(h, Opt(d != 0, Encode(d)) + rest), at) == Cursor(AddLong(h, at, d), rest)
  {
    hide AddLong, Encode, Decode;
    DecodeEncode(d, rest);
    assert [] + rest == rest;
    AddNothing(h, at);
  }

  /** The header after the urgent field has been dealt with. */
  function WithUrgent(h: Header, o: nat, on: bool, n: u16): (r: Header)
    requires o + 20 <= MAX_HDR
  {
    var g := h[o + 13 := WithUrg(h[o + 13], on)];
    if on then Put16(g, o + 18, n) else g
  }

  lemma UrgentStage(h: Header, o: nat, on: bool, n: u16, rest: seq<byte>)
    requires o + 20 <= MAX_HDR && |rest| >= 3
    ensures DecodeUrgent(on, Cursor(h, Opt(on, EncodeZ(n)) + rest), o) == Cursor(WithUrgent(h, o, on, n), rest)
  {
    hide Put16, WithUrg, EncodeZ, Decode;
    DecodeEncode(n, rest);
    assert [] + rest == rest;
  }

  /** The four fields in the order the receiver expects them. */
  function FourChanges(urg: bool, u: u16, w: u16, a: u16, s: u16): (r: seq<byte>) {
    Opt(urg, EncodeZ(u)) + Opt(w != 0, Encode(w)) + Opt(a != 0, Encode(a)) + Opt(s != 0, Encode(s))
  }

  function Moved(h: Header, o: nat, w: int, a: int, s: int): (r: Header)
    requires o + 20 <= MAX_HDR
  {
    AddLong(AddLong(AddShort(h, o + 14, w), o + 8, a), o + 4, s)
  }

  lemma Regroup(a: seq<byte>, b: seq<byte>, c: seq<byte>, d: seq<byte>, rest: seq<byte>)
    ensures a + b + c + d + rest == a + (b + (c + (d + rest)))
  {
  }

  lemma LongStages(h: Header, o: nat, a: u16, s: u16, rest: seq<byte>)
    requires o + 20 <= MAX_HDR && |rest| >= 3
    ensures var c := Cursor(h, Opt(a != 0, Encode(a)) + (Opt(s != 0, Encode(s)) + rest));
            DecodeLong(s != 0, DecodeLong(a != 0, c, o + 8), o + 4)
            == Cursor(AddLong(AddLong(h, o + 8, a), o + 4, s), rest)
  {
    hide AddLong, Encode, DecodeLong;
    LongStage(h, o + 8, a, Opt(s != 0, Encode(s)) + rest);
    LongStage(AddLong(h, o + 8, a), o + 4, s, rest);
  }

  lemma GeneralStage(hlen: nat, o: nat, m: Mask, h: Header, u: u16, w: u16, a: u16, s: u16, rest: seq<byte>)
    requires o + 20 <= MAX_HDR && |rest| >= 15 && !IsSpecial(m)
    requires m.w == (w != 0) && m.a == (a != 0) && m.s == (s != 0)
    ensures FixTcp(hlen, o, m, Cursor(h, FourChanges(m.u, u, w, a, s) + rest))
            == Cursor(Moved(WithUrgent(h, o, m.u, u), o, w, a, s), rest)
  {
    hide WithUrgent, AddShort, AddLong, Encode, EncodeZ, DecodeUrgent, DecodeShort, DecodeLong, Opt;
    var e2 := Opt(a != 0, Encode(a)) + (Opt(s != 0, Encode(s)) + rest);
    var e1 := Opt(w != 0, Encode(w)) + e2;
    Regroup(Opt(m.u, EncodeZ(u)), Opt(w != 0, Encode(w)), Opt(a != 0, Encode(a)), Opt(s != 0, Encode(s)), rest);
    UrgentStage(h, o, m.u, u, e1);
    var g := WithUrgent(h, o, m.u, u);
    ShortStage(g, o + 14, w, e2);
    LongStages(AddShort(g, o + 14, w), o, a, s, rest);
  }

  // ---- the patched TCP header has the new packet's fields ----

  lemma ShortDelta(x: int, y: u16)
    ensures (x + (y - x) % 0x1_0000) % 0x1_0000 == y
  {
    var k := (y - x) / 0x1_0000;
    assert x + (y - x) % 0x1_0000 == y - 0x1_0000 * k;
  }

  lemma LongDelta(x: int, y: u32)
    ensures (x + (y - x) % 0x1_0000_0000) % 0x1_0000_0000 == y
  {
    var k := (y - x) / 0x1_0000_0000;
    assert x + (y - x) % 0x1_0000_0000 == y - 0x1_0000_0000 * k;
  }

  lemma MovedFacts(h: Header, o: nat, w: int, a: int, s: int)
    requires o + 20 <= MAX_HDR
    ensures var r := Moved(h, o, w, a, s);
            && U16(r, o + 14) == (U16(h, o + 14) + w) % 0x1_0000
            && U32(r, o + 8) == (U32(h, o + 8) + a) % 0x1_0000_0000
            && U32(r, o + 4) == (U32(h, o + 4) + s) % 0x1_0000_0000
            && U16(r, o + 16) == U16(h, o + 16) && U16(r, o + 18) == U16(h, o + 18)
            && (forall k :: 0 <= k < MAX_HDR && !(o + 4 <= k < o + 12) && !(o + 14 <= k < o + 16) ==> r[k] == h[k])
  {
    var x := AddShort(h, o + 14, w);
    var y := AddLong(x, o + 8, a);
    var r := AddLong(y, o + 4, s);
    assert U32(x, o + 8) == U32(h, o + 8);
    assert U32(y, o + 4) == U32(h, o + 4);
  }

  /** `h` has the TCP fields of `p`, the flags apart. */
  ghost predicate TcpFieldsOf(h: Header, o: nat, p: seq<byte>)
    requires o + 20 <= MAX_HDR && HasTcp(p)
  {
    && U32(h, o + 4) == Seq(p) && U32(h, o + 8) == Ack(p)
    && U16(h, o + 14) == Window(p) && U16(h, o + 16) == TcpSum(p) && U16(h, o + 18) == Urgent(p)
  }

  /** The saved header as the compressor knows it, with the new TCP checksum already in place. */
  ghost predicate Begun(h: Header, o: nat, t: Header, p: seq<byte>)
    requires o + 20 <= MAX_HDR && HasTcp(p)
  {
    && U32(h, o + 4) == Seq(t) && U32(h, o + 8) == Ack(t) && U16(h, o + 14) == Window(t)
    && U16(h, o + 16) == TcpSum(p) && U16(h, o + 18) == Urgent(t) && U16(h, 2) == IpLen(t)
  }

  /** Adding the differences to the old values gives the new ones. */
  lemma DeltasLand(t: Header, p: seq<byte>)
    requires HasTcp(p)
    ensures (Window(t) + WindowDelta(t, p)) % 0x1_0000 == Window(p)
    ensures (Ack(t) + AckDelta(t, p)) % 0x1_0000_0000 == Ack(p)
    ensures (Seq(t) + SeqDelta(t, p)) % 0x1_0000_0000 == Seq(p)
  {
    ShortDelta(Window(t), Window(p));
    LongDelta(Ack(t), Ack(p));
    LongDelta(Seq(t), Seq(p));
  }

  lemma WithUrgentFacts(h: Header, o: nat, on: bool, n: u16)
    requires o + 20 <= MAX_HDR
    ensures var g := WithUrgent(h, o, on, n);
            && U32(g, o + 4) == U32(h, o + 4) && U32(g, o + 8) == U32(h, o + 8)
            && U16(g, o + 14) == U16(h, o + 14) && U16(g, o + 16) == U16(h, o + 16)
            && U16(g, o + 18) == (if on then n else U16(h, o + 18)) && g[o + 13] == WithUrg(h[o + 13], on)
  {
  }

  lemma GeneralFields(o: nat, h: Header, t: Header, p: seq<byte>, w: u16, a: u16, s: u16)
    requires 20 <= o && o + 20 <= MAX_HDR && HasTcp(p) && Begun(h, o, t, p)
    requires w == WindowDelta(t, p) && a == AckDelta(t, p) && s == SeqDelta(t, p)
    requires UrgSet(Flags(p)) || Urgent(p) == Urgent(t)
    ensures var r := Moved(WithUrgent(h, o, UrgSet(Flags(p)), Urgent(p)), o, w, a, s);
            TcpFieldsOf(r, o, p) && r[o + 13] == WithUrg(h[o + 13], UrgSet(Flags(p)))
  {
    hide Moved, WithUrgent, WithUrg, WindowDelta, AckDelta, SeqDelta, U16, U32;
    WithUrgentFacts(h, o, UrgSet(Flags(p)), Urgent(p));
    MovedFacts(WithUrgent(h, o, UrgSet(Flags(p)), Urgent(p)), o, w, a, s);
    DeltasLand(t, p);
  }

  lemma SpecialFields(o: nat, h: Header, t: Header, p: seq<byte>, a: int, s: int)
    requires 20 <= o && o + 20 <= MAX_HDR && HasTcp(p) && Begun(h, o, t, p)
    requires Window(p) == Window(t) && Urgent(p) == Urgent(t)
    requires a == AckDelta(t, p) && s == SeqDelta(t, p)
    ensures TcpFieldsOf(Moved(h, o, 0, a, s), o, p) && Moved(h, o, 0, a, s)[o + 13] == h[o + 13]
  {
    hide Moved, WindowDelta, AckDelta, SeqDelta, U16, U32;
    MovedFacts(h, o, 0, a, s);
    DeltasLand(t, p);
  }

  lemma MovedNothing(h: Header, o: nat, s: int)
    requires o + 20 <= MAX_HDR
    ensures Moved(h, o, 0, 0, s) == AddLong(h, o + 4, s)
    ensures Moved(h, o, 0, s, s) == AddLong(AddLong(h, o + 8, s), o + 4, s)
  {
    hide AddShort, AddLong;
    AddNothing(h, o + 14);
    AddNothing(h, o + 8);
  }

  /** The change mask is unambiguous: the low bits are a special code only where that special case was
      chosen, and then the sequence numbers moved by the amount of data last sent. */
  lemma MaskUnambiguous(t: Header, p: seq<byte>)
    requires HasTcp(p) && Changes(t, p).Coded? && Specials(t, p, Changes(t, p)).Coded?
    ensures var q := Specials(t, p, Changes(t, p));
            if IsSpecial(q.mask) then
              && q.deltas == [] && Window(p) == Window(t) && Urgent(p) == Urgent(t) && !UrgSet(Flags(p))
              && SeqDelta(t, p) == IpLen(t) - HeaderLen(p)
              && AckDelta(t, p) == if IsSpecialI(q.mask) then SeqDelta(t, p) else 0
            else
              && SeqDelta(t, p) < 0x1_0000 && AckDelta(t, p) < 0x1_0000
              && q.mask == Mask(false, false, false, SeqDelta(t, p) != 0, AckDelta(t, p) != 0,
                                WindowDelta(t, p) != 0, UrgSet(Flags(p)))
              && q.deltas == FourChanges(q.mask.u, Urgent(p), WindowDelta(t, p), AckDelta(t, p), SeqDelta(t, p))
              && (UrgSet(Flags(p)) || Urgent(p) == Urgent(t))
  {
    hide Encode, EncodeZ, U16, U32, UrgSet;
    ShortDelta(Window(t), Window(p));
    var c := Changes(t, p);
    assert c.deltas == FourChanges(c.mask.u, Urgent(p), WindowDelta(t, p), AckDelta(t, p), SeqDelta(t, p));
    assert WindowDelta(t, p) == 0 ==> Window(p) == Window(t);
  }

  lemma SpecialStage(t: Header, p: seq<byte>, hlen: nat, m: Mask, h: Header, rest: seq<byte>)
    requires HasTcp(p) && hlen == HeaderLen(p) && TcpAt(p) >= 20
    requires IsSpecial(m) && Window(p) == Window(t) && Urgent(p) == Urgent(t)
    requires SeqDelta(t, p) == IpLen(t) - HeaderLen(p)
    requires AckDelta(t, p) == if IsSpecialI(m) then SeqDelta(t, p) else 0
    requires Begun(h, TcpAt(p), t, p) && |rest| >= 15
    ensures var c := FixTcp(hlen, TcpAt(p), m, Cursor(h, rest));
            && c.rest == rest && TcpFieldsOf(c.h, TcpAt(p), p) && c.h[TcpAt(p) + 13] == h[TcpAt(p) + 13]
  {
    hide SeqDelta, AckDelta, WindowDelta, Moved, AddLong;
    MovedNothing(h, TcpAt(p), SeqDelta(t, p));
    SpecialFields(TcpAt(p), h, t, p, AckDelta(t, p), SeqDelta(t, p));
  }

  lemma ChangesStage(t: Header, p: seq<byte>, hlen: nat, m: Mask, h: Header, rest: seq<byte>)
    requires HasTcp(p) && TcpAt(p) >= 20 && !IsSpecial(m)
    requires SeqDelta(t, p) < 0x1_0000 && AckDelta(t, p) < 0x1_0000 && (m.u || Urgent(p) == Urgent(t))
    requires m.s == (SeqDelta(t, p) != 0) && m.a == (AckDelta(t, p) != 0) && m.w == (WindowDelta(t, p) != 0)
    requires m.u == UrgSet(Flags(p))
    requires Begun(h, TcpAt(p), t, p) && |rest| >= 15
    ensures var e := FourChanges(m.u, Urgent(p), WindowDelta(t, p), AckDelta(t, p), SeqDelta(t, p));
            var c := FixTcp(hlen, TcpAt(p), m, Cursor(h, e + rest));
            && c.rest == rest && TcpFieldsOf(c.h, TcpAt(p), p)
            && c.h[TcpAt(p) + 13] == WithUrg(h[TcpAt(p) + 13], m.u)
  {
    hide SeqDelta, AckDelta, WindowDelta, Moved, AddLong, FixTcp, FourChanges, WithUrgent, WithUrg;
    hide Begun, TcpFieldsOf, IsSpecial, UrgSet;
    var w, a, s := WindowDelta(t, p), AckDelta(t, p), SeqDelta(t, p);
    GeneralStage(hlen, TcpAt(p), m, h, Urgent(p), w, a, s, rest);
    GeneralFields(TcpAt(p), h, t, p, w, a, s);
  }

  /** Decoding the four changes, or undoing the special code, yields exactly the new packet's fields
      and reads exactly what was written. */
  lemma TcpStage(t: Header, p: seq<byte>, hlen: nat, m: Mask, h: Header, rest: seq<byte>)
    requires HasTcp(p) && hlen == HeaderLen(p) && TcpAt(p) >= 20
    requires Changes(t, p).Coded? && Specials(t, p, Changes(t, p)).Coded?
    requires var q := Specials(t, p, Changes(t, p)).mask;
             m.s == q.s && m.a == q.a && m.w == q.w && m.u == q.u
    requires Begun(h, TcpAt(p), t, p) && |rest| >= 15
    ensures var c := FixTcp(hlen, TcpAt(p), m, Cursor(h, Specials(t, p, Changes(t, p)).deltas + rest));
            && c.rest == rest && TcpFieldsOf(c.h, TcpAt(p), p)
            && c.h[TcpAt(p) + 13] == if IsSpecial(m) then h[TcpAt(p) + 13]
                                     else WithUrg(h[TcpAt(p) + 13], UrgSet(Flags(p)))
  {
    MaskUnambiguous(t, p);
    if IsSpecial(m) {
      assert [] + rest == rest;
      SpecialStage(t, p, hlen, m, h, rest);
    } else {
      ChangesStage(t, p, hlen, m, h, rest);
    }
  }

  lemma IdStage(m: Mask, g: Header, x: u16, rest: seq<byte>)
    requires |rest| >= 3 && m.i == (x - U16(g, 4) != 1)
    ensures var c := FixId(m, Cursor(g, Opt(m.i, EncodeZ((x - U16(g, 4)) % 0x1_0000)) + rest));
            && c.rest == rest && U16(c.h, 4) == x
            && (forall k :: 0 <= k < MAX_HDR && k != 4 && k != 5 ==> c.h[k] == g[k])
  {
    hide EncodeZ, Decode, U16;
    var d := (x - U16(g, 4)) % 0x1_0000;
    DecodeEncode(d, rest);
    assert [] + rest == rest;
    ShortDelta(U16(g, 4), x);
  }

  // ---- the whole patched header ----

  /** Outside the fields that are coded, `p` and the header it is coded against are the same. */
  lemma SameShapeBytes(t: Header, p: seq<byte>, k: nat)
    requires Segment(p) && SameShape(t, p) && Key(t) == Key(p)
    requires k < HeaderLen(p) && !VjReceiver.Written(TcpAt(p), k) && k !in {2, 3, 10, 11, TcpAt(p) + 12}
    ensures t[k] == p[k]
  {
    var o := TcpAt(p);
    if k < 2 { U16Injective(p, t, 0); }
    else if k < 8 { U16Injective(p, t, 6); }
    else if k < 10 { U16Injective(p, t, 8); }
    else if k < 16 { U32Injective(p, t, 12); }
    else if k < 20 { U32Injective(p, t, 16); }
    else if k < o { assert p[20..o][k - 20] == t[20..o][k - 20]; }
    else if k < o + 4 { U16Injective(p, t, 0); U32Injective(p, t, o); }
    else { assert p[o + 20..HeaderLen(p)][k - o - 20] == t[o + 20..HeaderLen(p)][k - o - 20]; }
  }

  /** The flags octet the receiver ends up with. */
  ghost predicate FlagsAfter(f: byte, t: Header, p: seq<byte>, m: Mask)
    requires HasTcp(p)
  {
    && PlainAck(f) && PushSet(f) == PushSet(Flags(p)) && TopBits(f) == TopBits(Flags(t))
    && UrgSet(f) == if IsSpecial(m) then UrgSet(Flags(t)) else UrgSet(Flags(p))
  }

  /** The saved header after a compressed packet: that of `p`, except for what is not sent. */
  ghost predicate Patched(h: Header, t: Header, p: seq<byte>, m: Mask)
    requires Segment(p)
  {
    var o := TcpAt(p);
    && (forall k :: 0 <= k < HeaderLen(p) && k !in {2, 3, 10, 11, o + 12, o + 13} ==> h[k] == p[k])
    && h[10] == 0 && h[11] == 0 && h[o + 12] == t[o + 12] && FlagsAfter(h[o + 13], t, p, m)
  }

  lemma BeginStage(t: Header, p: seq<byte>, slot: Saved, m: Mask)
    requires Segment(t) && Agrees(t, slot) && HasTcp(p) && TcpAt(p) == TcpAt(t)
    ensures var h := Begin(slot.hdr, TcpAt(p), m, TcpSum(p));
            && TcpAt(slot.hdr) == TcpAt(p) && Begun(h, TcpAt(p), t, p)
            && h[TcpAt(p) + 13] == WithPush(Flags(t), m.push) && U16(h, 4) == IpId(t)
  {
    hide WithPush;
    var h := Begin(slot.hdr, TcpAt(p), m, TcpSum(p));
    assert slot.hdr[0] == t[0];
  }

  /** `p` is coded against `t` as mask `m`, connection bit apart, and `deltas`. */
  ghost predicate CodedAs(t: Header, p: seq<byte>, m: Mask, deltas: seq<byte>) {
    && Segment(t) && Segment(p) && Key(t) == Key(p) && Code(t, p) == Coded(m.(c := false), deltas)
  }

  lemma CodeParts(t: Header, p: seq<byte>, m: Mask, deltas: seq<byte>)
    requires CodedAs(t, p, m, deltas)
    ensures TcpAt(t) == TcpAt(p) && HeaderLen(t) == HeaderLen(p)
    ensures Changes(t, p).Coded? && Specials(t, p, Changes(t, p)).Coded?
    ensures var q := Specials(t, p, Changes(t, p));
            && m == q.mask.(c := m.c, i := IpId(p) - IpId(t) != 1, push := PushSet(Flags(p)))
            && deltas == q.deltas + Opt(m.i, EncodeZ(IdDelta(t, p)))
  {
    hide Changes, Specials, EncodeZ;
    U16Injective(p, t, 0);
  }

  lemma FlagsStage(t: Header, p: seq<byte>, m: Mask, f: byte)
    requires Segment(t) && HasTcp(p) && m.push == PushSet(Flags(p))
    requires var b := WithPush(Flags(t), m.push);
             f == if IsSpecial(m) then b else WithUrg(b, UrgSet(Flags(p)))
    ensures FlagsAfter(f, t, p, m)
  {
    hide PushSet, UrgSet, TopBits, PlainAck, WithPush, WithUrg;
  }

  lemma IdKeeps(m: Mask, g: Header, x: u16, rest: seq<byte>, p: seq<byte>)
    requires |rest| >= 3 && m.i == (x - U16(g, 4) != 1) && Segment(p) && TcpFieldsOf(g, TcpAt(p), p)
    ensures var c := FixId(m, Cursor(g, Opt(m.i, EncodeZ((x - U16(g, 4)) % 0x1_0000)) + rest));
            TcpFieldsOf(c.h, TcpAt(p), p) && c.h[TcpAt(p) + 13] == g[TcpAt(p) + 13]
  {
    hide FixId, EncodeZ;
    IdStage(m, g, x, rest);
  }

  /** All fields that are sent arrive, and the octets read are exactly those written. */
  lemma FieldStage(t: Header, p: seq<byte>, slot: Saved, m: Mask, deltas: seq<byte>, rest: seq<byte>)
    requires CodedAs(t, p, m, deltas) && Agrees(t, slot) && |rest| >= 18
    ensures var c := Patch(slot, m, SumAndDeltas(TcpSum(p), deltas) + rest);
            && c.rest == rest && TcpAt(slot.hdr) == TcpAt(p)
            && TcpFieldsOf(c.h, TcpAt(p), p) && U16(c.h, 4) == IpId(p)
            && FlagsAfter(c.h[TcpAt(p) + 13], t, p, m)
  {
    hide Begin, FixTcp, FixId, EncodeZ, Changes, Specials, U32, WithPush, WithUrg, Code, Begun, FlagsAfter, IsSpecial;
    var o := TcpAt(p);
    CodeParts(t, p, m, deltas);
    var q := Specials(t, p, Changes(t, p));
    var idPart := Opt(m.i, EncodeZ(IdDelta(t, p))) + rest;
    var s := SumAndDeltas(TcpSum(p), deltas) + rest;
    assert s[2..] == q.deltas + idPart;
    assert U16(s, 0) == TcpSum(p);
    BeginStage(t, p, slot, m);
    var h := Begin(slot.hdr, o, m, TcpSum(p));
    TcpStage(t, p, slot.hlen, m, h, idPart);
    var g := FixTcp(slot.hlen, o, m, Cursor(h, q.deltas + idPart)).h;
    VjReceiver.FixTcpIdFrame(slot.hlen, o, m, Cursor(h, q.deltas + idPart));
    FlagsStage(t, p, m, g[o + 13]);
    IdStage(m, g, IpId(p), rest);
    IdKeeps(m, g, IpId(p), rest, p);
  }

  lemma SentBytes(h: Header, p: seq<byte>, k: nat)
    requires Segment(p) && TcpFieldsOf(h, TcpAt(p), p) && U16(h, 4) == IpId(p)
    requires k < HeaderLen(p) && VjReceiver.Written(TcpAt(p), k) && k != TcpAt(p) + 13
    ensures h[k] == p[k]
  {
    var o := TcpAt(p);
    if k < 6 { U16Injective(h, p, 4); }
    else if k < o + 8 { U32Injective(h, p, o + 4); }
    else if k < o + 12 { U32Injective(h, p, o + 8); }
    else if k < o + 16 { U16Injective(h, p, o + 14); }
    else if k < o + 18 { U16Injective(h, p, o + 16); }
    else { U16Injective(h, p, o + 18); }
  }

  lemma ShapeOfCode(t: Header, p: seq<byte>, m: Mask, deltas: seq<byte>)
    requires CodedAs(t, p, m, deltas)
    ensures SameShape(t, p)
  {
  }

  /** From slots that agree, the receiver's patched header is the new packet's, except for what the
      coding neither sends nor compares, and the octets read are exactly those written. */
  lemma PatchStage(t: Header, p: seq<byte>, slot: Saved, m: Mask, deltas: seq<byte>, rest: seq<byte>)
    requires CodedAs(t, p, m, deltas) && Agrees(t, slot) && |rest| >= 18
    ensures var c := Patch(slot, m, SumAndDeltas(TcpSum(p), deltas) + rest);
            c.rest == rest && Patched(c.h, t, p, m)
    ensures TcpAt(t) == TcpAt(p) && HeaderLen(t) == HeaderLen(p)
  {
    hide Patch, Code, TcpFieldsOf, FlagsAfter, Key;
    var o := TcpAt(p);
    var s := SumAndDeltas(TcpSum(p), deltas) + rest;
    CodeParts(t, p, m, deltas);
    FieldStage(t, p, slot, m, deltas, rest);
    var h := Patch(slot, m, s).h;
    forall k | 0 <= k < HeaderLen(p) && k !in {2, 3, 10, 11, o + 12, o + 13} ensures h[k] == p[k] {
      if VjReceiver.Written(o, k) {
        SentBytes(h, p, k);
      } else {
        VjReceiver.PatchFrame(slot, m, s, k);
        ShapeOfCode(t, p, m, deltas);
        SameShapeBytes(t, p, k);
      }
    }
    VjReceiver.PatchFrame(slot, m, s, 10);
    VjReceiver.PatchFrame(slot, m, s, 11);
    VjReceiver.PatchFrame(slot, m, s, o + 12);
  }

  // ---- the rebuilt packet ----

  /** What the coding takes for granted: the length field is right, what is neither compared nor sent has
      not changed, a special code does not meet a stored URG, and the IP checksum is the canonical one. */
  predicate Carried(t: Header, p: seq<byte>, m: Mask)
    requires Segment(p) && HasTcp(t)
  {
    && IpLen(p) == |p|
    && Unused(p) == Unused(t) && TopBits(Flags(p)) == TopBits(Flags(t))
    && (IsSpecial(m) ==> !UrgSet(Flags(t)))
    && ChecksumOf(p[..TcpAt(p)]) == 0 && Field(p, 10) != 0xffff
  }

  /** Everything but the length limit of 1520 octets. */
  predicate Faithful(t: Header, p: seq<byte>, m: Mask)
    requires Segment(p) && HasTcp(t)
  {
    |p| <= 1520 && Carried(t, p, m)
  }

  /** What the decompressor makes of `p`, faithful or not: the packet with its true length, a good header
      checksum, the reserved bits and the flags above URG as they were in `t`, and so is URG itself after
      a special code. */
  ghost predicate HandedOn(out: seq<byte>, t: Header, p: seq<byte>, m: Mask)
    requires Segment(p) && HasTcp(t)
  {
    var o := TcpAt(p);
    && |out| == |p| && U16(out, 2) == |p| && ChecksumOf(out[..o]) == 0 && Field(out, 10) != 0xffff
    && (forall k :: 0 <= k < |p| && k !in {2, 3, 10, 11, o + 12, o + 13} ==> out[k] == p[k])
    && out[o + 12] / 16 == DataOffset(p) && out[o + 12] % 16 == Unused(t) && FlagsAfter(out[o + 13], t, p, m)
  }

  lemma FieldBytes(b: seq<byte>, at: nat, v: u16)
    requires at + 2 <= |b| && Field(b, at) == v
    ensures b[at] == v % 0x100 && b[at + 1] == v / 0x100
  {
  }

  lemma NonZeroSum(b: seq<byte>)
    requires |b| >= 2 && b[0] > 0
    ensures WordSum(b) > 0
  {
  }

  /** That leaves no choice. */
  lemma HandedOnUnique(out: seq<byte>, out': seq<byte>, t: Header, p: seq<byte>, m: Mask)
    requires Segment(p) && HasTcp(t) && HandedOn(out, t, p, m) && HandedOn(out', t, p, m)
    ensures out == out'
  {
    hide ChecksumOf, PlainAck, PushSet, TopBits, UrgSet, WordSum;
    var o := TcpAt(p);
    U16Injective(out, out', 2);
    FlagsDetermined(out[o + 13], out'[o + 13]);
    assert out[o + 12] == out[o + 12] / 16 * 16 + out[o + 12] % 16;
    assert out[0] == p[0] && out'[0] == p[0];
    assert Store(out[..o], 10, 0) == Store(out'[..o], 10, 0);
    NonZeroSum(Store(out[..o], 10, 0));
    VerifiesIffStored(out[..o], 10);
    VerifiesIffStored(out'[..o], 10);
    assert Field(out, 10) == Field(out[..o], 10) && Field(out', 10) == Field(out'[..o], 10);
    FieldBytes(out, 10, Field(out, 10));
    FieldBytes(out', 10, Field(out, 10));
    forall k | 0 <= k < |p| ensures out[k] == out'[k] {
    }
  }

  /** `h` with the length filled in, as it stands when it is copied in front of the data. */
  lemma HeadIsPacket(h: Header, t: Header, p: seq<byte>, m: Mask, h': Header)
    requires Segment(t) && Segment(p) && TcpAt(t) == TcpAt(p) && Patched(h, t, p, m) && Carried(t, p, m)
    requires DataOffset(t) == DataOffset(p) && (IsSpecial(m) ==> !UrgSet(Flags(p)))
    requires h' == Put16(h, 2, |p|)
    ensures forall k :: 0 <= k < HeaderLen(p) ==> h'[k] == if k == 10 || k == 11 then 0 else p[k]
  {
    hide ChecksumOf, PlainAck, PushSet, TopBits, UrgSet;
    U16Injective(h', p, 2);
    var o := TcpAt(p);
    assert t[o + 12] == p[o + 12];
    FlagsDetermined(h[o + 13], Flags(p));
  }

  lemma AssembledPacket(h: Header, p: seq<byte>)
    requires Segment(p) && ChecksumOf(p[..TcpAt(p)]) == 0 && Field(p, 10) != 0xffff
    requires forall k :: 0 <= k < HeaderLen(p) ==> h[k] == if k == 10 || k == 11 then 0 else p[k]
    ensures Assemble(h, HeaderLen(p), TcpAt(p), p[HeaderLen(p)..]) == p
  {
    hide ChecksumOf, Assemble, WordSum;
    var o, hlen := TcpAt(p), HeaderLen(p);
    var ip := p[..o];
    assert h[..o] == Store(ip, 10, 0);
    NonZeroSum(Store(ip, 10, 0));
    VerifiesIffStored(ip, 10);
    VjReceiver.AssembledBytes(h, hlen, o, p[hlen..]);
    var out := Assemble(h, hlen, o, p[hlen..]);
    assert Field(p, 10) == Field(ip, 10);
    FieldBytes(p, 10, ChecksumOf(h[..o]));
    forall k | 0 <= k < |p| ensures out[k] == p[k] {
      if k < hlen && k != 10 && k != 11 {
        assert h[k] == p[k];
      }
    }
  }

  lemma ZeroChecksumBelow(b: seq<byte>)
    requires WordSum(b) > 0
    ensures ChecksumOf(b) < 0xffff
  {
    FoldResidue(WordSum(b));
  }

  lemma PatchedSpots(h: Header, t: Header, p: seq<byte>, m: Mask)
    requires Segment(p) && Patched(h, t, p, m)
    ensures h[0] == p[0] > 0 && h[10] == 0 && h[11] == 0
    ensures h[TcpAt(p) + 12] == t[TcpAt(p) + 12] && FlagsAfter(h[TcpAt(p) + 13], t, p, m)
  {
  }

  /** The other direction: a rebuilt packet that equals `p` shows that all of it was carried. */
  lemma PacketWasCarried(h: Header, t: Header, p: seq<byte>, m: Mask, len: nat)
    requires Segment(t) && Segment(p) && TcpAt(t) == TcpAt(p) && Patched(h, t, p, m)
    requires DataOffset(t) == DataOffset(p) && |p| == len < 0x1_0000
    requires IsSpecial(m) ==> !UrgSet(Flags(p))
    requires Assemble(Put16(h, 2, len), HeaderLen(p), TcpAt(p), p[HeaderLen(p)..]) == p
    ensures Carried(t, p, m)
  {
    hide ChecksumOf, Assemble, WordSum, Patched, PlainAck, PushSet, TopBits, UrgSet;
    var o, hlen := TcpAt(p), HeaderLen(p);
    var h' := Put16(h, 2, len);
    PatchedSpots(h, t, p, m);
    VjReceiver.AssembledBytes(h', hlen, o, p[hlen..]);
    assert p[o + 12] == h'[o + 12] == t[o + 12] && p[o + 13] == h'[o + 13] == h[o + 13];
    assert p[2] == h'[2] && p[3] == h'[3];
    NonZeroSum(h'[..o]);
    ZeroChecksumBelow(h'[..o]);
    VjReceiver.AssembledVerifies(h', hlen, o, p[hlen..]);
  }

  lemma AssembledHandedOn(h: Header, t: Header, p: seq<byte>, m: Mask, len: nat)
    requires Segment(t) && Segment(p) && TcpAt(t) == TcpAt(p) && Patched(h, t, p, m)
    requires DataOffset(t) == DataOffset(p) && |p| == len < 0x1_0000
    ensures HandedOn(Assemble(Put16(h, 2, len), HeaderLen(p), TcpAt(p), p[HeaderLen(p)..]), t, p, m)
  {
    hide ChecksumOf, Assemble, WordSum, FlagsAfter;
    var o, hlen := TcpAt(p), HeaderLen(p);
    var h' := Put16(h, 2, len);
    PatchedSpots(h, t, p, m);
    VjReceiver.AssembledBytes(h', hlen, o, p[hlen..]);
    VjReceiver.AssembledVerifies(h', hlen, o, p[hlen..]);
    NonZeroSum(h'[..o]);
    ZeroChecksumBelow(h'[..o]);
  }

  // ---- one compressed frame at the receiver ----

  /** A receive slot that agrees with `t`. */
  function Mirror(t: Header): (s: Saved)
    requires Segment(t)
    ensures Agrees(t, s)
  {
    Saved(HeaderLen(t), t[10 := 0][11 := 0])
  }

  /** Whatever the slot holds, the octets behind those written are the data. */
  lemma DataFound(t: Header, p: seq<byte>, slot: Saved, m: Mask, deltas: seq<byte>,
                  mem: seq<byte>, at: nat, rest: seq<byte>)
    requires CodedAs(t, p, m, deltas) && |rest| >= 18 && at <= 2 && |mem| >= MAX_HDR
    requires mem[at..] == SumAndDeltas(TcpSum(p), deltas) + rest
    ensures Patch(slot, m, mem[at..]).rest == rest
  {
    hide Patch, Code, Mirror;
    PatchStage(t, p, Mirror(t), m, deltas, rest);
    VjReceiver.PatchSpan(slot, m, mem, at);
    VjReceiver.PatchSpan(Mirror(t), m, mem, at);
  }

  lemma SpecialHasNoUrg(t: Header, p: seq<byte>, m: Mask, deltas: seq<byte>)
    requires CodedAs(t, p, m, deltas)
    ensures IsSpecial(m) ==> !UrgSet(Flags(p))
    ensures DataOffset(t) == DataOffset(p)
  {
    CodeParts(t, p, m, deltas);
    MaskUnambiguous(t, p);
  }

  lemma CarriedSum(t: Header, p: seq<byte>, m: Mask)
    requires Segment(p) && HasTcp(t) && Carried(t, p, m)
    ensures ChecksumOf(p[..TcpAt(p)]) == 0 && Field(p, 10) != 0xffff
  {
  }

  lemma AgreesOnPacket(t: Header, p: seq<byte>, h: Header)
    requires Segment(p)
    requires forall k :: 0 <= k < HeaderLen(p) ==> h[k] == if k == 10 || k == 11 then 0 else p[k]
    ensures Agrees(Overwrite(t, p[..HeaderLen(p)]), Saved(HeaderLen(p), h))
  {
    var t' := Overwrite(t, p[..HeaderLen(p)]);
    assert t'[0] == p[0] && t'[TcpAt(p) + 12] == p[TcpAt(p) + 12];
  }

  /** The header patched and the data behind it: this is the packet exactly when the coding carries all of
      it, and then the saved headers agree on it. */
  lemma AssembledExact(h: Header, t: Header, p: seq<byte>, m: Mask, deltas: seq<byte>, len: nat)
    requires CodedAs(t, p, m, deltas) && Patched(h, t, p, m) && |p| == len < 0x1_0000
    ensures TcpAt(p) <= HeaderLen(p)
    ensures var h' := Put16(h, 2, len);
            var out := Assemble(h', HeaderLen(p), TcpAt(p), p[HeaderLen(p)..]);
            && HandedOn(out, t, p, m) && (out == p <==> Carried(t, p, m))
            && (Carried(t, p, m) ==> Agrees(Overwrite(t, p[..HeaderLen(p)]), Saved(HeaderLen(p), h')))
  {
    hide Assemble, Patched, Carried, Code, Key, Put16, HandedOn, Agrees, Overwrite;
    var hlen, h' := HeaderLen(p), Put16(h, 2, len);
    CodeParts(t, p, m, deltas);
    SpecialHasNoUrg(t, p, m, deltas);
    AssembledHandedOn(h, t, p, m, len);
    if Carried(t, p, m) {
      HeadIsPacket(h, t, p, m, h');
      CarriedSum(t, p, m);
      AssembledPacket(h', p);
      AgreesOnPacket(t, p, h');
    } else if Assemble(h', hlen, TcpAt(p), p[hlen..]) == p {
      PacketWasCarried(h, t, p, m, len);
    }
  }

  lemma AgreesAtFirst(t: Header, s: Saved)
    requires Segment(t) && Agrees(t, s)
    ensures s.hlen == HeaderLen(t) && TcpAt(s.hdr) == TcpAt(t) <= s.hlen
  {
    assert s.hdr[0] == t[0];
  }

  lemma LengthUnpatched(h: Header, t: Header, p: seq<byte>, m: Mask, len: u16)
    requires Segment(p) && Patched(h, t, p, m)
    ensures Patched(Put16(h, 2, len), t, p, m)
  {
    hide FlagsAfter;
  }

  /** From slots that agree: the packet comes back octet for octet exactly when the coding carries all
      of it, and then the slots agree on the new header. The saved header is brought up to date even if the
      packet is too long to come back. */
  lemma FinishExact(t: Header, p: seq<byte>, rx: Rx, m: Mask, deltas: seq<byte>, c: Cursor)
    requires rx.Valid() && rx.lastRecv < MAX_STATES
    requires CodedAs(t, p, m, deltas) && Agrees(t, rx.slots[rx.lastRecv]) && Patched(c.h, t, p, m)
    requires |p| - HeaderLen(p) <= |c.rest| && c.rest[..|p| - HeaderLen(p)] == p[HeaderLen(p)..] && |c.rest| >= 60
    ensures var r := Finish(rx, c, |p| - HeaderLen(p));
            && |r.rx.slots| == MAX_STATES && (r.packet == Some(p) <==> Faithful(t, p, m))
            && (r.packet.Some? <==> |p| <= 1520) && (r.packet.Some? ==> HandedOn(r.packet.value, t, p, m))
            && r.rx.slots[rx.lastRecv].hlen == HeaderLen(p) && Patched(r.rx.slots[rx.lastRecv].hdr, t, p, m)
            && (Faithful(t, p, m) ==>
                  Agrees(Overwrite(t, p[..HeaderLen(p)]), r.rx.slots[rx.lastRecv]))
  {
    hide Assemble, Restore, Patched, Carried, Code, Finish, Key, Put16, HandedOn, Agrees, Overwrite, TcpAt;
    CodeParts(t, p, m, deltas);
    VjReceiver.FinishCases(rx, c, |p| - HeaderLen(p));
    AgreesAtFirst(t, rx.slots[rx.lastRecv]);
    if |p| <= 1520 {
      VjReceiver.RestoreWhole(rx.slots[rx.lastRecv], Put16(c.h, 2, |p|), c.rest, |p| - HeaderLen(p));
      LengthUnpatched(c.h, t, p, m, |p|);
      AssembledExact(c.h, t, p, m, deltas, |p|);
    }
  }

  /** `len` octets of `mem` are the compressed frame: `at` octets, then checksum, changes and data. */
  ghost predicate Holds(mem: seq<byte>, len: nat, at: nat, deltas: seq<byte>, p: seq<byte>, slack: seq<byte>)
    requires Segment(p)
  {
    && at <= 2 && at <= |mem| && |slack| >= MAX_HDR && len + |slack| == |mem|
    && mem[at..] == SumAndDeltas(TcpSum(p), deltas) + (p[HeaderLen(p)..] + slack)
  }

  lemma RebuildExact(t: Header, p: seq<byte>, rx: Rx, m: Mask, deltas: seq<byte>,
                     mem: seq<byte>, len: nat, at: nat, slack: seq<byte>)
    requires rx.Valid() && rx.lastRecv < MAX_STATES && Segment(t) && Segment(p)
    requires CodedAs(t, p, m, deltas) && Holds(mem, len, at, deltas, p, slack)
    requires Agrees(t, rx.slots[rx.lastRecv])
    ensures var r := Rebuild(rx, m, mem, len, at);
            && |r.rx.slots| == MAX_STATES && (r.packet == Some(p) <==> Faithful(t, p, m))
            && (r.packet.Some? <==> |p| <= 1520) && (r.packet.Some? ==> HandedOn(r.packet.value, t, p, m))
            && r.rx.slots[rx.lastRecv].hlen == HeaderLen(p) && Patched(r.rx.slots[rx.lastRecv].hdr, t, p, m)
            && (Faithful(t, p, m) ==>
                  Agrees(Overwrite(t, p[..HeaderLen(p)]), r.rx.slots[rx.lastRecv]))
  {
    hide Patch, Finish, Faithful, CodedAs, Agrees, Patched, HandedOn;
    var rest := p[HeaderLen(p)..] + slack;
    PatchStage(t, p, rx.slots[rx.lastRecv], m, deltas, rest);
    var c := Patch(rx.slots[rx.lastRecv], m, mem[at..]);
    assert c.rest[..|p| - HeaderLen(p)] == p[HeaderLen(p)..];
    FinishExact(t, p, rx, m, deltas, c);
  }

  /** Into any slot, an emitted frame is rebuilt without error and touches that slot only; what comes out
      is handed on if it is short enough under the header of that slot. */
  lemma RebuildAnywhere(t: Header, p: seq<byte>, rx: Rx, m: Mask, deltas: seq<byte>,
                        mem: seq<byte>, len: nat, at: nat, slack: seq<byte>)
    requires rx.Valid() && rx.lastRecv < MAX_STATES && Segment(t) && Segment(p)
    requires CodedAs(t, p, m, deltas) && Holds(mem, len, at, deltas, p, slack)
    ensures var r := Rebuild(rx, m, mem, len, at).rx;
            && r.Valid() && r.toss == rx.toss && r.lastRecv == rx.lastRecv && r.cnt == rx.cnt
            && (forall j :: 0 <= j < MAX_STATES && j != rx.lastRecv ==> r.slots[j] == rx.slots[j])
    ensures Rebuild(rx, m, mem, len, at).packet.Some?
            <==> rx.slots[rx.lastRecv].hlen + |p| - HeaderLen(p) <= 1520
  {
    hide Patch, Finish, CodedAs, Restore, Put16;
    var slot := rx.slots[rx.lastRecv];
    DataFound(t, p, slot, m, deltas, mem, at, p[HeaderLen(p)..] + slack);
    VjReceiver.PatchedSlotValid(slot, m, mem[at..]);
    var c := Patch(slot, m, mem[at..]);
    VjReceiver.FinishInvariant(rx, c, len - (|mem| - |c.rest|));
    VjReceiver.FinishCases(rx, c, len - (|mem| - |c.rest|));
  }

  // ---- the size of a compressed header ----

  lemma FourChangesSize(m: Mask, u: u16, w: u16, a: u16, s: u16)
    requires m.w == (w != 0) && m.a == (a != 0) && m.s == (s != 0) && !IsSpecialD(m)
    ensures |FourChanges(m.u, u, w, a, s)| <= 9
  {
    hide Encode, EncodeZ;
  }

  /** A compressed header takes 3 to 16 octets, and always fewer than the header it replaces. */
  lemma CompressedHeaderSize(t: Header, p: seq<byte>, m: Mask, deltas: seq<byte>, id: byte)
    requires CodedAs(t, p, m, deltas)
    ensures 3 <= |VjBytes(m, id, TcpSum(p), deltas)| <= 16 < HeaderLen(p)
  {
    hide Code, Changes, Specials, MaskByte, TcpSum, SeqDelta, AckDelta, WindowDelta, IdDelta, FourChanges, EncodeZ;
    hide UrgSet, PushSet, U16, U32, Key;
    CodeParts(t, p, m, deltas);
    MaskUnambiguous(t, p);
    if !IsSpecial(m) {
      FourChangesSize(m, Urgent(p), WindowDelta(t, p), AckDelta(t, p), SeqDelta(t, p));
    }
  }
}
