/** What the decompressor makes of a compressed frame in any slot at all, whatever is saved there. */
module VjStale {
  import opened Bytes
  import opened Checksum
  import opened VjDelta
  import opened VjHeader
  import opened VjCompress
  import opened VjUncompress
  import VjReceiver
  import opened VjRoundTrip

  predicate Same32(x: int, y: int) { x % 0x1_0000_0000 == y % 0x1_0000_0000 }

  /** The saved TCP fields are where the changes in `p`, coded against `t`, start from. After a special code
      it is the next expected sequence number that counts, not the last one. */
  ghost predicate TcpLevel(g: Header, t: Header, p: seq<byte>, m: Mask)
    requires HasTcp(p) && TcpAt(p) + 20 <= MAX_HDR
  {
    var o := TcpAt(p);
    && U16(g, o + 14) == Window(t) && (UrgSet(Flags(p)) || U16(g, o + 18) == Urgent(t))
    && if IsSpecial(m) then
         && Same32(U32(g, o + 4) + U16(g, 2), Seq(t) + IpLen(t))
         && if IsSpecialI(m) then Same32(U32(g, o + 8) + U16(g, 2), Ack(t) + IpLen(t)) else U32(g, o + 8) == Ack(t)
       else U32(g, o + 4) == Seq(t) && U32(g, o + 8) == Ack(t)
  }

  /** The slot has what `p`, coded against `t`, needs to be rebuilt: all that is not sent, the fields that the
      changes start from, and flags that the code can turn into those of `p`. */
  ghost predicate Fits(s: Saved, t: Header, p: seq<byte>, m: Mask)
    requires Segment(p)
  {
    var o := TcpAt(p);
    && s.hlen == HeaderLen(p)
    && (forall k :: 0 <= k < HeaderLen(p) && !VjReceiver.Written(o, k) && k !in {2, 3, 10, 11} ==> s.hdr[k] == p[k])
    && TcpLevel(s.hdr, t, p, m) && U16(s.hdr, 4) == IpId(t)
    && PlainAck(s.hdr[o + 13]) && TopBits(s.hdr[o + 13]) == TopBits(Flags(p))
    && (IsSpecial(m) ==> !UrgSet(s.hdr[o + 13]))
  }

  /** What has to be true of the packet itself. */
  predicate Canonical(p: seq<byte>)
    requires Segment(p)
  {
    |p| <= 1520 && IpLen(p) == |p| && ChecksumOf(p[..TcpAt(p)]) == 0 && Field(p, 10) != 0xffff
  }

  // ---- the changes ----

  /** Adding a difference leads to the new value exactly from the old one. */
  lemma ShortIff(z: u16, x: u16, y: u16)
    ensures (z + (y - x) % 0x1_0000) % 0x1_0000 == y <==> z == x
  {
    var k := (y - x) / 0x1_0000;
    assert z + (y - x) % 0x1_0000 == z + y - x - 0x1_0000 * k;
  }

  lemma LongIff(z: u32, x: u32, y: u32)
    ensures (z + (y - x) % 0x1_0000_0000) % 0x1_0000_0000 == y <==> z == x
  {
    var k := (y - x) / 0x1_0000_0000;
    assert z + (y - x) % 0x1_0000_0000 == z + y - x - 0x1_0000_0000 * k;
  }

  lemma Same32Forward(x: int, y: int, d: int)
    ensures Same32(x, y) ==> Same32(x + d, y + d)
  {
    if Same32(x, y) {
      var k := x / 0x1_0000_0000 - y / 0x1_0000_0000;
      assert x + d == y + d + 0x1_0000_0000 * k;
    }
  }

  lemma Same32Shift(x: int, y: int, d: int)
    ensures Same32(x + d, y + d) <==> Same32(x, y)
  {
    Same32Forward(x, y, d);
    Same32Forward(x + d, y + d, -d);
  }

  /** A number moved by the data last sent reaches the new value exactly if the next expected ones agree. */
  lemma MovedAlike(x: u32, l: u16, y: u32, k: u16, hlen: nat, d: int, z: u32)
    requires z == (y + d) % 0x1_0000_0000 && d == k - hlen
    ensures (x + (l - hlen)) % 0x1_0000_0000 == z <==> Same32(x + l, y + k)
  {
    Same32Shift(x + l, y + k, 0 - hlen);
    assert x + l - hlen == x + (l - hlen) && y + k - hlen == y + d;
  }

  /** The four fields of the TCP header that the changes are made to. */
  ghost predicate FourOf(h: Header, o: nat, p: seq<byte>)
    requires o + 20 <= MAX_HDR && HasTcp(p)
  {
    U32(h, o + 4) == Seq(p) && U32(h, o + 8) == Ack(p) && U16(h, o + 14) == Window(p) && U16(h, o + 18) == Urgent(p)
  }

  lemma MovedIff(h: Header, t: Header, p: seq<byte>, m: Mask)
    requires HasTcp(p) && 20 <= TcpAt(p) && TcpAt(p) + 20 <= MAX_HDR && !IsSpecial(m)
    requires UrgSet(Flags(p)) || Urgent(p) == Urgent(t)
    ensures var o, on := TcpAt(p), UrgSet(Flags(p));
            var r := Moved(WithUrgent(h, o, on, Urgent(p)), o, WindowDelta(t, p), AckDelta(t, p), SeqDelta(t, p));
            && (FourOf(r, o, p) <==> TcpLevel(h, t, p, m))
            && U16(r, o + 16) == U16(h, o + 16) && r[o + 13] == WithUrg(h[o + 13], on)
  {
    hide Moved, WithUrgent, WithUrg, U16, U32, UrgSet, IsSpecial;
    var o, on := TcpAt(p), UrgSet(Flags(p));
    var g := WithUrgent(h, o, on, Urgent(p));
    WithUrgentFacts(h, o, on, Urgent(p));
    MovedFacts(g, o, WindowDelta(t, p), AckDelta(t, p), SeqDelta(t, p));
    ShortIff(U16(h, o + 14), Window(t), Window(p));
    LongIff(U32(h, o + 8), Ack(t), Ack(p));
    LongIff(U32(h, o + 4), Seq(t), Seq(p));
  }

  lemma Unmoved(x: u32)
    ensures (x + 0) % 0x1_0000_0000 == x && (x < 0x1_0000 ==> (x + 0) % 0x1_0000 == x)
  {
  }

  lemma SpecialIff(h: Header, t: Header, p: seq<byte>, m: Mask)
    requires HasTcp(p) && 20 <= TcpAt(p) && TcpAt(p) + 20 <= MAX_HDR && IsSpecial(m)
    requires Window(p) == Window(t) && Urgent(p) == Urgent(t) && !UrgSet(Flags(p))
    requires SeqDelta(t, p) == IpLen(t) - HeaderLen(p)
    requires AckDelta(t, p) == if IsSpecialI(m) then SeqDelta(t, p) else 0
    ensures var o := TcpAt(p);
            var d := U16(h, 2) - HeaderLen(p);
            var r := Moved(h, o, 0, if IsSpecialI(m) then d else 0, d);
            && (FourOf(r, o, p) <==> TcpLevel(h, t, p, m))
            && U16(r, o + 16) == U16(h, o + 16) && r[o + 13] == h[o + 13]
  {
    hide Moved, U16, U32, UrgSet, IsSpecial, IsSpecialI, WindowDelta, AckDelta, SeqDelta, HeaderLen;
    hide Same32;
    var o, d := TcpAt(p), U16(h, 2) - HeaderLen(p);
    var r := Moved(h, o, 0, if IsSpecialI(m) then d else 0, d);
    MovedFacts(h, o, 0, if IsSpecialI(m) then d else 0, d);
    DeltasLand(t, p);
    MovedAlike(U32(h, o + 4), U16(h, 2), Seq(t), IpLen(t), HeaderLen(p), SeqDelta(t, p), Seq(p));
    Unmoved(U16(h, o + 14));
    if IsSpecialI(m) {
      MovedAlike(U32(h, o + 8), U16(h, 2), Ack(t), IpLen(t), HeaderLen(p), SeqDelta(t, p), Ack(p));
    } else {
      Unmoved(U32(h, o + 8));
      Unmoved(Ack(t));
    }
  }

  /** Decoding the changes in any header: what comes out has the fields of `p` exactly if they were level. */
  lemma TcpIff(t: Header, p: seq<byte>, m: Mask, h: Header, rest: seq<byte>)
    requires HasTcp(p) && TcpAt(p) >= 20 && Changes(t, p).Coded? && Specials(t, p, Changes(t, p)).Coded?
    requires var q := Specials(t, p, Changes(t, p)).mask;
             m.s == q.s && m.a == q.a && m.w == q.w && m.u == q.u
    requires |rest| >= 15
    ensures var o := TcpAt(p);
            var c := FixTcp(HeaderLen(p), o, m, Cursor(h, Specials(t, p, Changes(t, p)).deltas + rest));
            && c.rest == rest && (FourOf(c.h, o, p) <==> TcpLevel(h, t, p, m))
            && U16(c.h, o + 16) == U16(h, o + 16)
            && c.h[o + 13] == if IsSpecial(m) then h[o + 13] else WithUrg(h[o + 13], UrgSet(Flags(p)))
  {
    hide Moved, FourOf, TcpLevel, WithUrgent, FourChanges, SeqDelta, AckDelta, WindowDelta, Changes, Specials;
    hide AddLong, UrgSet, HeaderLen;
    MaskUnambiguous(t, p);
    if IsSpecial(m) {
      assert [] + rest == rest;
      MovedNothing(h, TcpAt(p), U16(h, 2) - HeaderLen(p));
      SpecialIff(h, t, p, m);
    } else {
      GeneralStage(HeaderLen(p), TcpAt(p), m, h, Urgent(p), WindowDelta(t, p), AckDelta(t, p), SeqDelta(t, p), rest);
      MovedIff(h, t, p, m);
    }
  }

  // ---- the whole header ----

  lemma IdIff(g: Header, t: Header, p: seq<byte>, m: Mask, rest: seq<byte>)
    requires HasTcp(p) && |rest| >= 3 && m.i == (IpId(p) - IpId(t) != 1)
    ensures var c := FixId(m, Cursor(g, Opt(m.i, EncodeZ(IdDelta(t, p))) + rest));
            && c.rest == rest && (U16(c.h, 4) == IpId(p) <==> U16(g, 4) == IpId(t))
            && (forall k :: 0 <= k < MAX_HDR && k != 4 && k != 5 ==> c.h[k] == g[k])
  {
    hide EncodeZ, Decode, U16;
    DecodeEncode(IdDelta(t, p), rest);
    assert [] + rest == rest;
    ShortIff(U16(g, 4), IpId(t), IpId(p));
  }

  lemma SameWords(g: Header, h: Header, o: nat, p: seq<byte>)
    requires 20 <= o && o + 20 <= MAX_HDR && HasTcp(p)
    requires forall k :: 0 <= k < MAX_HDR && k != 4 && k != 5 ==> h[k] == g[k]
    ensures FourOf(h, o, p) == FourOf(g, o, p) && U16(h, o + 16) == U16(g, o + 16)
  {
  }

  lemma BegunIff(slot: Saved, t: Header, p: seq<byte>, m: Mask, sum: u16)
    requires HasTcp(p) && 20 <= TcpAt(p) && TcpAt(p) + 20 <= MAX_HDR
    ensures var o := TcpAt(p);
            var h := Begin(slot.hdr, o, m, sum);
            && TcpLevel(h, t, p, m) == TcpLevel(slot.hdr, t, p, m) && U16(h, o + 16) == sum
            && U16(h, 4) == U16(slot.hdr, 4) && h[o + 13] == WithPush(slot.hdr[o + 13], m.push)
  {
    hide WithPush, UrgSet, IsSpecial, IsSpecialI, Same32;
  }

  /** The flags that a saved flags octet is turned into. */
  function FlagsTo(f: byte, p: seq<byte>, m: Mask): (r: byte)
    requires HasTcp(p)
  {
    var b := WithPush(f, m.push);
    if IsSpecial(m) then b else WithUrg(b, UrgSet(Flags(p)))
  }

  /** Patching any slot with the header length of `p`. */
  lemma PatchIff(t: Header, p: seq<byte>, slot: Saved, m: Mask, deltas: seq<byte>, rest: seq<byte>)
    requires CodedAs(t, p, m, deltas) && |rest| >= 18 && slot.hlen == HeaderLen(p) && TcpAt(slot.hdr) == TcpAt(p)
    ensures var o := TcpAt(p);
            var h := Patch(slot, m, SumAndDeltas(TcpSum(p), deltas) + rest).h;
            && (FourOf(h, o, p) <==> TcpLevel(slot.hdr, t, p, m))
            && (U16(h, 4) == IpId(p) <==> U16(slot.hdr, 4) == IpId(t))
            && U16(h, o + 16) == TcpSum(p) && h[o + 13] == FlagsTo(slot.hdr[o + 13], p, m)
  {
    hide Begin, FixTcp, FixId, EncodeZ, Changes, Specials, U32, WithPush, WithUrg, Code, TcpLevel, FourOf, IsSpecial;
    var o := TcpAt(p);
    CodeParts(t, p, m, deltas);
    var q := Specials(t, p, Changes(t, p));
    var idPart := Opt(m.i, EncodeZ(IdDelta(t, p))) + rest;
    var s := SumAndDeltas(TcpSum(p), deltas) + rest;
    assert s[2..] == q.deltas + idPart;
    assert U16(s, 0) == TcpSum(p);
    BegunIff(slot, t, p, m, TcpSum(p));
    var h := Begin(slot.hdr, o, m, TcpSum(p));
    TcpIff(t, p, m, h, idPart);
    var g := FixTcp(slot.hlen, o, m, Cursor(h, q.deltas + idPart)).h;
    VjReceiver.FixTcpIdFrame(slot.hlen, o, m, Cursor(h, q.deltas + idPart));
    IdIff(g, t, p, m, rest);
    SameWords(g, FixId(m, Cursor(g, idPart)).h, o, p);
  }

  lemma FlagsIff(f: byte, p: seq<byte>, m: Mask)
    requires Segment(p) && m.push == PushSet(Flags(p)) && (IsSpecial(m) ==> !UrgSet(Flags(p)))
    ensures FlagsTo(f, p, m) == Flags(p)
            <==> PlainAck(f) && TopBits(f) == TopBits(Flags(p)) && (IsSpecial(m) ==> !UrgSet(f))
  {
    hide PushSet, UrgSet, TopBits, PlainAck, WithPush, WithUrg, IsSpecial;
    if PlainAck(f) && TopBits(f) == TopBits(Flags(p)) && (IsSpecial(m) ==> !UrgSet(f)) {
      FlagsDetermined(FlagsTo(f, p, m), Flags(p));
    }
  }

  /** The header is that of `p`, as far as it is put together from the slot. */
  ghost predicate HeadOf(h: Header, p: seq<byte>)
    requires Segment(p)
  {
    forall k :: 0 <= k < HeaderLen(p) && k !in {2, 3, 10, 11} ==> h[k] == p[k]
  }

  /** Equal octets are equal fields. */
  lemma HeadFields(h: Header, p: seq<byte>)
    requires Segment(p) && HeadOf(h, p)
    ensures FourOf(h, TcpAt(p), p) && U16(h, 4) == IpId(p) && h[TcpAt(p) + 13] == Flags(p)
  {
  }

  lemma HeadIff(t: Header, p: seq<byte>, slot: Saved, m: Mask, deltas: seq<byte>, rest: seq<byte>)
    requires CodedAs(t, p, m, deltas) && |rest| >= 18 && slot.hlen == HeaderLen(p) && TcpAt(slot.hdr) == TcpAt(p)
    ensures HeadOf(Patch(slot, m, SumAndDeltas(TcpSum(p), deltas) + rest).h, p) <==> Fits(slot, t, p, m)
  {
    hide Patch, Code, TcpLevel, FlagsTo, Key, U32, U16, PlainAck, TopBits, UrgSet, IsSpecial, Changes, Specials;
    var s := SumAndDeltas(TcpSum(p), deltas) + rest;
    var h := Patch(slot, m, s).h;
    CodeParts(t, p, m, deltas);
    SpecialHasNoUrg(t, p, m, deltas);
    PatchIff(t, p, slot, m, deltas, rest);
    FlagsIff(slot.hdr[TcpAt(p) + 13], p, m);
    forall k | 0 <= k < HeaderLen(p) && !VjReceiver.Written(TcpAt(p), k) ensures h[k] == slot.hdr[k] {
      VjReceiver.PatchFrame(slot, m, s, k);
    }
    if HeadOf(h, p) {
      HeadFields(h, p);
    } else if Fits(slot, t, p, m) {
      forall k | 0 <= k < HeaderLen(p) && k !in {2, 3, 10, 11} ensures h[k] == p[k] {
        if VjReceiver.Written(TcpAt(p), k) && k != TcpAt(p) + 13 {
          SentBytes(h, p, k);
        }
      }
    }
  }

  // ---- the whole packet ----

  /** Header and data put together are `p` exactly when the header is that of `p` and `p` is canonical. */
  lemma AssembleIff(h: Header, p: seq<byte>)
    requires Segment(p) && |p| < 0x1_0000 && h[0] == p[0] && h[10] == 0 && h[11] == 0
    ensures TcpAt(p) <= HeaderLen(p)
    ensures Assemble(Put16(h, 2, |p|), HeaderLen(p), TcpAt(p), p[HeaderLen(p)..]) == p
            <==> HeadOf(h, p) && IpLen(p) == |p| && ChecksumOf(p[..TcpAt(p)]) == 0 && Field(p, 10) != 0xffff
  {
    hide ChecksumOf, Assemble, WordSum;
    var o, hlen := TcpAt(p), HeaderLen(p);
    var h' := Put16(h, 2, |p|);
    var out := Assemble(h', hlen, o, p[hlen..]);
    VjReceiver.AssembledBytes(h', hlen, o, p[hlen..]);
    if out == p {
      NonZeroSum(h'[..o]);
      ZeroChecksumBelow(h'[..o]);
      VjReceiver.AssembledVerifies(h', hlen, o, p[hlen..]);
    } else if HeadOf(h, p) && IpLen(p) == |p| && ChecksumOf(p[..o]) == 0 && Field(p, 10) != 0xffff {
      U16Injective(h', p, 2);
      AssembledPacket(h', p);
    }
  }

  /** A packet with the first octet of the slot's header, from there on. */
  lemma FirstOctet(h: Header, hlen: nat, o: nat, data: seq<byte>)
    requires o <= hlen <= 120 && hlen > 0
    ensures Assemble(h, hlen, o, data)[0] == h[0]
  {
    hide ChecksumOf;
    VjReceiver.AssembledSum(h, hlen, o, data);
  }

  lemma RebuiltLength(rx: Rx, c: Cursor, left: nat)
    requires rx.Valid() && rx.lastRecv < MAX_STATES && left <= |c.rest| && |c.rest| >= 60
    ensures var slot := rx.slots[rx.lastRecv];
            var len := slot.hlen + left;
            Finish(rx, c, left).packet == if len > 1520 then None
              else Some(Restore(slot, Put16(c.h, 2, len), c.rest, left))
  {
    hide Restore, Put16;
    VjReceiver.FinishCases(rx, c, left);
  }

  lemma SlotMatches(slot: Saved, h: Header, t: Header, p: seq<byte>, m: Mask)
    requires Segment(p) && slot.Valid() && slot.hlen == HeaderLen(p) && TcpAt(slot.hdr) == TcpAt(p)
    requires h[0] == slot.hdr[0] && slot.(hdr := h).Valid() && (HeadOf(h, p) <==> Fits(slot, t, p, m))
    ensures |p| <= 1520 ==>
              (Assemble(Put16(h, 2, |p|), HeaderLen(p), TcpAt(p), p[HeaderLen(p)..]) == p
               <==> Canonical(p) && Fits(slot, t, p, m))
  {
    hide Assemble, Put16, ChecksumOf, TcpLevel;
    if |p| <= 1520 {
      if h[0] == p[0] {
        AssembleIff(h, p);
      } else {
        FirstOctet(Put16(h, 2, |p|), HeaderLen(p), TcpAt(p), p[HeaderLen(p)..]);
        assert !HeadOf(h, p);
      }
    }
  }

  /** Whatever the decompressor holds in the slot that a frame is applied to, the packet comes back octet for
      octet exactly when it is canonical and the slot fits. */
  lemma RebuildIff(t: Header, p: seq<byte>, rx: Rx, m: Mask, deltas: seq<byte>,
                   mem: seq<byte>, len: nat, at: nat, slack: seq<byte>)
    requires rx.Valid() && rx.lastRecv < MAX_STATES && Segment(t) && Segment(p)
    requires CodedAs(t, p, m, deltas) && Holds(mem, len, at, deltas, p, slack)
    ensures Rebuild(rx, m, mem, len, at).packet == Some(p) <==> Canonical(p) && Fits(rx.slots[rx.lastRecv], t, p, m)
  {
    hide Patch, Finish, CodedAs, Assemble, Restore, Put16, HeadOf, ChecksumOf, TcpLevel;
    var slot, left := rx.slots[rx.lastRecv], |p| - HeaderLen(p);
    var data := p[HeaderLen(p)..];
    DataFound(t, p, slot, m, deltas, mem, at, data + slack);
    var c := Patch(slot, m, mem[at..]);
    VjReceiver.PatchedSlotValid(slot, m, mem[at..]);
    VjReceiver.PatchFrame(slot, m, mem[at..], 0);
    assert c.rest[..left] == data;
    RebuiltLength(rx, c, left);
    if slot.hlen == HeaderLen(p) && |p| <= 1520 {
      VjReceiver.RestoreWhole(slot, Put16(c.h, 2, |p|), c.rest, left);
    }
    if slot.hlen == HeaderLen(p) && TcpAt(slot.hdr) == TcpAt(p) {
      HeadIff(t, p, slot, m, deltas, data + slack);
      SlotMatches(slot, c.h, t, p, m);
    } else if slot.hlen == HeaderLen(p) {
      if |p| <= 1520 {
        FirstOctet(Put16(c.h, 2, |p|), slot.hlen, TcpAt(slot.hdr), data);
      }
    }
  }
}
