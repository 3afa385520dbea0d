/** `struct slcompress` and the three routines on it, with the packet buffers rewritten in place. */
module SlCompress {
  import opened Bytes
  import opened Checksum
  import opened VjDelta
  import opened VjMacros
  import opened VjHeader
  import opened VjCompress
  import opened VjUncompress
  import VjReceiver

  /** `struct cstate`; `next` is an index into the transmit states. */
  datatype CState = CState(next: nat, id: byte, hlen: nat, hdr: Header)

  /** It does not matter that the patched header has already been stored. */
  lemma StoredFirst(rx: Rx, rx': Rx, c: Cursor, left: int)
    requires rx.Valid() && rx'.Valid() && rx.lastRecv < MAX_STATES && left <= |c.rest| && |c.rest| >= 60
    requires var i := rx.lastRecv; rx' == rx.(slots := rx.slots[i := rx.slots[i].(hdr := c.h)])
    requires TcpAt(c.h) == TcpAt(rx.slots[rx.lastRecv].hdr)
    ensures Finish(rx', c, left) == Finish(rx, c, left)
  {
    hide Assemble, Bare, TcpAt, Put16;
  }

  lemma PatchedSpan(slot: Saved, m: Mask, mem: seq<byte>, at: nat, left: nat)
    requires at <= 2 && |mem| >= MAX_HDR && |Patch(slot, m, mem[at..]).rest| == left
    ensures VjReceiver.Span(m, mem, at) == |mem| - left
  {
    VjReceiver.PatchSpan(slot, m, mem, at);
  }

  /** The connection id goes where the protocol was. */
  method NumberPacket(buf: array<byte>, off: nat, len: nat, id: byte)
    requires off + len <= buf.Length && len >= 10
    modifies buf
    ensures buf[off..off + len] == old(buf[off..off + len])[9 := id]
    ensures forall k :: 0 <= k < buf.Length && !(off <= k < off + len) ==> buf[k] == old(buf[k])
  {
    buf[off + 9] := id;
    assert buf[off..off + len] == old(buf[off..off + len])[9 := id];
  }

  /** Copies `bytes` to `at`, behind what has been written from `start` on. */
  method Append(buf: array<byte>, start: nat, at: nat, bytes: seq<byte>) returns (next: nat)
    requires start <= at && at + |bytes| <= buf.Length
    modifies buf
    ensures next == at + |bytes| && buf[start..next] == old(buf[start..at]) + bytes
    ensures forall k :: 0 <= k < buf.Length && !(at <= k < next) ==> buf[k] == old(buf[k])
  {
    forall k | 0 <= k < |bytes| {
      buf[at + k] := bytes[k];
    }
    next := at + |bytes|;
  }

  method WriteHead(buf: array<byte>, start: nat, m: Mask, id: byte, sum: u16, newSeq: array<byte>, cp: nat)
    requires start + cp + (if m.c then 4 else 3) <= buf.Length && cp <= newSeq.Length && buf != newSeq
    modifies buf
    ensures var next := start + cp + if m.c then 4 else 3;
            && buf[start..next] == VjBytes(m, id, sum, old(newSeq[..cp]))
            && forall k :: 0 <= k < buf.Length && !(start <= k < next) ==> buf[k] == old(buf[k])
  {
    hide MaskByte;
    assert buf[start..start] == [];
    var at := Append(buf, start, start, [MaskByte(m)]);
    if m.c {
      at := Append(buf, start, at, [id]);
    }
    at := Append(buf, start, at, SumAndDeltas(sum, newSeq[..cp]));
  }

  /** A new head in front of data that has not moved. */
  lemma JoinFrame(now: seq<byte>, was: seq<byte>, off: nat, start: nat, data: nat, end: nat, p: seq<byte>)
    requires off <= start <= data <= end <= |now| == |was| && p == was[off..end]
    requires forall k :: data <= k < end ==> now[k] == was[k]
    ensures now[start..end] == now[start..data] + p[data - off..]
  {
  }

  lemma PacketSize(p: seq<byte>)
    requires Segment(p)
    ensures HasTcp(p) && 40 <= HeaderLen(p) <= |p|
  {
  }

  /** The last quarter of `sl_compress_tcp`: mask, connection id, TCP checksum and changes go right in
      front of the data; `hlen` is how much of the original packet is tossed. */
  method WriteCompressed(buf: array<byte>, off: nat, len: nat, explicit: bool, changes: Mask, id: byte,
                         newSeq: array<byte>, cp: nat)
    returns (hlen: nat)
    requires off + len <= buf.Length && Segment(buf[off..off + len]) && cp <= 15 && newSeq.Length == 16
    requires buf != newSeq && !changes.c
    modifies buf
    ensures hlen <= len
    ensures var p := old(buf[off..off + len]);
            buf[off + hlen..off + len]
            == VjBytes(changes.(c := explicit), id, TcpSum(p), old(newSeq[..cp])) + p[HeaderLen(p)..]
    ensures forall k :: 0 <= k < buf.Length && !(off <= k < off + len) ==> buf[k] == old(buf[k])
  {
    hide Segment, VjBytes;
    var p := buf[off..off + len];
    PacketSize(p);
    var sum := TcpSum(p);
    ghost var data := off + HeaderLen(p);
    hlen := HeaderLen(p) - (cp + if explicit then 4 else 3);
    hide TcpSum, HeaderLen;
    WriteHead(buf, off + hlen, changes.(c := explicit), id, sum, newSeq, cp);
    JoinFrame(buf[..], old(buf[..]), off, off + hlen, data, off + len, p);
  }

  /** DECODES(f) on a field of the saved header, where the mask has it. */
  method DecodeShortAt(on: bool, buf: array<byte>, cp: nat, h: Header, at: nat) returns (hdr: Header, next: nat)
    requires at + 2 <= MAX_HDR && cp + 3 <= buf.Length
    ensures cp <= next <= cp + 3
    ensures Cursor(hdr, buf[next..]) == DecodeShort(on, Cursor(h, buf[cp..]), at)
  {
    hide Put16, Decode;
    hdr, next := h, cp;
    if on {
      var n;
      n, next := DecodeAt(buf, cp);
      hdr := Put16(h, at, (U16(h, at) + n) % 0x1_0000);
    }
  }

  /** DECODEL(f), likewise. */
  method DecodeLongAt(on: bool, buf: array<byte>, cp: nat, h: Header, at: nat) returns (hdr: Header, next: nat)
    requires at + 4 <= MAX_HDR && cp + 3 <= buf.Length
    ensures cp <= next <= cp + 3
    ensures Cursor(hdr, buf[next..]) == DecodeLong(on, Cursor(h, buf[cp..]), at)
  {
    hide Put32, Decode;
    hdr, next := h, cp;
    if on {
      var n;
      n, next := DecodeAt(buf, cp);
      hdr := Put32(h, at, (U32(h, at) + n) % 0x1_0000_0000);
    }
  }

  /** The URG bit, and DECODEU(th_urp) where it is set. */
  method DecodeUrgentAt(on: bool, buf: array<byte>, cp: nat, h: Header, th: nat) returns (hdr: Header, next: nat)
    requires th + 20 <= MAX_HDR && cp + 3 <= buf.Length
    ensures cp <= next <= cp + 3
    ensures Cursor(hdr, buf[next..]) == DecodeUrgent(on, Cursor(h, buf[cp..]), th)
  {
    hide Put16, Decode, WithUrg;
    hdr, next := h[th + 13 := WithUrg(h[th + 13], on)], cp;
    if on {
      var n;
      n, next := DecodeAt(buf, cp);
      hdr := Put16(hdr, th + 18, n);
    }
  }

  method FixTcpAt(h: Header, csHlen: nat, th: nat, changes: Mask, buf: array<byte>, start: nat)
    returns (hdr: Header, cp: nat)
    requires th + 20 <= MAX_HDR && start + 15 <= buf.Length
    ensures start <= cp <= buf.Length
    ensures Cursor(hdr, buf[cp..]) == FixTcp(csHlen, th, changes, Cursor(h, buf[start..]))
    ensures cp <= start + 9
  {
    hide Put16, Put32, DecodeUrgent, DecodeShort, DecodeLong;
    hdr, cp := h, start;
    if IsSpecialI(changes) {
      var i := U16(hdr, 2) - csHlen;
      hdr := Put32(hdr, th + 8, (U32(hdr, th + 8) + i) % 0x1_0000_0000);
      hdr := Put32(hdr, th + 4, (U32(hdr, th + 4) + i) % 0x1_0000_0000);
    } else if IsSpecialD(changes) {
      hdr := Put32(hdr, th + 4, (U32(hdr, th + 4) + (U16(hdr, 2) - csHlen)) % 0x1_0000_0000);
    } else {
      hdr, cp := DecodeUrgentAt(changes.u, buf, cp, hdr, th);
      hdr, cp := DecodeShortAt(changes.w, buf, cp, hdr, th + 14);
      hdr, cp := DecodeLongAt(changes.a, buf, cp, hdr, th + 8);
      hdr, cp := DecodeLongAt(changes.s, buf, cp, hdr, th + 4);
    }
  }

  /** The fields of a saved header are brought up to date from the octets at `cp`. */
  method PatchHeader(saved: Header, csHlen: nat, changes: Mask, buf: array<byte>, start: nat)
    returns (hdr: Header, cp: nat)
    requires start + 20 <= buf.Length
    ensures start + 2 <= cp <= start + 14
    ensures Cursor(hdr, buf[cp..]) == Patch(Saved(csHlen, saved), changes, buf[start..])
  {
    hide WithPush, Put16, Decode, FixTcp;
    var th := TcpAt(saved);
    hdr, cp := saved, start;
    hdr := Put16(hdr, th + 16, buf[cp] as int * 0x100 + buf[cp + 1]);
    cp := cp + 2;
    hdr := hdr[th + 13 := WithPush(hdr[th + 13], changes.push)];
    assert buf[start..][2..] == buf[cp..];
    hdr, cp := FixTcpAt(hdr, csHlen, th, changes, buf, cp);
    if changes.i {
      hdr, cp := DecodeShortAt(true, buf, cp, hdr, 4);
    } else {
      hdr := Put16(hdr, 4, (U16(hdr, 4) + 1) % 0x1_0000);
    }
  }

  /** Moves the data down to the next 32-bit boundary. */
  method AlignDown(buf: array<byte>, cp: nat, left: nat, base: nat) returns (at: nat)
    requires cp + left <= buf.Length && cp >= 3
    modifies buf
    ensures cp - 3 <= at <= cp && (base + at) % 4 == 0
    ensures buf[at..at + left] == old(buf[cp..cp + left])
    ensures forall k :: 0 <= k < at ==> buf[k] == old(buf[k])
    ensures (base + cp) % 4 == 0 ==> at == cp && buf[..] == old(buf[..])
  {
    at := cp - (base + cp) % 4;
    if at != cp {
      forall k | 0 <= k < left {
        buf[at + k] := buf[cp + k];
      }
    }
  }

  /** The checksum loop. */
  method HeaderWords(buf: array<byte>, at: nat, ipLen: nat) returns (changes: nat)
    requires ipLen % 2 == 0 && at + ipLen <= buf.Length
    ensures changes == WordSum(buf[at..at + ipLen])
  {
    var bp, hlen := at, ipLen;
    changes := 0;
    while hlen > 0
      invariant 0 <= hlen <= ipLen && hlen % 2 == 0 && bp == at + ipLen - hlen
      invariant changes == WordSum(buf[at..bp])
    {
      WordSumAppend(buf[at..bp], buf[bp..bp + 2]);
      assert buf[at..bp] + buf[bp..bp + 2] == buf[at..bp + 2];
      changes := changes + buf[bp] + 0x100 * buf[bp + 1] as int;
      bp := bp + 2;
      hlen := hlen - 2;
    }
  }

  /** The checksum, with its two folds. */
  method HeaderSum(buf: array<byte>, at: nat, ipLen: nat) returns (sum: u16)
    requires ipLen <= 120 && ipLen % 2 == 0 && at + ipLen <= buf.Length
    ensures sum == ChecksumOf(buf[at..at + ipLen])
  {
    hide Fold, WordSum;
    var changes := HeaderWords(buf, at, ipLen);
    WordSumBound(buf[at..at + ipLen]);
    TwoFoldsSuffice(changes);
    FoldResidue(changes);
    changes := changes % 0x1_0000 + changes / 0x1_0000;
    changes := changes % 0x1_0000 + changes / 0x1_0000;
    sum := 0xffff - changes;
  }

  /** Puts a header in front of the data and recomputes its IP checksum. */
  method WriteHeader(buf: array<byte>, at: nat, hdr: Header, hlen: nat, ipLen: nat, left: nat)
    requires (ipLen <= hlen || hlen == 0) && hlen <= 120 && ipLen <= 60 && ipLen % 2 == 0
    requires at + hlen + left <= buf.Length && at + hlen + 60 <= buf.Length
    modifies buf
    ensures ipLen <= hlen ==>
              buf[at..at + hlen + left] == Assemble(hdr, hlen, ipLen, old(buf[at + hlen..])[..left])
    ensures hlen == 0 ==>
              buf[at..at + left] == StampSum(old(buf[at..])[..left], ChecksumOf(old(buf[at..])[..ipLen]))
    ensures forall k :: 0 <= k < at ==> buf[k] == old(buf[k])
  {
    ghost var data := buf[at + hlen..at + hlen + left];
    forall k | 0 <= k < hlen {
      buf[at + k] := hdr[k];
    }
    assert buf[at..at + hlen + left] == hdr[..hlen] + data;
    assert ipLen <= hlen ==> buf[at..at + ipLen] == hdr[..ipLen];
    assert hlen == 0 ==> buf[at..at + ipLen] == old(buf[at..])[..ipLen] && data == old(buf[at..])[..left];
    assert data == old(buf[at + hlen..])[..left];
    var sum := HeaderSum(buf, at, ipLen);
    buf[at + 10] := sum % 0x100;
    buf[at + 11] := sum / 0x100;
    if ipLen <= hlen {
      VjReceiver.AssembledSum(hdr, hlen, ipLen, data);
    }
    assert hdr[..hlen] + data == if hlen == 0 then data else hdr[..hlen] + data;
    assert buf[at..at + hlen + left] == StampSum(hdr[..hlen] + data, sum);
  }

  /** The same octets, but for the header checksum if that is `moved`. */
  ghost predicate SameBut(s: seq<byte>, t: seq<byte>, moved: bool) {
    |s| == |t| && (!moved ==> s == t) && forall k :: 0 <= k < |s| && k != 10 && k != 11 ==> s[k] == t[k]
  }

  lemma BareAlike(there: seq<byte>, rest: seq<byte>, left: nat, ipLen: nat)
    requires left <= |there| && left <= |rest| && ipLen <= |there| && ipLen <= |rest| && there[..left] == rest[..left]
    ensures SameBut(StampSum(there[..left], ChecksumOf(there[..ipLen])),
                    StampSum(rest[..left], ChecksumOf(rest[..ipLen])), left < ipLen && there != rest)
  {
    hide ChecksumOf;
    if ipLen <= left {
      assert there[..ipLen] == there[..left][..ipLen] && rest[..ipLen] == rest[..left][..ipLen];
    }
  }

  /** Aligns the data, fills in the length unless the packet is too long, and puts the header in front. */
  method BuildPacket(buf: array<byte>, cp: nat, left: nat, base: nat, csHlen: nat, ipLen: nat, h: Header)
    returns (ok: bool, at: nat, hdr: Header)
    requires Saved(csHlen, h).Valid() && ipLen == TcpAt(h) && ipLen % 2 == 0
    requires 123 <= cp && cp + left <= buf.Length && cp + 60 <= buf.Length
    modifies buf
    ensures ok == (left + csHlen <= 1520)
    ensures cp - csHlen - 3 <= at <= cp - csHlen && (base + at) % 4 == 0
    ensures hdr == if ok then Put16(h, 2, left + csHlen) else h
    ensures hdr[0] == h[0] && hdr[10] == h[10] && hdr[11] == h[11]
    ensures ok ==> SameBut(buf[at..at + csHlen + left], Restore(Saved(csHlen, h), hdr, old(buf[cp..]), left),
                           VjReceiver.SumsMoved(Saved(csHlen, h), left, base + cp))
    ensures forall k :: 0 <= k < cp - csHlen - 3 ==> buf[k] == old(buf[k])
  {
    hide Assemble, Restore, Put16, ChecksumOf, StampSum;
    ghost var rest := buf[cp..];
    at := AlignDown(buf, cp, left, base);
    ghost var there := buf[at..];
    assert there[..left] == buf[at..at + left] && rest[..left] == old(buf[cp..cp + left]);
    at := at - csHlen;
    ok, hdr := left + csHlen <= 1520, h;
    if ok {
      hdr := Put16(hdr, 2, left + csHlen);
      WriteHeader(buf, at, hdr, csHlen, ipLen, left);
      if ipLen <= csHlen {
        VjReceiver.RestoreWhole(Saved(csHlen, h), hdr, rest, left);
      } else {
        VjReceiver.RestoreBare(Saved(csHlen, h), hdr, rest, left);
        BareAlike(there, rest, left, ipLen);
      }
    }
  }

  /** The second and third quarter of `sl_compress_tcp`: the changes are coded into `newSeq` up to `cp`. */
  method CodeFields(t: Header, p: seq<byte>, newSeq: array<byte>) returns (plain: bool, changes: Mask, cp: nat)
    requires Segment(p) && newSeq.Length == 16
    modifies newSeq
    ensures plain == Changes(t, p).Plain?
    ensures !plain ==> cp <= 12 && Coded(changes, newSeq[..cp]) == Changes(t, p)
  {
    hide Encode, EncodeZ, WindowDelta, AckDelta, SeqDelta, Urgent, UrgSet;
    plain, changes, cp := true, Mask(false, false, false, false, false, false, false), 0;
    if UrgSet(Flags(p)) {
      cp := EncodeZAt(newSeq, cp, Urgent(p));
      changes := changes.(u := true);
    } else if Urgent(p) != Urgent(t) {
      return;
    }
    ghost var urgent := if changes.u then EncodeZ(Urgent(p)) else [];
    assert newSeq[..cp] == urgent;
    var deltaW := WindowDelta(t, p);
    if deltaW != 0 {
      cp := EncodeAt(newSeq, cp, deltaW);
      changes := changes.(w := true);
    }
    ghost var window := urgent + if deltaW != 0 then Encode(deltaW) else [];
    assert newSeq[..cp] == window;
    var deltaA := AckDelta(t, p);
    if deltaA != 0 {
      if deltaA > 0xffff {
        return;
      }
      cp := EncodeAt(newSeq, cp, deltaA);
      changes := changes.(a := true);
    }
    ghost var ack := window + if deltaA != 0 then Encode(deltaA) else [];
    assert newSeq[..cp] == ack;
    var deltaS := SeqDelta(t, p);
    if deltaS != 0 {
      if deltaS > 0xffff {
        return;
      }
      cp := EncodeAt(newSeq, cp, deltaS);
      changes := changes.(s := true);
    }
    assert newSeq[..cp] == ack + if deltaS != 0 then Encode(deltaS) else [];
    plain := false;
  }

  method CodeChanges(t: Header, p: seq<byte>, newSeq: array<byte>) returns (plain: bool, changes: Mask, cp: nat)
    requires Segment(p) && newSeq.Length == 16
    modifies newSeq
    ensures plain == Code(t, p).Plain?
    ensures !plain ==> cp <= 15 && Coded(changes, newSeq[..cp]) == Code(t, p)
  {
    hide Changes, EncodeZ, AckDelta, SeqDelta, IdDelta, SameShape, PushSet;
    changes, cp := Mask(false, false, false, false, false, false, false), 0;
    if !SameShape(t, p) {
      return true, changes, cp;
    }
    plain, changes, cp := CodeFields(t, p, newSeq);
    if plain {
      return;
    }
    var deltaA := AckDelta(t, p);
    var deltaS := SeqDelta(t, p);
    if !changes.s && !changes.a && !changes.w && !changes.u {
      if !(IpLen(p) != IpLen(t) && IpLen(t) == HeaderLen(p)) {
        return true, changes, cp;
      }
    } else if IsSpecialI(changes) || IsSpecialD(changes) {
      return true, changes, cp;
    } else if changes.s && changes.a && !changes.w && !changes.u {
      if deltaS == deltaA && deltaS == IpLen(t) - HeaderLen(p) {
        changes, cp := changes.(s := true, a := false, w := true, u := true), 0;
      }
    } else if changes.s && !changes.a && !changes.w && !changes.u {
      if deltaS == IpLen(t) - HeaderLen(p) {
        changes, cp := changes.(s := true, a := true, w := true, u := true), 0;
      }
    }
    assert Coded(changes, newSeq[..cp]) == Specials(t, p, Changes(t, p));
    var deltaI := IpId(p) - IpId(t);
    if deltaI != 1 {
      cp := EncodeZAt(newSeq, cp, IdDelta(t, p));
      changes := changes.(i := true);
    }
    if PushSet(Flags(p)) {
      changes := changes.(push := true);
    }
  }

  /** The frame is what is left of the packet's place once `m_off` and `m_len` have been moved. */
  ghost predicate FrameAt(buf: array<byte>, off: nat, len: nat, newOff: nat, newLen: nat, bytes: seq<byte>)
    reads buf
  {
    off <= newOff && newOff + newLen == off + len <= buf.Length && buf[newOff..newOff + newLen] == bytes
  }

  /** The result of a rebuilding routine: the packet stands at `at`, at most 128 octets in front of where
      the frame was, or there is none. */
  ghost predicate StandsAt(buf: array<byte>, bufp: nat, ok: bool, at: nat, packet: Option<seq<byte>>, moved: bool)
    reads buf
  {
    && ok == packet.Some?
    && (ok ==> bufp - MAX_HDR <= at && at + |packet.value| <= buf.Length
               && SameBut(buf[at..at + |packet.value|], packet.value, moved))
  }

  /** The order as one cycle of `next` links through all states. */
  ghost predicate Chain(order: seq<nat>, next: seq<nat>) {
    && |order| == |next| == MAX_STATES
    && (forall k :: 0 <= k < MAX_STATES ==> order[k] < MAX_STATES)
    && (forall j, k :: 0 <= j < k < MAX_STATES ==> order[j] != order[k])
    && (forall k :: 0 <= k < MAX_STATES - 1 ==> next[order[k]] == order[k + 1])
    && next[order[MAX_STATES - 1]] == order[0]
  }

  lemma FrontToFront(order: seq<nat>)
    requires |order| == MAX_STATES
    ensures ToFront(order, 0) == order
  {
  }

  lemma RotatedChain(order: seq<nat>, next: seq<nat>)
    requires Chain(order, next)
    ensures Chain(ToFront(order, MAX_STATES - 1), next)
    ensures ToFront(order, MAX_STATES - 1)[MAX_STATES - 1] == order[MAX_STATES - 2]
  {
    assert ToFront(order, MAX_STATES - 1) == [order[MAX_STATES - 1]] + order[..MAX_STATES - 1];
  }

  /** The three link assignments. */
  ghost function Relink(order: seq<nat>, next: seq<nat>, k: nat): (r: seq<nat>)
    requires |order| == |next| == MAX_STATES && 1 <= k < MAX_STATES
    requires forall a :: 0 <= a < MAX_STATES ==> order[a] < MAX_STATES
  {
    var last := order[MAX_STATES - 1];
    var a: seq<nat> := next[order[k - 1] := next[order[k]]];
    var b: seq<nat> := a[order[k] := a[last]];
    b[last := order[k]]
  }

  lemma MovedOrder(order: seq<nat>, k: nat)
    requires |order| == MAX_STATES && 1 <= k < MAX_STATES - 1
    ensures var r := ToFront(order, k);
            forall a :: 0 <= a < MAX_STATES ==> r[a] == order[if a == 0 then k else if a <= k then a - 1 else a]
  {
  }

  /** Unlinking place `k` and linking it in front is moving it to the front of the order. */
  lemma RelinkedChain(order: seq<nat>, next: seq<nat>, k: nat)
    requires Chain(order, next) && 1 <= k < MAX_STATES - 1
    ensures Chain(ToFront(order, k), Relink(order, next, k))
    ensures ToFront(order, k)[MAX_STATES - 1] == order[MAX_STATES - 1]
  {
    hide ToFront;
    MovedOrder(order, k);
    var r := ToFront(order, k);
    var next' := Relink(order, next, k);
    forall a | 0 <= a < MAX_STATES - 1 ensures next'[r[a]] == r[a + 1] {
      assert a == 0 || a == k || (a < k && r[a] == order[a - 1]) || (a > k && r[a] == order[a]);
    }
  }

  lemma SameSpots(hlen: nat, h: Header, h': Header)
    requires Saved(hlen, h).Valid() && h'[0] == h[0] && h'[10] == h[10] && h'[11] == h[11]
    ensures Saved(hlen, h').Valid()
  {
  }

  /** The two outcomes for a compressible packet. */
  lemma CompressCases(tx: Tx, p: seq<byte>, cid: bool)
    requires tx.Valid() && Admissible(p) && Compressible(p)
    ensures VjCompress.Compress(tx, p, cid)
            == Sent(File(tx, p),
                    match CodeIn(tx, p)
                    case Plain => Frame(TYPE_UNCOMPRESSED_TCP, p[9 := SlotFor(tx, p)])
                    case Coded(m, deltas) =>
                      Frame(TYPE_COMPRESSED_TCP,
                            VjBytes(m.(c := !cid || tx.lastXmit != SlotFor(tx, p)), SlotFor(tx, p), TcpSum(p), deltas)
                            + p[HeaderLen(p)..]))
  {
    hide File, CodeIn, VjBytes, HeaderLen;
  }

  lemma TcpAtEven(h: Header)
    ensures TcpAt(h) % 2 == 0
  {
  }

  lemma NothingStands(buf: array<byte>, bufp: nat, at: nat, packet: Option<seq<byte>>, moved: bool)
    requires packet.None?
    ensures StandsAt(buf, bufp, false, at, packet, moved)
  {
  }

  lemma PacketStands(buf: array<byte>, bufp: nat, at: nat, packet: Option<seq<byte>>, moved: bool)
    requires packet.Some? && bufp - MAX_HDR <= at && at + |packet.value| <= buf.Length
    requires SameBut(buf[at..at + |packet.value|], packet.value, moved)
    ensures StandsAt(buf, bufp, true, at, packet, moved)
  {
  }

  lemma PositionStep(tx: Tx, c: Conn, k: nat)
    requires tx.Valid() && k < MAX_STATES
    ensures Position(tx, c, k) == if Key(tx.hdrs[tx.order[k]]) == c then k else Position(tx, c, k + 1)
    ensures Position(tx, c, MAX_STATES) == MAX_STATES
  {
  }

  class Line {
    var lastCs: nat
    var lastRecv: byte
    var lastXmit: byte
    var toss: bool
    var cnt: byte
    const tstate: array<CState>
    const rstate: array<CState>

    /** The transmit states in the order of the circular list, most recently used first. */
    ghost var order: seq<nat>

    ghost function Nexts(): (ns: seq<nat>)
      reads tstate
      ensures |ns| == tstate.Length
      ensures forall i :: 0 <= i < |ns| ==> ns[i] == tstate[i].next
    {
      seq(tstate.Length, i requires 0 <= i < tstate.Length reads tstate => tstate[i].next)
    }

    /** The list is one cycle through all transmit states, and `last_cs` is its end. */
    ghost predicate Linked()
      reads this`order, this`lastCs, tstate
    {
      && tstate.Length == MAX_STATES && Chain(order, Nexts()) && lastCs == order[MAX_STATES - 1]
      && (forall i :: 0 <= i < MAX_STATES ==> tstate[i].id == i)
    }

    ghost function Slots(): (ss: seq<Saved>)
      reads rstate
      ensures |ss| == rstate.Length
      ensures forall i :: 0 <= i < |ss| ==> ss[i] == Saved(rstate[i].hlen, rstate[i].hdr)
    {
      seq(rstate.Length, i requires 0 <= i < rstate.Length reads rstate => Saved(rstate[i].hlen, rstate[i].hdr))
    }

    ghost predicate Valid()
      reads this`order, this`lastCs, tstate, rstate
    {
      && Linked() && tstate != rstate && rstate.Length == MAX_STATES
      && forall i :: 0 <= i < MAX_STATES ==> Slots()[i].Valid()
    }

    ghost function Headers(): (hs: seq<Header>)
      reads tstate
      ensures |hs| == tstate.Length
      ensures forall i :: 0 <= i < |hs| ==> hs[i] == tstate[i].hdr
    {
      seq(tstate.Length, i requires 0 <= i < tstate.Length reads tstate => tstate[i].hdr)
    }

    ghost function TxState(): (tx: Tx)
      reads this`order, this`lastXmit, tstate
    {
      Tx(order, Headers(), lastXmit)
    }

    ghost function RxState(): (rx: Rx)
      reads this`lastRecv, this`toss, this`cnt, rstate
    {
      Rx(Slots(), lastRecv, toss, cnt)
    }

    /** Links the transmit states into a circular list and numbers them. */
    static method LinkStates(ts: array<CState>)
      requires ts.Length == MAX_STATES
      modifies ts
      ensures forall j :: 0 <= j < MAX_STATES ==>
                ts[j] == old(ts[j]).(id := j, next := if j == 0 then MAX_STATES - 1 else j - 1)
    {
      var i: nat := MAX_STATES - 1;
      while i > 0
        invariant i < MAX_STATES
        invariant forall j :: i < j < MAX_STATES ==> ts[j] == old(ts[j]).(id := j, next := j - 1)
        invariant forall j :: 0 <= j <= i ==> ts[j] == old(ts[j])
      {
        ts[i] := ts[i].(id := i, next := i - 1);
        i := i - 1;
      }
      ts[0] := ts[0].(next := MAX_STATES - 1, id := 0);
    }

    /** `sl_compress_init` */
    constructor ()
      ensures Valid() && fresh(tstate) && fresh(rstate)
      ensures TxState() == VjCompress.Initial() && RxState() == VjUncompress.Initial()
      ensures tstate.Length == 16 && lastCs == 0 && lastXmit == 255 && lastRecv == 255 && !toss && cnt == 0
      ensures forall i :: 0 <= i < 16 ==> order[i] == 15 - i && tstate[i].id == i && tstate[i].hdr == Blank()
    {
      tstate := new CState[MAX_STATES](_ => CState(0, 0, 0, Blank()));
      rstate := new CState[MAX_STATES](_ => CState(0, 0, 0, Blank()));
      toss, cnt := false, 0;
      lastCs, lastRecv, lastXmit := 0, 255, 255;
      order := seq(MAX_STATES, k requires 0 <= k < MAX_STATES => MAX_STATES - 1 - k);
      new;
      LinkStates(tstate);
      hide Blank, Saved.Valid;
      assert Slots() == VjUncompress.Initial().slots;
      assert Headers() == VjCompress.Initial().hdrs;
    }

    /** Moving `last_cs` back by one makes the oldest state the newest. */
    method Rotate(lcs: nat)
      requires Valid() && lcs == order[MAX_STATES - 2]
      modifies this`lastCs, this`order
      ensures Valid() && order == ToFront(old(order), MAX_STATES - 1)
    {
      hide ToFront;
      RotatedChain(order, Nexts());
      lastCs := lcs;
      order := ToFront(order, MAX_STATES - 1);
    }

    /** Relinks the state at place `k` of the list, behind `lcs`, to the front. */
    method MoveToFront(lcs: nat, cs: nat, ghost k: nat)
      requires Valid() && 1 <= k < MAX_STATES && cs == order[k] && lcs == order[k - 1]
      modifies this`lastCs, this`order, tstate
      ensures Valid() && TxState().hdrs == old(TxState().hdrs) && order == ToFront(old(order), k)
    {
      hide ToFront;
      if lastCs == cs {
        assert k == MAX_STATES - 1;
        Rotate(lcs);
      } else {
        ghost var ns: seq<nat> := Nexts();
        RelinkedChain(order, ns, k);
        tstate[lcs] := tstate[lcs].(next := tstate[cs].next);
        tstate[cs] := tstate[cs].(next := tstate[lastCs].next);
        tstate[lastCs] := tstate[lastCs].(next := cs);
        hide Chain;
        assert Nexts() == Relink(order, ns, k);
        assert Headers() == old(Headers());
        order := ToFront(order, k);
      }
    }

    /** The first quarter of `sl_compress_tcp`: find the state of a conversation, or take the oldest one,
        and make it the front of the list. */
    method FindState(c: Conn) returns (cs: nat, found: bool)
      requires Valid()
      modifies this`lastCs, this`order, tstate
      ensures Valid() && TxState().hdrs == old(TxState().hdrs)
      ensures var k := Position(old(TxState()), c, 0);
              && found == (k < MAX_STATES)
              && var j := if found then k else MAX_STATES - 1;
                 cs == old(order)[j] && order == ToFront(old(order), j)
    {
      hide ToFront, Position, Key;
      cs := tstate[lastCs].next;
      ghost var k := 0;
      ghost var tx := TxState();
      PositionStep(tx, c, 0);
      if Key(tstate[cs].hdr) == c {
        FrontToFront(order);
        return cs, true;
      }
      var lcs;
      while true
        invariant unchanged(this) && unchanged(tstate)
        invariant 0 <= k < MAX_STATES - 1 && cs == order[k] && Position(tx, c, 0) == Position(tx, c, k + 1)
        decreases MAX_STATES - k
      {
        lcs := cs;
        cs := tstate[cs].next;
        k := k + 1;
        PositionStep(tx, c, k);
        if Key(tstate[cs].hdr) == c {
          MoveToFront(lcs, cs, k);
          return cs, true;
        }
        if cs == lastCs {
          break;
        }
      }
      Rotate(lcs);
      found := false;
    }

    /** `sl_compress_tcp` up to the point where the saved header is updated: finds the state, codes the
        changes against the header in it, and saves the header of `p`. */
    method FileHeader(p: seq<byte>, newSeq: array<byte>) returns (id: byte, plain: bool, changes: Mask, cp: nat)
      requires Valid() && Segment(p) && newSeq.Length == 16
      modifies this`lastCs, this`order, tstate, newSeq
      ensures Valid() && id == SlotFor(old(TxState()), p) && TxState().(lastXmit := id) == File(old(TxState()), p)
      ensures plain == CodeIn(old(TxState()), p).Plain?
      ensures !plain ==> cp <= 15 && Coded(changes, newSeq[..cp]) == CodeIn(old(TxState()), p)
    {
      hide Key, HeaderLen, Code, Position, ToFront;
      PacketSize(p);
      ghost var tx := TxState();
      var cs, found := FindState(Key(p));
      ghost var next := Nexts();
      assert cs == SlotFor(tx, p) && order == ToFront(tx.order, Place(tx, p));
      assert Headers() == tx.hdrs;
      plain, changes, cp := true, Mask(false, false, false, false, false, false, false), 0;
      if found {
        plain, changes, cp := CodeChanges(tstate[cs].hdr, p, newSeq);
      }
      tstate[cs] := tstate[cs].(hdr := Overwrite(tstate[cs].hdr, p[..HeaderLen(p)]));
      id := tstate[cs].id;
      hide Overwrite, Segment;
      assert Nexts() == next;
      assert Headers() == tx.hdrs[cs := Overwrite(tx.hdrs[cs], p[..HeaderLen(p)])];
    }

    /** `sl_compress_tcp`: a compressed header replaces the end of the original one, in place. */
    method Compress(buf: array<byte>, off: nat, len: nat, compressCid: bool)
      returns (kind: byte, newOff: nat, newLen: nat)
      requires Valid() && off + len <= buf.Length && Admissible(buf[off..off + len])
      modifies this`lastCs, this`order, this`lastXmit, tstate, buf
      ensures Valid()
      ensures var r := VjCompress.Compress(old(TxState()), old(buf[off..off + len]), compressCid);
              TxState() == r.tx && kind == r.frame.kind && FrameAt(buf, off, len, newOff, newLen, r.frame.bytes)
      ensures forall k :: 0 <= k < buf.Length && !(off <= k < off + len) ==> buf[k] == old(buf[k])
    {
      hide Segment, HeaderLen, CodeIn, MaskByte, File, SlotFor, VjBytes, Unfragmented, TcpSum;
      var p := buf[off..off + len];
      ghost var r := VjCompress.Compress(TxState(), p, compressCid);
      hide Linked;
      if !Compressible(p) {
        return TYPE_IP, off, len;
      }
      PacketSize(p);
      CompressCases(TxState(), p, compressCid);
      hide VjCompress.Compress, Compressible, Admissible;
      var newSeq := new byte[16];
      var id, plain, changes, cp := FileHeader(p, newSeq);
      var explicit := !compressCid || lastXmit != id;
      lastXmit := id;
      if plain {
        NumberPacket(buf, off, len, id);
        kind, newOff, newLen := TYPE_UNCOMPRESSED_TCP, off, len;
        assert FrameAt(buf, off, len, off, len, r.frame.bytes);
      } else {
        var hlen := WriteCompressed(buf, off, len, explicit, changes, id, newSeq, cp);
        kind, newOff, newLen := TYPE_COMPRESSED_TCP, off + hlen, len - hlen;
        assert FrameAt(buf, off, len, newOff, newLen, r.frame.bytes);
      }
    }

    method StoreHeader(hdr: Header)
      requires Valid() && lastRecv < MAX_STATES && Saved(rstate[lastRecv].hlen, hdr).Valid()
      modifies rstate
      ensures Valid() && rstate[lastRecv].hdr == hdr && rstate[lastRecv].hlen == old(rstate[lastRecv].hlen)
      ensures Slots() == old(Slots())[lastRecv := old(Slots())[lastRecv].(hdr := hdr)]
    {
      hide Linked;
      rstate[lastRecv] := rstate[lastRecv].(hdr := hdr);
      assert Slots() == old(Slots())[lastRecv := old(Slots())[lastRecv].(hdr := hdr)];
    }

    /** Its last part, the slot being patched: the length, and the header in front of the data. */
    method FinishPacket(buf: array<byte>, bufp: nat, len: nat, cp: nat, base: nat) returns (ok: bool, at: nat)
      requires Valid() && MAX_HDR <= bufp && bufp + len <= buf.Length && lastRecv < MAX_STATES
      requires bufp + 3 <= cp <= bufp + 16 && bufp + MAX_HDR <= buf.Length
      modifies this`toss, rstate, buf
      ensures Valid()
      ensures var r := Finish(old(RxState()), Cursor(old(rstate[lastRecv].hdr), old(buf[cp..])), len - (cp - bufp));
              var slot := old(RxState()).slots[lastRecv];
              RxState() == r.rx && StandsAt(buf, bufp, ok, at, r.packet,
                                            VjReceiver.SumsMoved(slot, len - (cp - bufp), base + cp))
      ensures ok ==> (base + at) % 4 == 0
      ensures forall k :: 0 <= k < bufp - MAX_HDR ==> buf[k] == old(buf[k])
    {
      hide Finish, Linked, Restore, TcpAt, Put16, StandsAt, VjReceiver.SumsMoved;
      ghost var moved := VjReceiver.SumsMoved(Slots()[lastRecv], len - (cp - bufp), base + cp);
      var csHlen, hdr := rstate[lastRecv].hlen, rstate[lastRecv].hdr;
      var ipLen, vjLen := TcpAt(hdr), cp - bufp;
      TcpAtEven(hdr);
      ghost var rx, c := RxState(), Cursor(hdr, buf[cp..]);
      ghost var r := Finish(rx, c, len - vjLen);
      ok, at := false, bufp;
      VjReceiver.FinishCases(rx, c, len - vjLen);
      if len < vjLen {
        toss := true;
        NothingStands(buf, bufp, at, r.packet, moved);
        return;
      }
      ok, at, hdr := BuildPacket(buf, cp, len - vjLen, base, csHlen, ipLen, hdr);
      SameSpots(csHlen, c.h, hdr);
      StoreHeader(hdr);
      assert RxState() == r.rx;
      if ok {
        PacketStands(buf, bufp, at, r.packet, moved);
      } else {
        NothingStands(buf, bufp, at, r.packet, moved);
      }
    }

    /** The fields of the current slot are patched from the octets at `start`. */
    method PatchState(changes: Mask, buf: array<byte>, start: nat) returns (hdr: Header, cp: nat)
      requires Valid() && lastRecv < MAX_STATES && start + 20 <= buf.Length
      modifies rstate
      ensures Valid() && Saved(rstate[lastRecv].hlen, hdr).Valid()
      ensures var rx := old(RxState());
              && RxState() == rx.(slots := rx.slots[lastRecv := rx.slots[lastRecv].(hdr := hdr)])
              && start + 2 <= cp <= start + 14 && cp <= buf.Length
              && Cursor(hdr, buf[cp..]) == Patch(rx.slots[lastRecv], changes, buf[start..])
    {
      hide Patch, Linked;
      ghost var slot := Slots()[lastRecv];
      hdr, cp := PatchHeader(rstate[lastRecv].hdr, rstate[lastRecv].hlen, changes, buf, start);
      VjReceiver.PatchedSlotValid(slot, changes, buf[start..]);
      StoreHeader(hdr);
    }

    /** What happens to a compressed packet once its connection is known. */
    method RebuildPacket(buf: array<byte>, bufp: nat, len: nat, changes: Mask, start: nat, base: nat)
      returns (ok: bool, at: nat, vjLen: nat)
      requires Valid() && MAX_HDR <= bufp && bufp + len <= buf.Length && bufp + MAX_HDR <= buf.Length
      requires bufp < start <= bufp + 2 && lastRecv < MAX_STATES
      modifies this`toss, rstate, buf
      ensures Valid()
      ensures var r := Rebuild(old(RxState()), changes, old(buf[bufp..]), len, start - bufp);
              var slot := old(RxState()).slots[lastRecv];
              RxState() == r.rx && StandsAt(buf, bufp, ok, at, r.packet,
                                            VjReceiver.SumsMoved(slot, len - vjLen, base + bufp + vjLen))
      ensures vjLen == VjReceiver.Span(changes, old(buf[bufp..]), start - bufp) > 0
      ensures ok ==> (base + at) % 4 == 0
      ensures forall k :: 0 <= k < bufp - MAX_HDR ==> buf[k] == old(buf[k])
    {
      hide Patch, Finish, Linked, Assemble, TcpAt, Put16, StandsAt, VjReceiver.Span;
      ghost var rx, mem := RxState(), buf[bufp..];
      var hdr, cp := PatchState(changes, buf, start);
      assert mem[start - bufp..] == buf[start..];
      PatchedSpan(rx.slots[lastRecv], changes, mem, start - bufp, buf.Length - cp);
      ghost var c := Cursor(hdr, buf[cp..]);
      assert Rebuild(rx, changes, mem, len, start - bufp) == Finish(rx, c, len - (cp - bufp));
      VjReceiver.PatchedSlotValid(rx.slots[lastRecv], changes, buf[start..]);
      StoredFirst(rx, RxState(), c, len - (cp - bufp));
      vjLen := cp - bufp;
      ok, at := FinishPacket(buf, bufp, len, cp, base);
    }

    /** The TYPE_COMPRESSED_TCP case: find the connection. */
    method ExpandPacket(buf: array<byte>, bufp: nat, len: nat, base: nat) returns (ok: bool, at: nat, vjLen: nat)
      requires Valid() && MAX_HDR <= bufp && bufp + len <= buf.Length && bufp + MAX_HDR <= buf.Length && cnt != 0
      modifies this`lastRecv, this`toss, rstate, buf
      ensures Valid()
      ensures var r := VjUncompress.Uncompress(old(RxState()), TYPE_COMPRESSED_TCP, old(buf[bufp..]), len);
              var mem := old(buf[bufp..]);
              var moved := VjReceiver.CallSumsMoved(old(RxState()), TYPE_COMPRESSED_TCP, mem, len, base + bufp);
              RxState() == r.rx && StandsAt(buf, bufp, ok, at, r.packet, moved)
      ensures vjLen == VjReceiver.Consumed(old(RxState()), TYPE_COMPRESSED_TCP, old(buf[bufp..]))
      ensures ok ==> (base + at) % 4 == 0
      ensures forall k :: 0 <= k < bufp - MAX_HDR ==> buf[k] == old(buf[k])
    {
      hide Rebuild, Refresh, MaskOf, Linked, VjReceiver.Span, VjReceiver.SumsMoved, SameBut;
      ok, at, vjLen := false, bufp, 0;
      var changes, cp := MaskOf(buf[bufp]), bufp + 1;
      if changes.c {
        if buf[cp] >= MAX_STATES {
          toss := true;
          return;
        }
        toss, lastRecv := false, buf[cp];
        cp := cp + 1;
      } else if toss || lastRecv >= MAX_STATES {
        return;
      }
      ok, at, vjLen := RebuildPacket(buf, bufp, len, changes, cp, base);
    }

    /** The TYPE_UNCOMPRESSED_TCP case. */
    method RefreshState(buf: array<byte>, bufp: nat, len: nat) returns (ok: bool)
      requires Valid() && bufp + len <= buf.Length && Readable(buf[bufp..], len)
      modifies this`lastRecv, this`toss, this`cnt, rstate, buf
      ensures Valid()
      ensures var r := Refresh(old(RxState()), old(buf[bufp..]), len);
              && RxState() == r.rx && ok == r.packet.Some?
              && (ok ==> |r.packet.value| == len && buf[bufp..bufp + len] == r.packet.value)
      ensures forall k :: 0 <= k < bufp ==> buf[k] == old(buf[k])
    {
      hide HeaderLen, Overwrite, Linked;
      ghost var mem := buf[bufp..];
      var i := buf[bufp + 9];
      if i >= MAX_STATES {
        toss := true;
        return false;
      }
      lastRecv, toss := i, false;
      buf[bufp + 9] := IPPROTO_TCP;
      assert buf[bufp..] == mem[9 := IPPROTO_TCP];
      var hlen := HeaderLen(buf[bufp..]);
      var hdr := Overwrite(rstate[i].hdr, buf[bufp..][..hlen])[10 := 0][11 := 0];
      rstate[i] := rstate[i].(hdr := hdr, hlen := hlen);
      cnt := (cnt + 1) % 0x100;
      assert Slots() == Refresh(old(RxState()), mem, len).rx.slots;
      VjReceiver.RefreshValid(old(RxState()), mem, len);
      ok := true;
    }

    /** `sl_uncompress_tcp`. The packet at `bufp` is rebuilt in the same buffer: its header grows into the
        room in front. `base` is the address of the buffer, for the alignment; `vjLen` is what is written
        through `pnVJlen`, 0 where nothing is. Only where the header checksum is computed past the end of the
        packet can two octets differ from those of the function. */
    method Uncompress(buf: array<byte>, bufp: nat, len: nat, kind: byte, base: nat)
      returns (ok: bool, at: nat, vjLen: nat)
      requires Valid() && MAX_HDR <= bufp && bufp + len <= buf.Length && Readable(buf[bufp..], len)
      modifies this`lastRecv, this`toss, this`cnt, rstate, buf
      ensures Valid()
      ensures var r := VjUncompress.Uncompress(old(RxState()), kind, old(buf[bufp..]), len);
              var moved := VjReceiver.CallSumsMoved(old(RxState()), kind, old(buf[bufp..]), len, base + bufp);
              RxState() == r.rx && StandsAt(buf, bufp, ok, at, r.packet, moved)
      ensures vjLen == VjReceiver.Consumed(old(RxState()), kind, old(buf[bufp..]))
      ensures ok && kind == TYPE_COMPRESSED_TCP ==> (base + at) % 4 == 0
      ensures forall k :: 0 <= k < bufp - MAX_HDR ==> buf[k] == old(buf[k])
    {
      hide Rebuild, Refresh, HeaderLen, Linked, MaskOf, VjReceiver.Span, VjReceiver.SumsMoved;
      ok, at, vjLen := false, bufp, 0;
      if kind == TYPE_IP {
        assert buf[bufp..][..len] == buf[bufp..bufp + len];
        ok := true;
      } else if kind == TYPE_UNCOMPRESSED_TCP {
        ok := RefreshState(buf, bufp, len);
      } else if kind == TYPE_COMPRESSED_TCP {
        if cnt != 0 {
          ok, at, vjLen := ExpandPacket(buf, bufp, len, base);
        }
      } else {
        toss := true;
      }
    }
  }
}
