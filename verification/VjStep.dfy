/** One packet down the line: compressed at one end, and delivered, or lost with the loss reported. */
module VjStep {
  import opened Bytes
  import opened Checksum
  import opened VjDelta
  import opened VjHeader
  import opened VjCompress
  import VjUncompress
  import VjReceiver
  import opened VjRoundTrip
  import opened VjStale

  type Rx = VjUncompress.Rx
  type Received = VjUncompress.Received

  ghost predicate TxGood(tx: Tx) {
    tx.Valid() && forall i :: 0 <= i < MAX_STATES ==> SlotInvariant(tx.hdrs[i])
  }

  lemma InitialGood()
    ensures TxGood(VjCompress.Initial())
  {
  }

  lemma ToFrontPermutes(order: seq<nat>, k: nat)
    requires k < |order|
    requires forall a, b :: 0 <= a < b < |order| ==> order[a] != order[b]
    ensures var r := ToFront(order, k);
            && (forall a :: 0 <= a < |r| ==>
                  r[a] == if a == 0 then order[k] else if a <= k then order[a - 1] else order[a])
            && (forall a, b :: 0 <= a < b < |r| ==> r[a] != r[b])
  {
  }

  lemma OverwriteSegment(t: Header, p: seq<byte>)
    requires Segment(p)
    ensures var r := Overwrite(t, p[..HeaderLen(p)]);
            Segment(r) && Used(r) && Key(r) == Key(p) && HeaderLen(r) == HeaderLen(p)
  {
    var r := Overwrite(t, p[..HeaderLen(p)]);
    assert r[0] == p[0] && r[TcpAt(p) + 12] == p[TcpAt(p) + 12];
  }

  lemma ToFrontAt(order: seq<nat>, k: nat, a: nat)
    requires k < |order| && a < |order|
    ensures ToFront(order, k)[a] == order[if a == 0 then k else if a <= k then a - 1 else a]
  {
  }

  lemma FileValid(tx: Tx, p: seq<byte>)
    requires tx.Valid() && HasTcp(p) && Segment(p)
    ensures File(tx, p).Valid()
  {
    hide Segment, HeaderLen, Overwrite, Position, Key;
    ToFrontPermutes(tx.order, Place(tx, p));
  }

  lemma FileGood(tx: Tx, p: seq<byte>)
    requires TxGood(tx) && HasTcp(p) && Segment(p)
    ensures TxGood(File(tx, p)) && Used(File(tx, p).hdrs[SlotFor(tx, p)])
  {
    hide Segment, HeaderLen, Position, Key, Overwrite, ToFront, SlotFor;
    OverwriteSegment(tx.hdrs[SlotFor(tx, p)], p);
    FileValid(tx, p);
  }

  /** A packet is coded only against a used slot of its own conversation. */
  lemma CodedSlot(tx: Tx, p: seq<byte>)
    requires TxGood(tx) && Segment(p) && CodeIn(tx, p).Coded?
    ensures var t := tx.hdrs[SlotFor(tx, p)];
            Used(t) && CodedAs(t, p, CodeIn(tx, p).mask, CodeIn(tx, p).deltas)
  {
    hide Changes, Specials, Key;
    var t := tx.hdrs[SlotFor(tx, p)];
    U16Injective(t, p, 0);
  }

  // ---- the two ends in step ----

  /** On the slots in `I` the two ends hold the same headers. */
  ghost predicate InStep(tx: Tx, rx: Rx, I: set<nat>) {
    && TxGood(tx) && rx.Valid()
    && forall i :: i in I ==> i < MAX_STATES && Used(tx.hdrs[i]) && Agrees(tx.hdrs[i], rx.slots[i])
  }

  /** Where it could matter, both remember the same connection as the last one: unless the receiver is
      tossing, or its count of uncompressed packets stands at 0. */
  ghost predicate Aligned(tx: Tx, rx: Rx) {
    rx.cnt == 0 || rx.toss || rx.lastRecv == tx.lastXmit
  }

  ghost function UsedSlots(tx: Tx): (I: set<nat>)
    requires tx.Valid()
  {
    set i: nat | i < MAX_STATES && Used(tx.hdrs[i])
  }

  /** `slack` is whatever follows the frame in the receive buffer. */
  ghost function Deliver(rx: Rx, f: Frame, slack: seq<byte>): (r: Received)
    requires rx.Valid() && |slack| >= MAX_HDR
  {
    VjUncompress.Uncompress(rx, f.kind, f.bytes + slack, |f.bytes|)
  }

  lemma PlainIpStep(tx: Tx, rx: Rx, p: seq<byte>, cid: bool, slack: seq<byte>)
    requires TxGood(tx) && rx.Valid() && Admissible(p) && !Compressible(p) && |slack| >= MAX_HDR
    ensures Deliver(rx, Compress(tx, p, cid).frame, slack) == VjUncompress.Received(rx, Some(p))
    ensures Compress(tx, p, cid).tx == tx
  {
    assert (p + slack)[..|p|] == p;
  }

  /** What an uncompressed frame does to its own slot, whatever was there. */
  lemma RefreshedSlot(rx: Rx, t: Header, p: seq<byte>, i: nat, slack: seq<byte>)
    requires rx.Valid() && Segment(p) && i < MAX_STATES && |slack| >= MAX_HDR
    ensures var r := VjUncompress.Refresh(rx, p[9 := i] + slack, |p|);
            && r.packet == Some(p) && r.rx.lastRecv == i && !r.rx.toss && r.rx.cnt == (rx.cnt + 1) % 0x100
            && |r.rx.slots| == MAX_STATES && Agrees(Overwrite(t, p[..HeaderLen(p)]), r.rx.slots[i])
            && (forall j :: 0 <= j < MAX_STATES && j != i ==> r.rx.slots[j] == rx.slots[j])
  {
    var mem := p[9 := i] + slack;
    var m := mem[9 := IPPROTO_TCP];
    assert m[..|p|] == p;
    assert m[0] == p[0] && m[TcpAt(p) + 12] == p[TcpAt(p) + 12];
    assert HeaderLen(m) == HeaderLen(p);
    OverwriteSegment(t, p);
  }

  /** An uncompressed frame puts its slot in step from any receiver state, clears the toss flag, names
      the connection, and is itself restored exactly. */
  lemma UncompressedStep(tx: Tx, rx: Rx, I: set<nat>, p: seq<byte>, cid: bool, slack: seq<byte>)
    requires InStep(tx, rx, I) && Admissible(p) && Compressible(p) && CodeIn(tx, p).Plain?
    requires |slack| >= MAX_HDR
    ensures var r := Deliver(rx, Compress(tx, p, cid).frame, slack);
            && r.packet == Some(p) && !r.rx.toss && r.rx.cnt == (rx.cnt + 1) % 0x100
            && r.rx.lastRecv == Compress(tx, p, cid).tx.lastXmit
            && InStep(Compress(tx, p, cid).tx, r.rx, I + {SlotFor(tx, p)})
  {
    hide Segment, Agrees, CodeIn, Key;
    var f := Compress(tx, p, cid).frame;
    var i := SlotFor(tx, p);
    VjReceiver.ReceiverInvariant(rx, f.kind, f.bytes + slack, |f.bytes|);
    FileGood(tx, p);
    RefreshedSlot(rx, tx.hdrs[i], p, i, slack);
  }

  /** Whether the compressor's side of a coded packet is one the coding carries in full. */
  ghost predicate FaithfulIn(tx: Tx, p: seq<byte>)
    requires TxGood(tx) && Segment(p) && CodeIn(tx, p).Coded?
  {
    Faithful(tx.hdrs[SlotFor(tx, p)], p, CodeIn(tx, p).mask)
  }

  /** What the decompressor then makes of it, faithful or not. */
  ghost predicate HandedIn(out: seq<byte>, tx: Tx, p: seq<byte>)
    requires TxGood(tx) && Segment(p) && CodeIn(tx, p).Coded?
  {
    HandedOn(out, tx.hdrs[SlotFor(tx, p)], p, CodeIn(tx, p).mask)
  }

  /** Whether a receive slot has what it takes to rebuild `p`. */
  ghost predicate FitsIn(s: VjUncompress.Saved, tx: Tx, p: seq<byte>)
    requires TxGood(tx) && Segment(p) && CodeIn(tx, p).Coded?
  {
    Fits(s, tx.hdrs[SlotFor(tx, p)], p, CodeIn(tx, p).mask)
  }

  lemma SplitFrame(head: seq<byte>, body: seq<byte>, data: seq<byte>, slack: seq<byte>)
    ensures head + body + data + slack == head + (body + (data + slack))
    ensures (head + body + data + slack)[|head|..] == body + (data + slack)
  {
    assert head + body + data + slack == head + (body + (data + slack));
  }

  /** How the octets of a compressed frame lie in the receive buffer. */
  lemma FrameLayout(tx: Tx, p: seq<byte>, cid: bool, slack: seq<byte>)
    requires TxGood(tx) && Admissible(p) && Compressible(p) && CodeIn(tx, p).Coded? && |slack| >= MAX_HDR
    ensures var f := Compress(tx, p, cid).frame;
            var mem := f.bytes + slack;
            var explicit := SendsId(tx, p, cid);
            && f.kind == TYPE_COMPRESSED_TCP
            && MaskOf(mem[0]) == CodeIn(tx, p).mask.(c := explicit)
            && (explicit ==> mem[1] == SlotFor(tx, p))
            && Holds(mem, |f.bytes|, if explicit then 2 else 1, CodeIn(tx, p).deltas, p, slack)
  {
    hide CodeIn, MaskByte, MaskOf, Known, SumAndDeltas;
    var explicit := SendsId(tx, p, cid);
    var m := CodeIn(tx, p).mask.(c := explicit);
    var i := SlotFor(tx, p);
    MaskRoundTrip(m);
    var body := SumAndDeltas(TcpSum(p), CodeIn(tx, p).deltas);
    SplitFrame([MaskByte(m)] + (if explicit then [i] else []), body, p[HeaderLen(p)..], slack);
  }

  /** The receive slot that a compressed frame is applied to: the one it names, or the last one heard of. */
  ghost function TargetOf(tx: Tx, rx: Rx, p: seq<byte>, cid: bool): (j: nat)
    requires tx.Valid() && Segment(p)
  {
    if SendsId(tx, p, cid) then SlotFor(tx, p) else rx.lastRecv
  }

  /** The slots in step after a compressed frame has been delivered. */
  ghost function StillInStep(tx: Tx, rx: Rx, I: set<nat>, p: seq<byte>, cid: bool): (J: set<nat>)
    requires TxGood(tx) && Segment(p) && CodeIn(tx, p).Coded?
  {
    var i, j := SlotFor(tx, p), TargetOf(tx, rx, p, cid);
    if !SendsId(tx, p, cid) && rx.toss then I - {i}
    else if i == j && FaithfulIn(tx, p) then I
    else I - {i, j}
  }

  /** Which call of the rebuilding part a compressed frame leads to, if any. */
  lemma CompressedCall(tx: Tx, rx: Rx, p: seq<byte>, cid: bool, slack: seq<byte>)
    requires TxGood(tx) && rx.Valid() && Admissible(p) && Compressible(p) && CodeIn(tx, p).Coded? && rx.cnt != 0
    requires |slack| >= MAX_HDR
    ensures var f := Compress(tx, p, cid).frame;
            var explicit, j := SendsId(tx, p, cid), TargetOf(tx, rx, p, cid);
            Deliver(rx, f, slack)
            == if (!explicit && rx.toss) || j >= MAX_STATES then VjUncompress.Received(rx, None)
               else VjUncompress.Rebuild(rx.(lastRecv := j, toss := false), CodeIn(tx, p).mask.(c := explicit),
                                         f.bytes + slack, |f.bytes|, if explicit then 2 else 1)
  {
    hide Segment, CodeIn, Key, VjUncompress.Rebuild, MaskOf, SlotFor;
    FrameLayout(tx, p, cid, slack);
  }

  // The connection bit of the mask makes no difference to any of this.

  lemma CodedConnBit(t: Header, p: seq<byte>, m: Mask, deltas: seq<byte>, explicit: bool)
    requires CodedAs(t, p, m, deltas)
    ensures CodedAs(t, p, m.(c := explicit), deltas) && Segment(t) && Segment(p)
    ensures Faithful(t, p, m) == Faithful(t, p, m.(c := explicit))
  {
    hide Code, ChecksumOf, Key, Segment, TopBits, UrgSet;
  }

  lemma HandedOnConnBit(out: seq<byte>, t: Header, p: seq<byte>, m: Mask, explicit: bool)
    requires HasTcp(t) && Segment(p)
    ensures HandedOn(out, t, p, m.(c := explicit)) == HandedOn(out, t, p, m)
  {
    hide ChecksumOf, Segment, TopBits, UrgSet, PlainAck, PushSet, U16;
  }

  lemma FitsConnBit(s: VjUncompress.Saved, t: Header, p: seq<byte>, m: Mask, explicit: bool)
    requires HasTcp(t) && Segment(p)
    ensures Fits(s, t, p, m.(c := explicit)) == Fits(s, t, p, m)
  {
    hide Segment, TopBits, UrgSet, PlainAck, Same32, U16, U32;
  }

  /** The frame of a coded packet, rebuilt into any slot. */
  lemma CodedRebuilt(tx: Tx, rx: Rx, p: seq<byte>, cid: bool, slack: seq<byte>)
    requires TxGood(tx) && rx.Valid() && Admissible(p) && Compressible(p) && CodeIn(tx, p).Coded? && |slack| >= MAX_HDR
    requires rx.lastRecv < MAX_STATES
    ensures var f := Compress(tx, p, cid).frame;
            var explicit, i := SendsId(tx, p, cid), SlotFor(tx, p);
            var r := VjUncompress.Rebuild(rx, CodeIn(tx, p).mask.(c := explicit),
                                          f.bytes + slack, |f.bytes|, if explicit then 2 else 1);
            && r.rx.Valid() && r.rx.toss == rx.toss && r.rx.lastRecv == rx.lastRecv && r.rx.cnt == rx.cnt
            && (forall j :: 0 <= j < MAX_STATES && j != rx.lastRecv ==> r.rx.slots[j] == rx.slots[j])
            && (r.packet.Some? <==> rx.slots[rx.lastRecv].hlen + |p| - HeaderLen(p) <= 1520)
            && (r.packet == Some(p) <==> Canonical(p) && FitsIn(rx.slots[rx.lastRecv], tx, p))
            && (i == rx.lastRecv && Agrees(tx.hdrs[i], rx.slots[i]) ==>
                  && (r.packet == Some(p) <==> FaithfulIn(tx, p))
                  && (r.packet.Some? ==> HandedIn(r.packet.value, tx, p))
                  && (FaithfulIn(tx, p) ==> Agrees(Overwrite(tx.hdrs[i], p[..HeaderLen(p)]), r.rx.slots[i])))
  {
    hide Segment, Agrees, CodeIn, Key, Used, Faithful, HandedOn, VjUncompress.Rebuild, CodedAs, MaskOf;
    hide Canonical, Fits;
    var i, explicit := SlotFor(tx, p), SendsId(tx, p, cid);
    var t, m, deltas := tx.hdrs[i], CodeIn(tx, p).mask, CodeIn(tx, p).deltas;
    var f := Compress(tx, p, cid).frame;
    var mem, at := f.bytes + slack, if explicit then 2 else 1;
    FrameLayout(tx, p, cid, slack);
    CodedSlot(tx, p);
    CodedConnBit(t, p, m, deltas, explicit);
    RebuildAnywhere(t, p, rx, m.(c := explicit), deltas, mem, |f.bytes|, at, slack);
    RebuildIff(t, p, rx, m.(c := explicit), deltas, mem, |f.bytes|, at, slack);
    FitsConnBit(rx.slots[rx.lastRecv], t, p, m, explicit);
    if i == rx.lastRecv && Agrees(t, rx.slots[i]) {
      RebuildExact(t, p, rx, m.(c := explicit), deltas, mem, |f.bytes|, at, slack);
      var out := VjUncompress.Rebuild(rx, m.(c := explicit), mem, |f.bytes|, at).packet;
      if out.Some? {
        HandedOnConnBit(out.value, t, p, m, explicit);
      }
    }
  }

  /** A delivered compressed frame. What it is rebuilt to is handed on if it is short enough, and it is the
      packet itself if and only if that is canonical and the slot it is applied to fits; where that is its
      own slot, and in step, if and only if the coding carries it in full. In any case no slot but its own
      and the one it is applied to falls out of step. */
  lemma CompressedStep(tx: Tx, rx: Rx, I: set<nat>, p: seq<byte>, cid: bool, slack: seq<byte>)
    requires InStep(tx, rx, I) && Admissible(p) && Compressible(p) && CodeIn(tx, p).Coded? && rx.cnt != 0
    requires |slack| >= MAX_HDR
    ensures var r := Deliver(rx, Compress(tx, p, cid).frame, slack);
            var accepted := SendsId(tx, p, cid) || !rx.toss;
            var i, j := SlotFor(tx, p), TargetOf(tx, rx, p, cid);
            && InStep(Compress(tx, p, cid).tx, r.rx, StillInStep(tx, rx, I, p, cid))
            && Compress(tx, p, cid).tx.lastXmit == i
            && r.rx.cnt == rx.cnt && r.rx.toss == !accepted
            && (!accepted || j >= MAX_STATES ==> r == VjUncompress.Received(rx, None))
            && (accepted ==> r.rx.lastRecv == j)
            && (accepted && j < MAX_STATES ==>
                  && (r.packet.Some? <==> rx.slots[j].hlen + |p| - HeaderLen(p) <= 1520)
                  && (r.packet == Some(p) <==> Canonical(p) && FitsIn(rx.slots[j], tx, p)))
            && (accepted && i == j && i in I ==>
                  && (r.packet == Some(p) <==> FaithfulIn(tx, p))
                  && (r.packet.Some? ==> HandedIn(r.packet.value, tx, p)))
  {
    hide Segment, Agrees, CodeIn, Key, Used, FaithfulIn, HandedIn, VjUncompress.Rebuild, Deliver, SlotFor;
    hide HeaderLen, Overwrite, Canonical, FitsIn;
    var j := TargetOf(tx, rx, p, cid);
    CompressedCall(tx, rx, p, cid, slack);
    FileGood(tx, p);
    if (SendsId(tx, p, cid) || !rx.toss) && j < MAX_STATES {
      CodedRebuilt(tx, rx.(lastRecv := j, toss := false), p, cid, slack);
    }
  }

  /** The session counter refuses compressed frames while it stands at 0, connection id and all. */
  lemma RefusedStep(tx: Tx, rx: Rx, p: seq<byte>, cid: bool, slack: seq<byte>)
    requires TxGood(tx) && rx.Valid() && Admissible(p) && Compressible(p) && CodeIn(tx, p).Coded? && rx.cnt == 0
    requires |slack| >= MAX_HDR
    ensures Deliver(rx, Compress(tx, p, cid).frame, slack) == VjUncompress.Received(rx, None)
  {
  }

  /** What goes unheard costs its own slot, and no other. */
  lemma SentOnly(tx: Tx, rx: Rx, I: set<nat>, p: seq<byte>, cid: bool)
    requires InStep(tx, rx, I) && Admissible(p)
    ensures InStep(Compress(tx, p, cid).tx, rx, if Compressible(p) then I - {SlotFor(tx, p)} else I)
  {
    hide CodeIn, Segment, Key, Agrees;
    if Compressible(p) {
      FileGood(tx, p);
    }
  }

  /** A frame that is lost and reported as TYPE_ERROR: only its own slot falls out of step. */
  lemma LostStep(tx: Tx, rx: Rx, I: set<nat>, p: seq<byte>, cid: bool, mem: seq<byte>, len: nat)
    requires InStep(tx, rx, I) && Admissible(p) && VjUncompress.Readable(mem, len)
    ensures var r := VjUncompress.Uncompress(rx, 0, mem, len);
            && r == VjUncompress.Received(rx.(toss := true), None)
            && InStep(Compress(tx, p, cid).tx, r.rx, if Compressible(p) then I - {SlotFor(tx, p)} else I)
  {
    SentOnly(tx, rx, I, p, cid);
  }

  lemma AgreedKey(t: Header, s: VjUncompress.Saved)
    requires Segment(t) && Agrees(t, s)
    ensures s.hdr[0] % 16 >= 5 && TcpAt(s.hdr) + 20 <= s.hlen && Key(s.hdr) == Key(t)
  {
    assert s.hdr[0] == t[0];
  }

  /** An implicit frame is applied to whatever slot the receiver heard of last; if that is in step with a
      slot of another conversation, what comes out belongs to the other conversation. */
  lemma MisroutedStep(tx: Tx, rx: Rx, p: seq<byte>, cid: bool, slack: seq<byte>)
    requires TxGood(tx) && rx.Valid() && Admissible(p) && Compressible(p) && CodeIn(tx, p).Coded?
    requires !SendsId(tx, p, cid) && !rx.toss && rx.cnt != 0 && rx.lastRecv < MAX_STATES && |slack| >= MAX_HDR
    requires Used(tx.hdrs[rx.lastRecv]) && Agrees(tx.hdrs[rx.lastRecv], rx.slots[rx.lastRecv])
    ensures var out := Deliver(rx, Compress(tx, p, cid).frame, slack).packet;
            out.Some? ==> HasTcp(out.value) && Key(out.value) == Key(tx.hdrs[rx.lastRecv])
  {
    hide CodeIn, MaskOf, VjUncompress.Rebuild, Segment, SumAndDeltas, Key;
    FrameLayout(tx, p, cid, slack);
    var f := Compress(tx, p, cid).frame;
    var mem := f.bytes + slack;
    var m := CodeIn(tx, p).mask.(c := false);
    AgreedKey(tx.hdrs[rx.lastRecv], rx.slots[rx.lastRecv]);
    if VjUncompress.Rebuild(rx, m, mem, |f.bytes|, 1).packet.Some? {
      VjReceiver.RebuiltKey(rx, m, mem, |f.bytes|, 1);
    }
  }
}
