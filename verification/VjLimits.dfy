/** Runs on which the line does not return what was sent, or hands on what it should not. */
module VjLimits {
  import opened Bytes
  import opened Checksum
  import opened VjDelta
  import opened VjHeader
  import opened VjCompress
  import opened VjRoundTrip
  import opened VjStep
  import opened VjLink
  import VjLru
  import VjReceiver
  import VjUncompress

  function IpPart(id: byte, sum: byte): (h: seq<byte>) {
    [0x45, 0, 0, 41, 0, id, 0, 0, 64, 6, 0x66, sum, 10, 0, 0, 1, 10, 0, 0, 2]
  }

  function TcpPart(port: byte, number: byte, flags: byte): (h: seq<byte>) {
    [4, port, 0, 23, 0, 0, 0, number, 0, 0, 0, 9, 0x50, flags, 1, 0, 0, 0, 0, 1]
  }

  /** A segment with one octet of data from port 0x400 + `port`: sequence number `number`, urgent pointer 1. */
  function OneOctet(port: byte, id: byte, sum: byte, number: byte, flags: byte): (p: seq<byte>) {
    IpPart(id, sum) + TcpPart(port, number, flags) + [65]
  }

  /** An urgent segment, sequence number 7: ACK and URG set. */
  function Urgently(): (p: seq<byte>) { OneOctet(0, 1, 0xcc, 7, 0x30) }

  /** The segment behind it: the next octet, and URG no longer set. */
  function Calmly(): (p: seq<byte>) { OneOctet(0, 2, 0xcb, 8, 0x10) }

  predicate IpWords(h: seq<byte>) {
    && |h| == 20 && h[0] == 0x45 && h[1] == 0 && h[2] == 0 && h[3] == 41 && h[6] == 0 && h[7] == 0
    && h[8] == 64 && h[9] == 6
    && h[12] == 10 && h[13] == 0 && h[14] == 0 && h[15] == 1 && h[16] == 10 && h[17] == 0 && h[18] == 0 && h[19] == 2
  }

  predicate TcpWords(h: seq<byte>, port: byte, number: byte, flags: byte) {
    && |h| == 20 && h[0] == 4 && h[1] == port && h[2] == 0 && h[3] == 23
    && h[4] == 0 && h[5] == 0 && h[6] == 0 && h[7] == number && h[8] == 0 && h[9] == 0 && h[10] == 0 && h[11] == 9
    && h[12] == 0x50 && h[13] == flags && h[14] == 1 && h[15] == 0 && h[18] == 0 && h[19] == 1
  }

  /** The octets of such a segment that are looked at. */
  predicate Words(p: seq<byte>, port: byte, number: byte, flags: byte) {
    |p| == 41 && IpWords(p[..20]) && TcpWords(p[20..40], port, number, flags)
  }

  lemma IpPartWords(id: byte, sum: byte)
    ensures IpWords(IpPart(id, sum))
  {
  }

  lemma TcpPartWords(port: byte, number: byte, flags: byte)
    ensures TcpWords(TcpPart(port, number, flags), port, number, flags)
  {
  }

  lemma OneWord(b: seq<byte>, k: nat)
    requires k + 2 <= |b|
    ensures WordSum(b[k..]) == b[k] + 0x100 * b[k + 1] as int + WordSum(b[k + 2..])
  {
    assert b[k..][2..] == b[k + 2..];
  }

  lemma TenWords(b: seq<byte>)
    requires |b| == 20
    ensures WordSum(b) == b[0] as int + b[2] + b[4] + b[6] + b[8] + b[10] + b[12] + b[14] + b[16] + b[18]
                          + 0x100 * (b[1] as int + b[3] + b[5] + b[7] + b[9] + b[11] + b[13] + b[15] + b[17] + b[19])
  {
    assert b[0..] == b;
    OneWord(b, 0); OneWord(b, 2); OneWord(b, 4); OneWord(b, 6); OneWord(b, 8);
    OneWord(b, 10); OneWord(b, 12); OneWord(b, 14); OneWord(b, 16); OneWord(b, 18);
  }

  /** The header checksum is right when it goes down as the id goes up. */
  lemma IpPartSum(id: byte, sum: byte)
    requires id + sum == 0xcd
    ensures ChecksumOf(IpPart(id, sum)) == 0 && Field(IpPart(id, sum), 10) != 0xffff
  {
    TenWords(IpPart(id, sum));
    ZeroChecksum(IpPart(id, sum));
  }

  /** What the proofs need to know of a segment. */
  predicate Good(p: seq<byte>, port: byte, number: byte, flags: byte) {
    && Words(p, port, number, flags) && HasTcp(p) && Segment(p) && Admissible(p) && Compressible(p)
    && TcpAt(p) == 20 && HeaderLen(p) == 40 && ChecksumOf(p[..20]) == 0 && Field(p, 10) != 0xffff
  }

  lemma PartLengths(id: byte, sum: byte, port: byte, number: byte, flags: byte)
    ensures |IpPart(id, sum)| == 20 && |TcpPart(port, number, flags)| == 20
  {
  }

  lemma Fields(p: seq<byte>, port: byte, number: byte, flags: byte)
    requires Words(p, port, number, flags) && PlainAck(flags)
    ensures HasTcp(p) && Segment(p) && Admissible(p) && Compressible(p) && TcpAt(p) == 20 && HeaderLen(p) == 40
    ensures p[0] == 0x45 && U16(p, 0) == 0x4500 && U16(p, 6) == 0 && U16(p, 8) == 0x4006
    ensures Flags(p) == flags && DataOffset(p) == 5 && Unused(p) == 0 && IpLen(p) == 41
    ensures Seq(p) == number && Ack(p) == 9 && Window(p) == 0x100 && Urgent(p) == 1
    ensures Key(p) == Conn(0x0a000001, 0x0a000002, 0x4000017 + 0x10000 * port as int)
  {
    hide PlainAck;
  }

  lemma OneOctetGood(port: byte, id: byte, sum: byte, number: byte, flags: byte)
    requires id + sum == 0xcd && PlainAck(flags)
    ensures Good(OneOctet(port, id, sum, number, flags), port, number, flags)
  {
    hide IpPart, TcpPart, PlainAck, ChecksumOf, IpWords, TcpWords, Admissible, Compressible, Segment, HasTcp;
    var p := OneOctet(port, id, sum, number, flags);
    IpPartWords(id, sum);
    TcpPartWords(port, number, flags);
    IpPartSum(id, sum);
    PartLengths(id, sum, port, number, flags);
    assert p[..20] == IpPart(id, sum) && p[20..40] == TcpPart(port, number, flags);
    assert Field(p, 10) == Field(p[..20], 10);
    Fields(p, port, number, flags);
  }

  lemma GoodParts(p: seq<byte>, port: byte, number: byte, flags: byte)
    requires Good(p, port, number, flags)
    ensures HasTcp(p) && Segment(p) && Admissible(p) && Compressible(p) && HeaderLen(p) == 40 && |p| == 41
    ensures p[33] == flags
  {
    assert p[33] == p[20..40][13];
  }

  lemma FlagsPlain()
    ensures PlainAck(0x30) && PlainAck(0x10) && UrgSet(0x30) && !UrgSet(0x10) && TopBits(0x30) == TopBits(0x10)
    ensures PushSet(0x30) == PushSet(0x10)
  {
  }

  // ---- filing one segment after another ----

  /** A saved header has the fields of the segment it was saved from. */
  lemma SavedFields(t: Header, p: seq<byte>, port: byte, number: byte, flags: byte)
    requires Good(p, port, number, flags) && PlainAck(flags)
    ensures |p| >= 40
    ensures var r := Overwrite(t, p[..40]);
            && r[0] == 0x45 && U16(r, 0) == 0x4500 && U16(r, 6) == 0 && U16(r, 8) == 0x4006
            && Flags(r) == flags && DataOffset(r) == 5 && Unused(r) == 0 && IpLen(r) == 41
            && Seq(r) == number && Ack(r) == 9 && Window(r) == 0x100 && Urgent(r) == 1
  {
    hide PlainAck, Segment, Admissible, Compressible, ChecksumOf;
    Fields(p, port, number, flags);
    var r := Overwrite(t, p[..40]);
    assert TcpAt(r) == 20;
  }

  lemma PrefixFits(p: seq<byte>)
    requires HasTcp(p) && Segment(p)
    ensures HeaderLen(p) <= |p|
  {
  }

  /** The next packet of the conversation just filed finds its header in the same slot. */
  lemma NextFindsSlot(tx: Tx, p: seq<byte>, q: seq<byte>)
    requires TxGood(tx) && HasTcp(p) && Segment(p) && HasTcp(q) && Key(p) == Key(q)
    ensures File(tx, p).Valid() && Known(File(tx, p), q) && SlotFor(File(tx, p), q) == SlotFor(tx, p)
    ensures HeaderLen(p) <= |p|
    ensures File(tx, p).hdrs[SlotFor(tx, p)] == Overwrite(tx.hdrs[SlotFor(tx, p)], p[..HeaderLen(p)])
  {
    hide Key, Segment, HeaderLen, Overwrite, ToFront;
    FileValid(tx, p);
    PrefixFits(p);
    VjLru.FiledAt(tx, p, 0);
    VjLru.EntryConn(File(tx, p).hdrs[File(tx, p).order[0]]);
    ToFrontAt(tx.order, Place(tx, p), 0);
  }

  /** A packet of another conversation goes to another slot than the packet just filed. */
  lemma OtherSlot(tx: Tx, p: seq<byte>, q: seq<byte>)
    requires TxGood(tx) && HasTcp(p) && Segment(p) && HasTcp(q) && Key(p) != Key(q)
    ensures File(tx, p).Valid() && SlotFor(File(tx, p), q) != SlotFor(tx, p)
    ensures Key(File(tx, p).hdrs[SlotFor(tx, p)]) == Key(p)
  {
    hide Key, Segment, HeaderLen, Overwrite, ToFront;
    FileValid(tx, p);
    VjLru.FiledAt(tx, p, 0);
    VjLru.EntryConn(File(tx, p).hdrs[File(tx, p).order[0]]);
    ToFrontAt(tx.order, Place(tx, p), 0);
  }

  lemma UnusedSlot(tx: Tx, i: nat)
    requires tx.Valid() && i < MAX_STATES && i !in UsedSlots(tx)
    ensures !Used(tx.hdrs[i])
  {
  }

  /** While one conversation is all there is, a packet of another goes uncompressed. */
  lemma StrangerIsPlain(tx: Tx, p: seq<byte>, q: seq<byte>)
    requires TxGood(tx) && UsedSlots(tx) == {} && HasTcp(p) && Segment(p) && HasTcp(q) && Segment(q)
    requires Key(p) != Key(q)
    ensures File(tx, p).Valid() && CodeIn(File(tx, p), q).Plain?
  {
    hide Key, Segment, HeaderLen, Overwrite, ToFront, CodeIn, SlotFor, Used, Code;
    FileGood(tx, p);
    UsedAfterFile(tx, p);
    OtherSlot(tx, p, q);
    var i := SlotFor(File(tx, p), q);
    UnusedSlot(File(tx, p), i);
    if CodeIn(File(tx, p), q).Coded? {
      CodedSlot(File(tx, p), q);
    }
  }

  lemma FirstIsPlain(tx: Tx, p: seq<byte>)
    requires TxGood(tx) && UsedSlots(tx) == {} && HasTcp(p) && Segment(p)
    ensures CodeIn(tx, p).Plain?
  {
    hide Key, Segment, CodeIn, SlotFor, Used, Code;
    UnusedSlot(tx, SlotFor(tx, p));
    if CodeIn(tx, p).Coded? {
      CodedSlot(tx, p);
    }
  }

  /** A segment that continues the saved one is sent with SPECIAL_D. */
  lemma NextIsSpecial(t: Header, p: seq<byte>, port: byte, number: byte)
    requires number < 255 && Good(p, port, number + 1, 0x10)
    requires t[0] == 0x45 && U16(t, 0) == 0x4500 && U16(t, 6) == 0 && U16(t, 8) == 0x4006 && DataOffset(t) == 5
    requires Seq(t) == number && Ack(t) == 9 && Window(t) == 0x100 && Urgent(t) == 1 && IpLen(t) == 41
    ensures Code(t, p).Coded? && IsSpecialD(Code(t, p).mask)
  {
    hide EncodeZ, Words, ChecksumOf;
    FlagsPlain();
    Fields(p, port, number + 1, 0x10);
    assert TcpAt(t) == 20;
    assert p[20..20] == t[20..20] && p[40..40] == t[40..40];
    assert SeqDelta(t, p) == 1 && AckDelta(t, p) == 0 && WindowDelta(t, p) == 0;
    hide SeqDelta, AckDelta, WindowDelta;
  }

  lemma KnownIsCoded(tx: Tx, p: seq<byte>)
    requires tx.Valid() && HasTcp(p) && Segment(p) && Known(tx, p)
    ensures CodeIn(tx, p) == Code(tx.hdrs[SlotFor(tx, p)], p)
  {
    hide Code, Known;
  }

  /** The segment behind the one just filed. */
  lemma NextIsCoded(tx: Tx, p: seq<byte>, q: seq<byte>, port: byte, number: byte, flags: byte)
    requires TxGood(tx) && number < 255 && PlainAck(flags)
    requires Good(p, port, number, flags) && Good(q, port, number + 1, 0x10)
    ensures TxGood(File(tx, p)) && SlotFor(File(tx, p), q) == SlotFor(tx, p)
    ensures CodeIn(File(tx, p), q).Coded? && IsSpecialD(CodeIn(File(tx, p), q).mask)
    ensures var t := File(tx, p).hdrs[SlotFor(tx, p)];
            t[0] == 0x45 && Flags(t) == flags && DataOffset(t) == 5 && Unused(t) == 0
  {
    hide Code, Words, File, SlotFor, CodeIn, Overwrite, Segment, HasTcp, HeaderLen, PlainAck, Key, ChecksumOf;
    FlagsPlain();
    FileGood(tx, p);
    Fields(p, port, number, flags);
    Fields(q, port, number + 1, 0x10);
    NextFindsSlot(tx, p, q);
    KnownIsCoded(File(tx, p), q);
    SavedFields(tx.hdrs[SlotFor(tx, p)], p, port, number, flags);
    NextIsSpecial(File(tx, p).hdrs[SlotFor(tx, p)], q, port, number);
  }

  // ---- a special code after an urgent segment ----

  /** All that the coding takes for granted, but for what it takes for granted about URG. */
  predicate FaithfulButUrg(t: Header, p: seq<byte>)
    requires Segment(p) && HasTcp(t)
  {
    && |p| <= 1520 && IpLen(p) == |p| && Unused(p) == Unused(t) && TopBits(Flags(p)) == TopBits(Flags(t))
    && ChecksumOf(p[..TcpAt(p)]) == 0 && Field(p, 10) != 0xffff
  }

  /** The second segment as it is handed on after a special code met a stored URG. */
  lemma StillUrgent(out: seq<byte>, t: Header, q: seq<byte>, m: Mask)
    requires Good(q, 0, 8, 0x10) && HasTcp(t) && Flags(t) == 0x30 && Unused(t) == 0 && IsSpecial(m)
    requires HandedOn(out, t, q, m)
    ensures out == q[33 := 0x30]
  {
    hide ChecksumOf, PlainAck, PushSet, TopBits, UrgSet, Segment, Admissible, Compressible;
    FlagsPlain();
    Fields(q, 0, 8, 0x10);
    assert q[33 := 0x30][..20] == q[..20];
    HandedOnUnique(out, q[33 := 0x30], t, q, m);
  }

  lemma AfterOne(e: Event)
    requires FedOne(e)
    ensures Fed([e]) && After(Start(), [e]) == Next(Start(), e)
    ensures Refreshed(Start(), [e]) == if Refreshes(Start(), e) then 1 else 0
  {
    hide Next, Start, Refreshes;
    assert [e][..0] == [];
  }

  /** Both segments are like any other, and all that the first leaves behind is URG in the saved header. */
  lemma SecondAfterFirst(tx: Tx, p: seq<byte>, q: seq<byte>)
    requires TxGood(tx) && Good(p, 0, 7, 0x30) && Good(q, 0, 8, 0x10)
    ensures TxGood(File(tx, p)) && CodeIn(File(tx, p), q).Coded? && IsSpecial(CodeIn(File(tx, p), q).mask)
    ensures var t := File(tx, p).hdrs[SlotFor(File(tx, p), q)];
            HasTcp(t) && Flags(t) == 0x30 && Unused(t) == 0 && FaithfulButUrg(t, q)
  {
    hide Code, File, SlotFor, CodeIn, Segment, PlainAck, Key, ChecksumOf, TopBits, IpWords, TcpWords;
    FlagsPlain();
    Fields(q, 0, 8, 0x10);
    NextIsCoded(tx, p, q, 0, 7, 0x30);
  }

  /** On a line without loss, from initialisation, the first segment comes back and the second does not,
      though URG in the saved header is all that is wrong: it comes out with URG still set. */
  lemma UrgentFlagSticks(slack: seq<byte>)
    requires |slack| == MAX_HDR
    ensures var es := [Event(Urgently(), true, Arrived, slack), Event(Calmly(), true, Arrived, slack)];
            && Fed(es) && Output(Start(), es, 0) == Some(Urgently())
            && var l, q := After(Start(), es[..1]), Calmly();
               && Refreshed(Start(), es[..1]) % 0x100 != 0 && Codes(l, es[1])
               && FaithfulButUrg(l.tx.hdrs[Slot(l, es[1])], q)
               && |q| == 41 && Output(Start(), es, 1) == Some(q[33 := 0x30]) && q[33] == 0x10
  {
    hide OneOctet, Good, Receive, Segment, HasTcp, Admissible, Compressible, Key, Start, Next, CodeIn, SlotFor, File;
    hide UsedSlots, InStep, ChecksumOf, FaithfulIn, HeaderLen, HandedOn, IsSpecial, FaithfulButUrg;
    var p, q := Urgently(), Calmly();
    FlagsPlain();
    OneOctetGood(0, 1, 0xcc, 7, 0x30);
    OneOctetGood(0, 2, 0xcb, 8, 0x10);
    GoodParts(p, 0, 7, 0x30);
    GoodParts(q, 0, 8, 0x10);
    var e, f := Event(p, true, Arrived, slack), Event(q, true, Arrived, slack);
    var es := [e, f];
    assert es[..0] == [] && es[..1] == [e];
    StartInStep();
    FirstIsPlain(Start().tx, p);
    AfterOne(e);
    assert ReturnsAt(es, 0);
    AllWillReturnPrefix(es, 0);
    OutputExact(es, 0);
    AllWillReturnPrefix(es, 1);
    FullSyncInvariant([e]);
    NextFiles(Start(), e);
    SecondAfterFirst(Start().tx, p, q);
    var l := After(Start(), [e]);
    TrackStep(l, UsedSlots(l.tx), f);
    CodedIsUsed(l, f);
    AlignedTarget(l, f);
    StillUrgent(Receive(l, f).packet.value, l.tx.hdrs[Slot(l, f)], q, CodeIn(l.tx, q).mask);
  }

  // ---- a loss that nobody notices ----

  lemma AfterTwo(e: Event, f: Event)
    requires FedOne(e) && FedOne(f)
    ensures Fed([e, f]) && After(Start(), [e, f]) == Next(Next(Start(), e), f)
    ensures Refreshed(Start(), [e, f])
            == Refreshed(Start(), [e]) + if Refreshes(Next(Start(), e), f) then 1 else 0
  {
    hide Next, Start, Refreshes;
    AfterOne(e);
    assert [e, f][..1] == [e];
  }

  lemma GoodKey(p: seq<byte>, port: byte, number: byte, flags: byte)
    requires Good(p, port, number, flags) && PlainAck(flags)
    ensures Key(p) == Conn(0x0a000001, 0x0a000002, 0x4000017 + 0x10000 * port as int)
  {
    Fields(p, port, number, flags);
  }

  /** The first segments of two conversations both go uncompressed, and so come back. */
  lemma TwoOpened(a: seq<byte>, b: seq<byte>, slack: seq<byte>)
    requires |slack| == MAX_HDR && Good(a, 0, 7, 0x10) && Good(b, 1, 7, 0x10)
    ensures var es := [Event(a, true, Arrived, slack), Event(b, true, Arrived, slack)];
            && Fed(es) && AllWillReturn(es) && Refreshed(Start(), es) == 2
            && TxGood(File(Start().tx, a)) && After(Start(), es).tx == File(File(Start().tx, a), b)
  {
    hide Good, Receive, Segment, HasTcp, Admissible, Compressible, Key, Start, Next, CodeIn, SlotFor, File, UsedSlots;
    hide InStep, FaithfulIn, HeaderLen;
    FlagsPlain();
    GoodParts(a, 0, 7, 0x10);
    GoodParts(b, 1, 7, 0x10);
    GoodKey(a, 0, 7, 0x10);
    GoodKey(b, 1, 7, 0x10);
    var e, f := Event(a, true, Arrived, slack), Event(b, true, Arrived, slack);
    var es := [e, f];
    assert es[..0] == [] && es[..1] == [e];
    StartInStep();
    FirstIsPlain(Start().tx, a);
    StrangerIsPlain(Start().tx, a, b);
    FileGood(Start().tx, a);
    NextFiles(Start(), e);
    NextFiles(Next(Start(), e), f);
    AfterOne(e);
    AfterTwo(e, f);
    assert ReturnsAt(es, 0) && ReturnsAt(es, 1);
  }

  /** The silent loss of the second segment of the first conversation. */
  lemma ThirdIsMisrouted(l: Link, tx: Tx, b: seq<byte>, f: Event, e: Event)
    requires Good(b, 1, 7, 0x10) && Good(f.p, 0, 8, 0x10) && Good(e.p, 0, 9, 0x10)
    requires l.Good() && TxGood(tx) && l.tx == File(tx, b) && FedOne(f) && FedOne(e)
    requires f.fate == Unnoticed && e.fate == Arrived && e.cid
    ensures SilentLoss(l, f, e) && ShortEnough(l.rx, l.tx.lastXmit, e.p)
    ensures Key(l.tx.hdrs[l.tx.lastXmit]) == Key(b)
  {
    hide Good, Segment, HasTcp, Admissible, Compressible, Key, CodeIn, SlotFor, HeaderLen, Receive, Used, Words;
    hide Overwrite, ToFront;
    FlagsPlain();
    GoodParts(b, 1, 7, 0x10);
    GoodParts(f.p, 0, 8, 0x10);
    GoodParts(e.p, 0, 9, 0x10);
    GoodKey(b, 1, 7, 0x10);
    GoodKey(f.p, 0, 8, 0x10);
    OtherSlot(tx, b, f.p);
    NextIsCoded(l.tx, f.p, e.p, 0, 8, 0x10);
    NextFiles(l, f);
    assert l.rx.slots[l.tx.lastXmit].Valid();
  }

  /** Two conversations, the second segment of the first one lost unnoticed: the third comes out as a
      segment of the other conversation. */
  lemma SilentLossRun(slack: seq<byte>)
    requires |slack| == MAX_HDR
    ensures var a, b := OneOctet(0, 1, 0xcc, 7, 0x10), OneOctet(1, 1, 0xcc, 7, 0x10);
            var c, d := OneOctet(0, 2, 0xcb, 8, 0x10), OneOctet(0, 3, 0xca, 9, 0x10);
            var es := [Event(a, true, Arrived, slack), Event(b, true, Arrived, slack),
                       Event(c, true, Unnoticed, slack), Event(d, true, Arrived, slack)];
            && Fed(es) && Output(Start(), es, 0) == Some(a) && Output(Start(), es, 1) == Some(b)
            && var out := Output(Start(), es, 3);
               out.Some? && HasTcp(out.value) && HasTcp(b) && HasTcp(d) && Key(out.value) == Key(b) != Key(d)
  {
    hide OneOctet, Good, Receive, Segment, HasTcp, Admissible, Compressible, Key, Start, Next, After, SilentLoss, File;
    hide AllWillReturn, ShortEnough, Refreshed;
    var a, b := OneOctet(0, 1, 0xcc, 7, 0x10), OneOctet(1, 1, 0xcc, 7, 0x10);
    var c, d := OneOctet(0, 2, 0xcb, 8, 0x10), OneOctet(0, 3, 0xca, 9, 0x10);
    FlagsPlain();
    OneOctetGood(0, 1, 0xcc, 7, 0x10);
    OneOctetGood(1, 1, 0xcc, 7, 0x10);
    OneOctetGood(0, 2, 0xcb, 8, 0x10);
    OneOctetGood(0, 3, 0xca, 9, 0x10);
    GoodParts(a, 0, 7, 0x10);
    GoodParts(b, 1, 7, 0x10);
    GoodParts(c, 0, 8, 0x10);
    GoodParts(d, 0, 9, 0x10);
    GoodKey(b, 1, 7, 0x10);
    GoodKey(d, 0, 9, 0x10);
    var two := [Event(a, true, Arrived, slack), Event(b, true, Arrived, slack)];
    var f, e := Event(c, true, Unnoticed, slack), Event(d, true, Arrived, slack);
    TwoOpened(a, b, slack);
    RoundTripExact(two);
    var l, tx := After(Start(), two), File(Start().tx, a);
    assert l.tx == File(tx, b) && Refreshed(Start(), two) == 2;
    ThirdIsMisrouted(l, tx, b, f, e);
    SilentLossMisroutes(two, f, e);
    var es := [two[0], two[1], f, e];
    assert es == two + [f, e];
    assert Output(Start(), two, 0) == Some(a) && Output(Start(), two, 1) == Some(b);
    assert es[..0] == two[..0] && es[..1] == two[..1];
  }

  // ---- an uncompressed frame without a header ----

  /** 128 octets, of which only those that hold the header lengths are not zero. */
  function Octets(first: byte, twelfth: byte, offset: byte): (mem: seq<byte>)
    ensures |mem| == MAX_HDR && mem[0] == first && mem[12] == twelfth && mem[32] == offset
    ensures forall k :: 0 < k < MAX_HDR && k != 12 && k != 32 ==> mem[k] == 0
  {
    seq(MAX_HDR, k requires 0 <= k < MAX_HDR =>
      if k == 0 then first else if k == 12 then twelfth else if k == 32 then offset else 0)
  }

  /** Saved with a header of 40 octets, then with none, the slot keeps the older header under a length of 0. */
  lemma LeftBare(rx: VjUncompress.Rx)
    requires rx.Valid() && rx.cnt < 254
    ensures var r := VjUncompress.Refresh(rx, Octets(0x45, 0, 0x50), 40).rx;
            && r.Valid()
            && var q := VjUncompress.Refresh(r, Octets(0x40, 10, 0), 20).rx;
               && q.Valid() && q.slots[0].hlen == 0 && q.slots[0].hdr[0] == 0x45 && q.cnt == rx.cnt + 2
  {
    hide Octets;
    var mem, mem' := Octets(0x45, 0, 0x50), Octets(0x40, 10, 0);
    VjReceiver.RefreshValid(rx, mem, 40);
    var r := VjUncompress.Refresh(rx, mem, 40).rx;
    assert HeaderLen(mem[9 := IPPROTO_TCP]) == 40;
    VjReceiver.RefreshValid(r, mem', 20);
    assert HeaderLen(mem'[9 := IPPROTO_TCP]) == 0;
  }

  /** A compressed frame of four octets, naming connection 0, on such a slot. */
  lemma BareRebuilt(rx: VjUncompress.Rx)
    requires rx.Valid() && rx.cnt != 0 && rx.slots[0].hlen == 0
    ensures VjUncompress.Uncompress(rx, TYPE_COMPRESSED_TCP, Octets(0x40, 0, 0), 4).packet == Some([])
  {
    hide Octets, VjUncompress.Patch, VjUncompress.Finish, VjUncompress.Restore;
    var mem := Octets(0x40, 0, 0);
    var m := MaskOf(mem[0]);
    assert m == Mask(true, false, false, false, false, false, false);
    VjReceiver.PatchSpan(rx.slots[0], m, mem, 2);
    var c := VjUncompress.Patch(rx.slots[0], m, mem[2..]);
    assert |c.rest| == MAX_HDR - 4;
    VjReceiver.FinishCases(rx.(lastRecv := 0, toss := false), c, 0);
  }

  lemma InitialCount()
    ensures VjUncompress.Initial().cnt == 0
  {
  }

  /** So a run in which such a frame arrives can hand on a packet that fails the header check, though its
      slot has an IP header. */
  lemma HeaderlessFrame()
    ensures var es := [VjReceiver.Arrival(TYPE_UNCOMPRESSED_TCP, Octets(0x45, 0, 0x50), 40),
                       VjReceiver.Arrival(TYPE_UNCOMPRESSED_TCP, Octets(0x40, 10, 0), 20),
                       VjReceiver.Arrival(TYPE_COMPRESSED_TCP, Octets(0x40, 0, 0), 4)];
            && VjReceiver.AllReadable(es)
            && VjReceiver.After(VjUncompress.Initial(), es[..2]).slots[0].hdr[0] == 0x45
            && var out := VjReceiver.Output(VjUncompress.Initial(), es, 2);
               out.Some? && !VjReceiver.PassesHeaderCheck(out.value)
  {
    hide Octets, VjUncompress.Refresh, VjUncompress.Rebuild, VjUncompress.Initial;
    var es := [VjReceiver.Arrival(TYPE_UNCOMPRESSED_TCP, Octets(0x45, 0, 0x50), 40),
               VjReceiver.Arrival(TYPE_UNCOMPRESSED_TCP, Octets(0x40, 10, 0), 20),
               VjReceiver.Arrival(TYPE_COMPRESSED_TCP, Octets(0x40, 0, 0), 4)];
    var rx := VjUncompress.Initial();
    InitialCount();
    LeftBare(rx);
    assert es[..0] == [] && es[..1][..0] == [] && es[..2][..1] == es[..1];
    assert VjReceiver.After(rx, es[..1]) == VjUncompress.Refresh(rx, Octets(0x45, 0, 0x50), 40).rx;
    BareRebuilt(VjReceiver.After(rx, es[..2]));
  }
}
