/** What goes out on the line, told from the fields of the packet and of the header last sent: when a packet
    is compressed, and every octet of its frame. */
module VjWire {
  import opened Bytes
  import opened VjDelta
  import opened VjHeader
  import opened VjCompress
  import opened VjRoundTrip
  import opened VjStep
  import opened VjLru
  import VjLink

  // ---- which packets are coded ----

  /** The headers agree in what is neither coded nor left out: version, header lengths and type of service,
      the fragment word, time to live and protocol, and all options. */
  predicate SameFixedFields(h: seq<byte>, p: seq<byte>)
    requires HasTcp(h) && Segment(p)
  {
    && |h| >= HeaderLen(p) && h[0] == p[0] && h[1] == p[1] && h[6..10] == p[6..10]
    && h[TcpAt(p) + 12] / 16 == p[TcpAt(p) + 12] / 16
    && h[20..TcpAt(p)] == p[20..TcpAt(p)] && h[TcpAt(p) + 20..HeaderLen(p)] == p[TcpAt(p) + 20..HeaderLen(p)]
  }

  /** How far a 32-bit number has moved on. */
  function Advance(was: u32, now: u32): (d: u32) { (now - was) % 0x1_0000_0000 }

  predicate Urg(p: seq<byte>)
    requires HasTcp(p)
  {
    p[TcpAt(p) + 13] / 0x20 % 2 == 1
  }

  /** `p` can be coded against a header `h` of its conversation. */
  predicate Codable(h: seq<byte>, p: seq<byte>)
    requires HasTcp(h) && Segment(p)
  {
    var s, a := Advance(Seq(h), Seq(p)), Advance(Ack(h), Ack(p));
    && SameFixedFields(h, p) && s < 0x1_0000 && a < 0x1_0000
    && (Urg(p) || Urgent(p) == Urgent(h))
    && !(s != 0 && Window(p) != Window(h) && Urg(p))
    && (s != 0 || a != 0 || Window(p) != Window(h) || Urg(p)
        || (IpLen(h) == HeaderLen(p) && IpLen(p) != IpLen(h)))
  }

  /** Equal octets are equal words. */
  lemma WordsIff(h: seq<byte>, p: seq<byte>)
    requires |h| >= 10 && |p| >= 10
    ensures h[0] == p[0] && h[1] == p[1] <==> U16(p, 0) == U16(h, 0)
    ensures h[6..10] == p[6..10] <==> U16(p, 6) == U16(h, 6) && U16(p, 8) == U16(h, 8)
  {
    assert forall k :: 0 <= k < 4 ==> h[6..10][k] == h[6 + k] && p[6..10][k] == p[6 + k];
    assert h[6..10] == [h[6], h[7], h[8], h[9]] && p[6..10] == [p[6], p[7], p[8], p[9]];
  }

  lemma ShapeIff(t: Header, p: seq<byte>)
    requires HasTcp(t) && Segment(p)
    ensures SameShape(t, p) <==> SameFixedFields(t, p)
  {
    hide U16;
    WordsIff(t, p);
    if t[0] == p[0] {
      assert TcpAt(t) == TcpAt(p);
    }
  }

  lemma UrgBit(p: seq<byte>)
    requires HasTcp(p)
    ensures UrgSet(Flags(p)) == Urg(p)
  {
  }

  lemma WindowMoved(t: Header, p: seq<byte>)
    requires HasTcp(t) && HasTcp(p)
    ensures WindowDelta(t, p) == 0 <==> Window(p) == Window(t)
  {
    ShortDelta(Window(t), Window(p));
  }

  /** A packet is coded exactly when it can be. */
  lemma CodeIff(t: Header, p: seq<byte>)
    requires HasTcp(t) && Segment(p)
    ensures Code(t, p).Coded? <==> Codable(t, p)
  {
    hide SameShape, SameFixedFields, Encode, EncodeZ, UrgSet, WindowDelta, Urg;
    ShapeIff(t, p);
    UrgBit(p);
    WindowMoved(t, p);
  }

  // ---- over runs ----

  lemma PrefixFields(t: Header)
    requires Segment(t)
    ensures var h := t[..HeaderLen(t)];
            && HasTcp(h) && Seq(h) == Seq(t) && Ack(h) == Ack(t) && Window(h) == Window(t) && Urgent(h) == Urgent(t)
            && IpLen(h) == IpLen(t)
  {
  }

  lemma PrefixFixed(t: Header, p: seq<byte>)
    requires Segment(t) && Segment(p)
    ensures HasTcp(t[..HeaderLen(t)]) && (SameFixedFields(t[..HeaderLen(t)], p) <==> SameFixedFields(t, p))
  {
    hide PlainAck;
    var h, o, end := t[..HeaderLen(t)], TcpAt(p), HeaderLen(p);
    assert h[0] == t[0] && h[6..10] == t[6..10];
    if h[0] == p[0] && h[o + 12] / 16 == p[o + 12] / 16 {
      assert h[20..o] == t[20..o] && h[o + 20..end] == t[o + 20..end];
    }
  }

  /** A header is all that counts of the slot it is saved in. */
  lemma PrefixCodable(t: Header, p: seq<byte>)
    requires Segment(t) && Segment(p)
    ensures HasTcp(t[..HeaderLen(t)]) && (Codable(t[..HeaderLen(t)], p) <==> Codable(t, p))
  {
    hide Advance, SameFixedFields, Urg;
    PrefixFields(t);
    PrefixFixed(t, p);
  }

  /** The packet goes out as it is: a fragment, or too short, or no plain acknowledgement. */
  predicate PassesBy(p: seq<byte>)
    requires Admissible(p)
  {
    || |p| < 40 || U16(p, 6) % 0x4000 != 0
    || !(p[TcpAt(p) + 13] % 8 == 0 && p[TcpAt(p) + 13] / 0x10 % 2 == 1)
  }

  lemma PassesByIff(p: seq<byte>)
    requires Admissible(p)
    ensures PassesBy(p) <==> !Compressible(p)
  {
  }

  /** The cache has a header for the conversation of `p`, and one that it can be coded against. */
  ghost predicate CodableIn(cache: seq<Entry>, p: seq<byte>)
    requires Segment(p)
  {
    exists k :: 0 <= k < |cache| && cache[k].conn == Key(p) && HasTcp(cache[k].header) && Codable(cache[k].header, p)
  }

  lemma UsedEntry(tx: Tx, k: nat)
    requires LruInvariant(tx) && k < |Cache(tx)|
    ensures Used(tx.hdrs[tx.order[k]]) && Segment(tx.hdrs[tx.order[k]])
    ensures Cache(tx)[k] == EntryOf(tx.hdrs[tx.order[k]])
  {
    hide EntryOf, Segment, Count;
  }

  /** An entry of the cache is the slot that its conversation is found in. */
  lemma EntryIsFound(tx: Tx, p: seq<byte>, k: nat)
    requires LruInvariant(tx) && HasTcp(p) && k < |Cache(tx)| && Cache(tx)[k].conn == Key(p)
    ensures Known(tx, p) && SlotFor(tx, p) == tx.order[k]
  {
    hide Key, Used, Count, EntryOf, Cache, Position;
    UsedEntry(tx, k);
    EntryConn(tx.hdrs[tx.order[k]]);
    assert forall j :: 0 <= j < k ==> Key(tx.hdrs[tx.order[j]]) != Key(tx.hdrs[tx.order[k]]);
  }

  lemma FoundAt(tx: Tx, p: seq<byte>)
    requires tx.Valid() && HasTcp(p) && Segment(p)
    ensures SlotFor(tx, p) == tx.order[Place(tx, p)]
    ensures CodeIn(tx, p).Coded? ==> CodeIn(tx, p) == Code(tx.hdrs[SlotFor(tx, p)], p)
  {
    hide Code, Known, Place;
  }

  lemma CodedIff(tx: Tx, p: seq<byte>)
    requires LruInvariant(tx) && HasTcp(p) && Segment(p)
    ensures CodeIn(tx, p).Coded? <==> CodableIn(Cache(tx), p)
  {
    hide Key, Used, Count, Cache, Codable, Code, Segment, SlotFor, Place, HeaderLen;
    if CodeIn(tx, p).Coded? {
      CodedAgainstCache(tx, p);
      var k := Place(tx, p);
      UsedEntry(tx, k);
      FoundAt(tx, p);
      CodeIff(tx.hdrs[tx.order[k]], p);
      PrefixCodable(tx.hdrs[tx.order[k]], p);
      assert Codable(Cache(tx)[k].header, p);
    }
    if k :| 0 <= k < |Cache(tx)| && Cache(tx)[k].conn == Key(p) && HasTcp(Cache(tx)[k].header)
            && Codable(Cache(tx)[k].header, p) {
      UsedEntry(tx, k);
      EntryIsFound(tx, p, k);
      CodeIff(tx.hdrs[tx.order[k]], p);
      PrefixCodable(tx.hdrs[tx.order[k]], p);
    }
  }

  /** After any run of the compressor, the type of the next frame, told from the cache of the headers sent:
      as it is, compressed or uncompressed. */
  lemma KindExact(cs: seq<Call>, c: Call)
    requires Callable(cs) && Admissible(c.p)
    ensures var kind := Compress(TxRun(cs), c.p, c.cid).frame.kind;
            if PassesBy(c.p) then kind == 0x40
            else Segment(c.p) && kind == if CodableIn(CacheRun(cs), c.p) then 0x80 else 0x70
  {
    hide Key, LruInvariant, Cache, CodeIn, Codable, File, VjBytes, SlotFor, Segment;
    RunIsLruCache(cs);
    PassesByIff(c.p);
    if Compressible(c.p) {
      CodedIff(TxRun(cs), c.p);
    }
  }

  // ---- retransmissions ----

  /** The numbers of the header last sent, and nothing urgent. */
  predicate SameNumbers(h: seq<byte>, p: seq<byte>)
    requires HasTcp(h) && HasTcp(p)
  {
    Seq(p) == Seq(h) && Ack(p) == Ack(h) && Window(p) == Window(h) && IpLen(p) == IpLen(h) && !Urg(p)
  }

  lemma SameIsNotCodable(h: seq<byte>, p: seq<byte>)
    requires HasTcp(h) && Segment(p) && SameNumbers(h, p)
    ensures !Codable(h, p)
  {
    hide SameFixedFields;
  }

  /** The header just sent is the first of the cache. */
  lemma FiledFirst(tx: Tx, p: seq<byte>)
    requires LruInvariant(tx) && HasTcp(p) && Segment(p)
    ensures LruInvariant(File(tx, p)) && |Cache(File(tx, p))| > 0
    ensures Cache(File(tx, p))[0] == Entry(Key(p), p[..HeaderLen(p)])
  {
    hide Cache, File, Without;
    FileIsTouch(tx, p);
  }

  /** No two entries of the cache are of one conversation. */
  lemma OneEntry(tx: Tx, j: nat, k: nat)
    requires LruInvariant(tx) && j < k < |Cache(tx)|
    ensures Cache(tx)[j].conn != Cache(tx)[k].conn
  {
    hide Key, Used, EntryOf, Count, Cache;
    UsedEntry(tx, j);
    UsedEntry(tx, k);
    EntryConn(tx.hdrs[tx.order[j]]);
    EntryConn(tx.hdrs[tx.order[k]]);
  }

  lemma NotCodableIn(tx: Tx, p: seq<byte>, k: nat)
    requires LruInvariant(tx) && Segment(p) && k < |Cache(tx)| && Cache(tx)[k].conn == Key(p)
    requires HasTcp(Cache(tx)[k].header) && SameNumbers(Cache(tx)[k].header, p)
    ensures !CodableIn(Cache(tx), p)
  {
    hide Codable, SameNumbers, Cache, Key, Used;
    SameIsNotCodable(Cache(tx)[k].header, p);
    forall j | 0 <= j < |Cache(tx)| && j != k ensures Cache(tx)[j].conn != Key(p) {
      OneEntry(tx, if j < k then j else k, if j < k then k else j);
    }
  }

  /** What repeats the header last sent for its conversation always goes uncompressed, after any run with any
      losses: if it arrives it comes back octet for octet, and its slot is in step from then on. */
  lemma RepetitionResyncs(es: seq<VjLink.Event>, e: VjLink.Event, k: nat)
    requires VjLink.Fed(es) && VjLink.FedOne(e) && Compressible(e.p)
    requires var cache := Cache(VjLink.After(VjLink.Start(), es).tx);
             && k < |cache| && cache[k].conn == Key(e.p)
             && HasTcp(cache[k].header) && SameNumbers(cache[k].header, e.p)
    ensures var l := VjLink.After(VjLink.Start(), es);
            && Compress(l.tx, e.p, e.cid).frame.kind == 0x70
            && (e.fate.Arrived? ==>
                  && VjLink.Receive(l, e).packet == Some(e.p)
                  && InStep(VjLink.Next(l, e).tx, VjLink.Next(l, e).rx, {VjLink.Slot(l, e)}))
  {
    hide Key, LruInvariant, Cache, Codable, SameNumbers, SlotFor, VjLink.Start, VjLink.After, VjLink.Receive, CodableIn;
    hide CodeIn, File, InStep;
    var l := VjLink.After(VjLink.Start(), es);
    VjLink.StartLru();
    VjLink.RunKeepsLru(VjLink.Start(), es);
    CodedIff(l.tx, e.p);
    NotCodableIn(l.tx, e.p, k);
    VjLink.NothingInStep(l);
    VjLink.TrackStep(l, {}, e);
    assert e.fate.Arrived? ==> VjLink.Track(l, {}, e) == {VjLink.Slot(l, e)};
  }

  lemma AfterOneMore(es: seq<VjLink.Event>, f: VjLink.Event)
    requires VjLink.Fed(es) && VjLink.FedOne(f)
    ensures VjLink.Fed(es + [f])
    ensures VjLink.After(VjLink.Start(), es + [f]) == VjLink.Next(VjLink.After(VjLink.Start(), es), f)
  {
    hide VjLink.Next, VjLink.Start, VjLink.FedOne;
    assert (es + [f])[..|es|] == es;
  }

  lemma SameInPrefix(q: seq<byte>, p: seq<byte>)
    requires Segment(q) && HasTcp(p) && SameNumbers(q, p)
    ensures HasTcp(q[..HeaderLen(q)]) && SameNumbers(q[..HeaderLen(q)], p)
  {
  }

  /** The case of a packet sent twice in a row. */
  lemma SentTwice(es: seq<VjLink.Event>, f: VjLink.Event, e: VjLink.Event)
    requires VjLink.Fed(es) && VjLink.FedOne(f) && VjLink.FedOne(e) && VjLink.Fed(es + [f]) && Compressible(e.p)
    requires Compressible(f.p) && Key(f.p) == Key(e.p) && SameNumbers(f.p, e.p)
    ensures Compress(VjLink.After(VjLink.Start(), es + [f]).tx, e.p, e.cid).frame.kind == 0x70
  {
    hide LruInvariant, Cache, VjLink.Start, VjLink.After, File, VjLink.Next, Compress, SameNumbers, Key;
    hide Unfragmented, PlainAck, HeaderLen;
    var l := VjLink.After(VjLink.Start(), es);
    AfterOneMore(es, f);
    VjLink.StartLru();
    VjLink.RunKeepsLru(VjLink.Start(), es);
    VjLink.NextFiles(l, f);
    FiledFirst(l.tx, f.p);
    SameInPrefix(f.p, e.p);
    RepetitionResyncs(es + [f], e, 0);
  }

  // ---- the octets ----

  /** A 16-bit number: one octet, or a zero octet and two. */
  function Number(n: u16): (e: seq<byte>) {
    if 0 < n < 0x100 then [n] else [0, n / 0x100, n % 0x100]
  }

  /** As much data was acknowledged and sent as the last packet carried: echoed typing. */
  predicate Echoes(h: seq<byte>, p: seq<byte>)
    requires HasTcp(h) && HasTcp(p)
  {
    && Advance(Seq(h), Seq(p)) == Advance(Ack(h), Ack(p)) == IpLen(h) - HeaderLen(p) > 0
    && Window(p) == Window(h) && !Urg(p)
  }

  /** As much was sent as the last packet carried, and nothing else: a transfer in one direction. */
  predicate Continues(h: seq<byte>, p: seq<byte>)
    requires HasTcp(h) && HasTcp(p)
  {
    && Advance(Seq(h), Seq(p)) == IpLen(h) - HeaderLen(p) > 0 && Ack(p) == Ack(h)
    && Window(p) == Window(h) && !Urg(p)
  }

  function Distance16(was: u16, now: u16): (d: u16) { (now - was) % 0x1_0000 }

  /** The low half of the first octet: 0x0b and 0x0f are the special codes, otherwise a bit for each of
      sequence number, acknowledgement, window and urgent pointer. */
  function WireLow(h: seq<byte>, p: seq<byte>): (v: nat)
    requires HasTcp(h) && HasTcp(p)
    ensures v < 16
  {
    if Echoes(h, p) then 0x0b else if Continues(h, p) then 0x0f else
    (if Seq(p) != Seq(h) then 8 else 0) + (if Ack(p) != Ack(h) then 4 else 0)
    + (if Window(p) != Window(h) then 2 else 0) + if Urg(p) then 1 else 0
  }

  /** What is behind the TCP checksum: urgent pointer, window, acknowledgement, sequence number and IP id. */
  function WireNumbers(h: seq<byte>, p: seq<byte>): (e: seq<byte>)
    requires HasTcp(h) && HasTcp(p)
    requires Advance(Ack(h), Ack(p)) < 0x1_0000 && Advance(Seq(h), Seq(p)) < 0x1_0000
  {
    (if Echoes(h, p) || Continues(h, p) then [] else
       (if Urg(p) then Number(Urgent(p)) else [])
       + (if Window(p) != Window(h) then Number(Distance16(Window(h), Window(p))) else [])
       + (if Ack(p) != Ack(h) then Number(Advance(Ack(h), Ack(p))) else [])
       + (if Seq(p) != Seq(h) then Number(Advance(Seq(h), Seq(p))) else []))
    + if IpId(p) != IpId(h) + 1 then Number(Distance16(IpId(h), IpId(p))) else []
  }

  /** The frame of `p` coded against `h`, with the connection id unless that is left out. */
  function Wire(h: seq<byte>, p: seq<byte>, id: Option<byte>): (b: seq<byte>)
    requires HasTcp(h) && HasTcp(p) && HeaderLen(p) <= |p|
    requires Advance(Ack(h), Ack(p)) < 0x1_0000 && Advance(Seq(h), Seq(p)) < 0x1_0000
  {
    var o := TcpAt(p);
    [(if id.Some? then 0x40 else 0) + (if IpId(p) != IpId(h) + 1 then 0x20 else 0)
     + (if p[o + 13] / 8 % 2 == 1 then 0x10 else 0) + WireLow(h, p)]
    + (if id.Some? then [id.value] else []) + [p[o + 16], p[o + 17]] + WireNumbers(h, p) + p[HeaderLen(p)..]
  }

  lemma MaskOctet(m: Mask)
    ensures MaskByte(m) == (if m.c then 0x40 else 0) + (if m.i then 0x20 else 0) + (if m.push then 0x10 else 0)
                           + (if m.s then 8 else 0) + (if m.a then 4 else 0) + (if m.w then 2 else 0)
                           + if m.u then 1 else 0
  {
  }

  lemma Advances(t: Header, p: seq<byte>)
    requires HasTcp(t) && HasTcp(p)
    ensures SeqDelta(t, p) == Advance(Seq(t), Seq(p)) && AckDelta(t, p) == Advance(Ack(t), Ack(p))
    ensures WindowDelta(t, p) == Distance16(Window(t), Window(p)) && IdDelta(t, p) == Distance16(IpId(t), IpId(p))
    ensures SeqDelta(t, p) == 0 <==> Seq(p) == Seq(t)
    ensures AckDelta(t, p) == 0 <==> Ack(p) == Ack(t)
    ensures WindowDelta(t, p) == 0 <==> Window(p) == Window(t)
  {
    hide U16, U32;
    DeltasLand(t, p);
  }

  /** The special codes are chosen where the pattern is there, and nowhere else. */
  lemma SpecialsIff(t: Header, p: seq<byte>)
    requires HasTcp(t) && HasTcp(p) && Changes(t, p).Coded? && Specials(t, p, Changes(t, p)).Coded?
    ensures IsSpecialI(Specials(t, p, Changes(t, p)).mask) <==> Echoes(t, p)
    ensures IsSpecialD(Specials(t, p, Changes(t, p)).mask) <==> Continues(t, p)
  {
    hide Encode, EncodeZ, UrgSet, WindowDelta, SeqDelta, AckDelta, Advance, Urg;
    UrgBit(p);
    Advances(t, p);
  }

  lemma SpecialSmall(t: Header, p: seq<byte>)
    requires HasTcp(t) && HasTcp(p)
    ensures Echoes(t, p) || Continues(t, p) ==>
              Advance(Ack(t), Ack(p)) < 0x1_0000 && Advance(Seq(t), Seq(p)) < 0x1_0000
  {
  }

  /** The octets of the changes. */
  lemma NumbersExact(t: Header, p: seq<byte>, m: Mask, deltas: seq<byte>)
    requires HasTcp(t) && CodedAs(t, p, m, deltas)
    ensures Advance(Ack(t), Ack(p)) < 0x1_0000 && Advance(Seq(t), Seq(p)) < 0x1_0000
    ensures deltas == WireNumbers(t, p)
  {
    hide Code, Changes, Specials, SeqDelta, AckDelta, WindowDelta, IdDelta, Advance, Distance16, Echoes, Continues, Key;
    hide Urg, UrgSet;
    CodeParts(t, p, m, deltas);
    MaskUnambiguous(t, p);
    SpecialsIff(t, p);
    Advances(t, p);
    UrgBit(p);
    SpecialSmall(t, p);
  }

  lemma MaskExact(t: Header, p: seq<byte>, m: Mask, deltas: seq<byte>)
    requires HasTcp(t) && CodedAs(t, p, m, deltas)
    ensures MaskByte(m) == (if m.c then 0x40 else 0) + (if IpId(p) != IpId(t) + 1 then 0x20 else 0)
                           + (if p[TcpAt(p) + 13] / 8 % 2 == 1 then 0x10 else 0) + WireLow(t, p)
  {
    hide Code, Changes, Specials, SeqDelta, AckDelta, WindowDelta, IdDelta, Advance, Echoes, Continues, MaskByte, Key;
    hide Urg, UrgSet;
    CodeParts(t, p, m, deltas);
    MaskUnambiguous(t, p);
    SpecialsIff(t, p);
    Advances(t, p);
    UrgBit(p);
    MaskOctet(m);
  }

  lemma SumOctets(p: seq<byte>)
    requires HasTcp(p)
    ensures [TcpSum(p) / 0x100, TcpSum(p) % 0x100] == [p[TcpAt(p) + 16], p[TcpAt(p) + 17]]
  {
  }

  lemma BytesExact(t: Header, p: seq<byte>, m: Mask, deltas: seq<byte>, id: byte)
    requires HasTcp(t) && CodedAs(t, p, m, deltas)
    ensures Advance(Ack(t), Ack(p)) < 0x1_0000 && Advance(Seq(t), Seq(p)) < 0x1_0000
    ensures VjBytes(m, id, TcpSum(p), deltas) + p[HeaderLen(p)..] == Wire(t, p, if m.c then Some(id) else None)
  {
    hide Code, MaskByte, WireNumbers, WireLow, Key, Advance;
    NumbersExact(t, p, m, deltas);
    MaskExact(t, p, m, deltas);
    SumOctets(p);
  }

  /** Every frame of a TCP packet, octet by octet: a compressed one, coded against the header in its slot, and
      an uncompressed one, with the slot in the place of the protocol. */
  lemma WireExact(tx: Tx, p: seq<byte>, cid: bool)
    requires TxGood(tx) && Admissible(p) && !PassesBy(p)
    ensures Segment(p)
    ensures var f, i := Compress(tx, p, cid).frame, SlotFor(tx, p);
            var t := tx.hdrs[i];
            if CodeIn(tx, p).Plain? then f.kind == 0x70 && f.bytes == p[9 := i]
            else
              && f.kind == 0x80 && HasTcp(t)
              && Advance(Ack(t), Ack(p)) < 0x1_0000 && Advance(Seq(t), Seq(p)) < 0x1_0000
              && f.bytes == Wire(t, p, if SendsId(tx, p, cid) then Some(i) else None)
  {
    hide CodeIn, SlotFor, File, VjBytes, Wire, Key, Advance, SendsId, Segment, Unfragmented, PlainAck, CodedAs;
    PassesByIff(p);
    if CodeIn(tx, p).Coded? {
      var t, c := tx.hdrs[SlotFor(tx, p)], CodeIn(tx, p);
      CodedSlot(tx, p);
      CodedConnBit(t, p, c.mask, c.deltas, SendsId(tx, p, cid));
      BytesExact(t, p, c.mask.(c := SendsId(tx, p, cid)), c.deltas, SlotFor(tx, p));
    }
  }

  lemma PassedBytes(tx: Tx, p: seq<byte>, cid: bool)
    requires tx.Valid() && Admissible(p) && PassesBy(p)
    ensures Compress(tx, p, cid) == Sent(tx, Frame(0x40, p))
  {
    PassesByIff(p);
  }

  // ---- the connection id ----

  /** The conversation of the last TCP packet sent in a run. */
  ghost function LastConn(cs: seq<Call>): (c: Option<Conn>)
    requires Callable(cs)
  {
    if cs == [] then None else
    var n := |cs| - 1;
    if PassesBy(cs[n].p) then LastConn(cs[..n]) else Some(Key(cs[n].p))
  }

  /** The slot last sent for holds the conversation last sent for. */
  ghost predicate LastIs(tx: Tx, c: Option<Conn>)
    requires tx.Valid()
  {
    if tx.lastXmit >= MAX_STATES then c == None
    else Used(tx.hdrs[tx.lastXmit]) && c == Some(Key(tx.hdrs[tx.lastXmit]))
  }

  lemma FileLast(tx: Tx, p: seq<byte>)
    requires TxGood(tx) && HasTcp(p) && Segment(p)
    ensures File(tx, p).Valid() && LastIs(File(tx, p), Some(Key(p)))
  {
    hide Segment, SlotFor, Overwrite, ToFront, HeaderLen, Used, Key;
    FileGood(tx, p);
    OverwriteSegment(tx.hdrs[SlotFor(tx, p)], p);
  }

  lemma {:induction false} RunLast(cs: seq<Call>)
    requires Callable(cs)
    ensures LastIs(TxRun(cs), LastConn(cs))
  {
    hide File, Compress, Key, PassesBy, Used;
    if cs != [] {
      var n := |cs| - 1;
      RunLast(cs[..n]);
      PassesByIff(cs[n].p);
      CompressFiles(TxRun(cs[..n]), cs[n].p, cs[n].cid);
      if Compressible(cs[n].p) {
        FileLast(TxRun(cs[..n]), cs[n].p);
      }
    }
  }

  /** A compressed frame leaves its connection id out exactly when it may and the last TCP packet sent was of
      the same conversation. */
  lemma IdLeftOut(cs: seq<Call>, c: Call)
    requires Callable(cs) && Admissible(c.p) && !PassesBy(c.p)
    ensures Segment(c.p)
    ensures CodableIn(CacheRun(cs), c.p) ==>
              (SendsId(TxRun(cs), c.p, c.cid) <==> !(c.cid && LastConn(cs) == Some(Key(c.p))))
  {
    hide Key, LruInvariant, Cache, Codable, Used, CodeIn, SlotFor, TxRun, CodableIn, Unfragmented, PlainAck;
    var tx := TxRun(cs);
    PassesByIff(c.p);
    RunIsLruCache(cs);
    RunLast(cs);
    CodedIff(tx, c.p);
    if CodeIn(tx, c.p).Coded? {
      CodedSlot(tx, c.p);
      CodedKey(tx, c.p);
      if tx.lastXmit < MAX_STATES && tx.lastXmit != SlotFor(tx, c.p) {
        UsedKeysDiffer(tx, tx.lastXmit, SlotFor(tx, c.p));
      }
    }
  }
}
