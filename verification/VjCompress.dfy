/** `sl_compress_tcp` as a function on the transmit state of one line. */
module VjCompress {
  import opened Bytes
  import opened VjDelta
  import opened VjHeader

  /** What goes to the framer: the packet type and the octets. */
  datatype Frame = Frame(kind: byte, bytes: seq<byte>)

  /** `order` lists the slots from most to least recently used. */
  datatype Tx = Tx(order: seq<nat>, hdrs: seq<Header>, lastXmit: byte) {
    ghost predicate Valid() {
      && |order| == MAX_STATES && |hdrs| == MAX_STATES
      && (forall k :: 0 <= k < MAX_STATES ==> order[k] < MAX_STATES)
      && (forall j, k :: 0 <= j < k < MAX_STATES ==> order[j] != order[k])
    }
  }

  predicate Unfragmented(p: seq<byte>) {
    |p| >= 40 && U16(p, 6) % 0x4000 == 0
  }

  /** A TCP segment with nothing but ACK, PSH and URG to say, its headers complete. */
  predicate Segment(p: seq<byte>) {
    && HasTcp(p) && p[0] % 16 >= 5 && DataOffset(p) >= 5 && HeaderLen(p) <= |p|
    && PlainAck(Flags(p)) && p[9] == IPPROTO_TCP
  }

  /** What the caller promises: the headers the code looks at are there, and a compressible packet is TCP. */
  predicate Admissible(p: seq<byte>) {
    Unfragmented(p) ==> HasTcp(p) && p[0] % 16 >= 5 && (PlainAck(Flags(p)) ==> Segment(p))
  }

  /** Fragments, short packets and anything but a plain ACK go out as ordinary IP. */
  predicate Compressible(p: seq<byte>)
    requires Admissible(p)
    ensures Compressible(p) ==> Segment(p)
  {
    Unfragmented(p) && PlainAck(Flags(p))
  }

  /** The position in `order`, from `k` on, of the first slot saved for `c`; MAX_STATES if there is none. */
  function Position(tx: Tx, c: Conn, k: nat): (r: nat)
    requires tx.Valid() && k <= MAX_STATES
    ensures k <= r <= MAX_STATES
    ensures forall j :: k <= j < r ==> Key(tx.hdrs[tx.order[j]]) != c
    ensures r < MAX_STATES ==> Key(tx.hdrs[tx.order[r]]) == c
    decreases MAX_STATES - k
  {
    if k == MAX_STATES then k
    else if Key(tx.hdrs[tx.order[k]]) == c then k
    else Position(tx, c, k + 1)
  }

  /** Where `p` is filed: its own slot, or the least recently used one. */
  function Place(tx: Tx, p: seq<byte>): (k: nat)
    requires tx.Valid() && HasTcp(p)
    ensures k < MAX_STATES
  {
    var k := Position(tx, Key(p), 0);
    if k < MAX_STATES then k else MAX_STATES - 1
  }

  predicate Known(tx: Tx, p: seq<byte>)
    requires tx.Valid() && HasTcp(p)
  {
    Position(tx, Key(p), 0) < MAX_STATES
  }

  function SlotFor(tx: Tx, p: seq<byte>): (i: nat)
    requires tx.Valid() && HasTcp(p)
    ensures i < MAX_STATES
  {
    tx.order[Place(tx, p)]
  }

  function ToFront(order: seq<nat>, k: nat): (r: seq<nat>)
    requires k < |order|
    ensures |r| == |order|
  {
    [order[k]] + order[..k] + order[k + 1..]
  }

  /** The fields that must not have changed: version, header length and TOS; the fragment word;
      TTL and protocol; the TCP header length; and all options. */
  predicate SameShape(t: Header, p: seq<byte>)
    requires Segment(p)
  {
    && U16(p, 0) == U16(t, 0) && U16(p, 6) == U16(t, 6) && U16(p, 8) == U16(t, 8)
    && DataOffset(p) == DataOffset(t)
    && p[20..TcpAt(p)] == t[20..TcpAt(p)]
    && p[TcpAt(p) + 20..HeaderLen(p)] == t[TcpAt(p) + 20..HeaderLen(p)]
  }

  /** Either the packet goes uncompressed, or the change mask and the coded changes. */
  datatype Coded = Plain | Coded(mask: Mask, deltas: seq<byte>)

  // The changes, in the unsigned arithmetic of the field's width.
  function SeqDelta(t: Header, p: seq<byte>): (d: u32) requires HasTcp(p) { (Seq(p) - Seq(t)) % 0x1_0000_0000 }
  function AckDelta(t: Header, p: seq<byte>): (d: u32) requires HasTcp(p) { (Ack(p) - Ack(t)) % 0x1_0000_0000 }
  function WindowDelta(t: Header, p: seq<byte>): (d: u16) requires HasTcp(p) { (Window(p) - Window(t)) % 0x1_0000 }
  function IdDelta(t: Header, p: seq<byte>): (d: u16) requires HasTcp(p) { (IpId(p) - IpId(t)) % 0x1_0000 }

  /** The four bits and the coded changes before the special cases are looked for. */
  function Changes(t: Header, p: seq<byte>): (r: Coded)
    requires HasTcp(p)
    ensures r.Coded? ==> |r.deltas| <= 12 && !r.mask.c && !r.mask.i && !r.mask.push
  {
    var dw, da, ds := WindowDelta(t, p), AckDelta(t, p), SeqDelta(t, p);
    var urg := UrgSet(Flags(p));
    if (!urg && Urgent(p) != Urgent(t)) || da > 0xffff || ds > 0xffff then Plain
    else Coded(Mask(false, false, false, ds != 0, da != 0, dw != 0, urg),
               (if urg then EncodeZ(Urgent(p)) else []) + (if dw != 0 then Encode(dw) else [])
               + (if da != 0 then Encode(da) else []) + (if ds != 0 then Encode(ds) else []))
  }

  /** The `switch (changes)`: what is reserved goes uncompressed, two common patterns get a special code. */
  function Specials(t: Header, p: seq<byte>, r: Coded): (q: Coded)
    requires HasTcp(p) && r.Coded? && |r.deltas| <= 12 && !r.mask.c && !r.mask.i && !r.mask.push
    ensures q.Coded? ==> |q.deltas| <= 12 && !q.mask.c && !q.mask.i && !q.mask.push
  {
    var m := r.mask;
    var ds, da := SeqDelta(t, p), AckDelta(t, p);
    var data := IpLen(t) - HeaderLen(p);
    if IsSpecial(m) then Plain
    else if !m.s && !m.a && !m.w && !m.u then
      if IpLen(p) != IpLen(t) && data == 0 then r else Plain
    else if m.s && m.a && !m.w && !m.u && ds == da && ds == data then
      Coded(m.(s := true, a := false, w := true, u := true), [])
    else if m.s && !m.a && !m.w && !m.u && ds == data then
      Coded(m.(s := true, a := true, w := true, u := true), [])
    else r
  }

  /** The whole coding of `p` against the header saved in its slot, but for the connection id. */
  function Code(t: Header, p: seq<byte>): (r: Coded)
    requires Segment(p)
    ensures r.Coded? ==> !r.mask.c && |r.deltas| <= 15
  {
    if !SameShape(t, p) then Plain else
    var c := Changes(t, p);
    if c.Plain? then Plain else
    var q := Specials(t, p, c);
    if q.Plain? then Plain else
    var di := IpId(p) - IpId(t);
    Coded(q.mask.(i := di != 1, push := PushSet(Flags(p))),
          q.deltas + if di != 1 then EncodeZ(IdDelta(t, p)) else [])
  }

  /** The octets behind the connection id: the TCP checksum and the changes. */
  function SumAndDeltas(sum: u16, deltas: seq<byte>): (r: seq<byte>) {
    [sum / 0x100, sum % 0x100] + deltas
  }

  /** The header of a compressed frame: mask, connection id unless it is implied, TCP checksum, changes. */
  function VjBytes(m: Mask, id: byte, sum: u16, deltas: seq<byte>): (b: seq<byte>)
  {
    [MaskByte(m)] + (if m.c then [id] else []) + SumAndDeltas(sum, deltas)
  }

  /** How `p` is coded in the state `tx`; a conversation without a slot always starts uncompressed. */
  function CodeIn(tx: Tx, p: seq<byte>): (r: Coded)
    requires tx.Valid() && Segment(p)
    ensures r.Coded? ==> !r.mask.c && |r.deltas| <= 15
  {
    if Known(tx, p) then Code(tx.hdrs[SlotFor(tx, p)], p) else Plain
  }

  /** The state once `p` has been filed: its slot in front, holding its header. */
  function File(tx: Tx, p: seq<byte>): (r: Tx)
    requires tx.Valid() && Segment(p)
  {
    var i := SlotFor(tx, p);
    Tx(ToFront(tx.order, Place(tx, p)), tx.hdrs[i := Overwrite(tx.hdrs[i], p[..HeaderLen(p)])], i)
  }

  /** The connection id is sent unless it may be left out and is the one last sent. */
  predicate SendsId(tx: Tx, p: seq<byte>, compressCid: bool)
    requires tx.Valid() && Segment(p)
  {
    !compressCid || tx.lastXmit != SlotFor(tx, p)
  }

  datatype Sent = Sent(tx: Tx, frame: Frame)

  function Compress(tx: Tx, p: seq<byte>, compressCid: bool): (r: Sent)
    requires tx.Valid() && Admissible(p)
  {
    if !Compressible(p) then Sent(tx, Frame(TYPE_IP, p)) else
    var i := SlotFor(tx, p);
    match CodeIn(tx, p)
    case Plain => Sent(File(tx, p), Frame(TYPE_UNCOMPRESSED_TCP, p[9 := i]))
    case Coded(mask, deltas) =>
      var vj := VjBytes(mask.(c := SendsId(tx, p, compressCid)), i, TcpSum(p), deltas);
      Sent(File(tx, p), Frame(TYPE_COMPRESSED_TCP, vj + p[HeaderLen(p)..]))
  }

  /** `sl_compress_init`: the states linked downwards from 15, and no connection last used. */
  function Initial(): (tx: Tx)
    ensures tx.Valid()
  {
    Tx(seq(MAX_STATES, k requires 0 <= k < MAX_STATES => MAX_STATES - 1 - k), seq(MAX_STATES, _ => Blank()), 255)
  }
}
