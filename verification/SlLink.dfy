/** The routines on their buffers, joined by a line: one `struct slcompress` at either end. */
module SlLink {
  import opened Bytes
  import opened VjHeader
  import opened SlCompress
  import VjCompress
  import VjLink
  import VjReceiver
  import VjStep
  import VjUncompress

  type Event = VjLink.Event

  /** The two ends do not share their states. */
  ghost predicate Apart(a: Line, b: Line) {
    a != b && a.tstate != b.tstate && a.tstate != b.rstate && a.rstate != b.tstate && a.rstate != b.rstate
  }

  ghost function Ends(a: Line, b: Line): (l: VjLink.Link)
    reads a, a.tstate, b, b.rstate
  {
    VjLink.Link(a.TxState(), b.RxState())
  }

  /** What the line keeps: both structures in order, and no receive slot without a header of its length. */
  ghost predicate Joined(a: Line, b: Line)
    reads a, a.tstate, a.rstate, b, b.tstate, b.rstate
  {
    Apart(a, b) && a.Valid() && b.Valid() && Ends(a, b).Good() && VjReceiver.AllWhole(b.RxState())
  }

  /** The octets of a frame with others behind, in a buffer that has room in front. */
  method Receivable(frame: seq<byte>, slack: seq<byte>) returns (buf: array<byte>)
    ensures fresh(buf) && buf.Length == MAX_HDR + |frame| + |slack| && buf[MAX_HDR..] == frame + slack
  {
    var octets := frame + slack;
    buf := new byte[MAX_HDR + |octets|](k requires 0 <= k < MAX_HDR + |octets| =>
      if k < MAX_HDR then 0 else octets[k - MAX_HDR]);
    assert buf[MAX_HDR..] == octets;
  }

  lemma NothingMoves(rx: VjUncompress.Rx, kind: byte, mem: seq<byte>, len: nat, address: nat)
    requires rx.Valid() && VjReceiver.AllWhole(rx) && |mem| >= MAX_HDR
    ensures !VjReceiver.CallSumsMoved(rx, kind, mem, len, address)
  {
    hide VjReceiver.Consumed;
  }

  lemma OutputSize(rx: VjUncompress.Rx, kind: byte, mem: seq<byte>, len: nat)
    requires rx.Valid() && VjUncompress.Readable(mem, len)
    ensures var r := VjUncompress.Uncompress(rx, kind, mem, len);
            && |r.rx.slots| == MAX_STATES
            && (r.packet.Some? ==>
                  if kind == TYPE_COMPRESSED_TCP then
                    && r.rx.lastRecv < MAX_STATES && VjReceiver.Consumed(rx, kind, mem) <= len
                    && |r.packet.value| == r.rx.slots[r.rx.lastRecv].hlen + len - VjReceiver.Consumed(rx, kind, mem)
                  else |r.packet.value| == len)
  {
    if kind == TYPE_COMPRESSED_TCP {
      VjReceiver.RebuiltSize(rx, mem, len);
    } else {
      VjReceiver.ReceiverInvariant(rx, kind, mem, len);
    }
  }

  /** A frame that arrives: what the decompressor makes of it, in its buffer. Its caller knows where the
      packet starts; its length is the data behind the header of the connection. */
  method Arrive(b: Line, kind: byte, frame: seq<byte>, slack: seq<byte>) returns (out: Option<seq<byte>>)
    requires b.Valid() && |slack| >= MAX_HDR && VjReceiver.AllWhole(b.RxState())
    modifies b`lastRecv, b`toss, b`cnt, b.rstate
    ensures b.Valid()
    ensures var r := VjUncompress.Uncompress(old(b.RxState()), kind, frame + slack, |frame|);
            b.RxState() == r.rx && out == r.packet
  {
    hide VjUncompress.Uncompress;
    ghost var rx := b.RxState();
    var buf := Receivable(frame, slack);
    NothingMoves(rx, kind, frame + slack, |frame|, MAX_HDR);
    var ok, at, vjLen := b.Uncompress(buf, MAX_HDR, |frame|, kind, 0);
    out := None;
    if ok {
      OutputSize(rx, kind, frame + slack, |frame|);
      var n := |frame|;
      if kind == TYPE_COMPRESSED_TCP {
        n := b.rstate[b.lastRecv].hlen + |frame| - vjLen;
      }
      out := Some(buf[at..at + n]);
    }
  }

  /** An uncompressed frame that was sent has the header of its packet. */
  lemma SentHeader(tx: VjCompress.Tx, p: seq<byte>, cid: bool, slack: seq<byte>)
    requires VjStep.TxGood(tx) && VjCompress.Admissible(p) && |slack| >= MAX_HDR
    ensures var f := VjCompress.Compress(tx, p, cid).frame;
            f.kind == TYPE_UNCOMPRESSED_TCP ==> HeaderLen(f.bytes + slack) > 0
  {
    hide VjCompress.CodeIn, VjCompress.SlotFor, VjCompress.File;
    if VjCompress.Compressible(p) && VjCompress.CodeIn(tx, p).Plain? {
      var mem := p[9 := VjCompress.SlotFor(tx, p)] + slack;
      assert mem[0] == p[0] && mem[TcpAt(p) + 12] == p[TcpAt(p) + 12];
    }
  }

  lemma StaysJoined(l: VjLink.Link, e: Event)
    requires l.Good() && VjLink.FedOne(e) && VjReceiver.AllWhole(l.rx)
    ensures VjLink.Next(l, e).Good() && VjReceiver.AllWhole(VjLink.Next(l, e).rx)
  {
    hide VjUncompress.Uncompress, VjCompress.Compress, VjCompress.Admissible, VjReceiver.AllWhole;
    if e.fate.Arrived? {
      var f := VjCompress.Compress(l.tx, e.p, e.cid).frame;
      SentHeader(l.tx, e.p, e.cid, e.slack);
      VjReceiver.StaysWhole(l.rx, VjReceiver.Arrival(f.kind, f.bytes + e.slack, |f.bytes|));
    } else if e.fate.Reported? {
      VjReceiver.StaysWhole(l.rx, VjReceiver.Arrival(TYPE_ERROR, e.slack, 0));
    }
  }

  /** One packet down the line. */
  method Carry(a: Line, b: Line, e: Event) returns (out: Option<seq<byte>>)
    requires Joined(a, b) && VjLink.FedOne(e)
    modifies a`lastCs, a`order, a`lastXmit, a.tstate, b`lastRecv, b`toss, b`cnt, b.rstate
    ensures Joined(a, b)
    ensures Ends(a, b) == VjLink.Next(old(Ends(a, b)), e) && out == VjLink.Receive(old(Ends(a, b)), e).packet
  {
    hide VjUncompress.Uncompress, VjCompress.Compress, VjCompress.Admissible, VjStep.TxGood, VjReceiver.AllWhole;
    ghost var l := Ends(a, b);
    var buf := new byte[|e.p|](k requires 0 <= k < |e.p| => e.p[k]);
    assert buf[0..0 + |e.p|] == e.p;
    var kind, off, len := a.Compress(buf, 0, |e.p|, e.cid);
    var frame := buf[off..off + len];
    out := None;
    StaysJoined(l, e);
    match e.fate
    case Arrived => out := Arrive(b, kind, frame, e.slack);
    case Reported =>
      out := Arrive(b, TYPE_ERROR, [], e.slack);
      assert [] + e.slack == e.slack;
    case Unnoticed =>
  }

  /** `sl_compress_init` at both ends. */
  method Join() returns (a: Line, b: Line)
    ensures Joined(a, b) && Ends(a, b) == VjLink.Start()
    ensures fresh(a) && fresh(a.tstate) && fresh(b) && fresh(b.rstate)
  {
    a := new Line();
    b := new Line();
    VjReceiver.InitialWhole();
    assert Ends(a, b) == VjLink.Start();
  }

  /** Any sequence of packets over a fresh line, whatever becomes of their frames: the buffers end up with
      what the run of the two functions yields. So without loss all packets come back octet for octet if and
      only if every one of them is one that the sender can tell will return. */
  method CarryAll(es: seq<Event>) returns (outs: seq<Option<seq<byte>>>)
    requires VjLink.Fed(es)
    ensures |outs| == |es| && forall k :: 0 <= k < |es| ==> outs[k] == VjLink.Output(VjLink.Start(), es, k)
    ensures VjLink.Lossless(es) ==>
              ((forall k :: 0 <= k < |es| ==> outs[k] == Some(es[k].p)) <==> VjLink.AllWillReturn(es))
  {
    hide VjLink.Next, VjLink.Receive, VjLink.FedOne, VjLink.AllWillReturn, Joined;
    var a, b := Join();
    outs := [];
    var i := 0;
    while i < |es|
      invariant 0 <= i <= |es| && |outs| == i && fresh(a) && fresh(a.tstate) && fresh(b) && fresh(b.rstate)
      invariant Joined(a, b) && Ends(a, b) == VjLink.After(VjLink.Start(), es[..i])
      invariant forall k :: 0 <= k < i ==> outs[k] == VjLink.Output(VjLink.Start(), es, k)
    {
      assert es[..i + 1][..i] == es[..i];
      var out := Carry(a, b, es[i]);
      outs := outs + [out];
      i := i + 1;
    }
    if VjLink.Lossless(es) {
      VjLink.RoundTripExact(es);
    }
  }
}
