/** Whole runs of a serial line: what comes out of the decompressor for everything that went into the
    compressor, without loss, with losses that are reported, and with losses that nobody notices. */
module VjLink {
  import opened Bytes
  import opened VjHeader
  import opened VjCompress
  import VjUncompress
  import VjReceiver
  import opened VjRoundTrip
  import opened VjStale
  import opened VjStep
  import VjLru

  /** What happens to a frame: it arrives, or it is lost and the decompressor is called with TYPE_ERROR, or
      it is lost and the decompressor is not called at all. */
  datatype Fate = Arrived | Reported | Unnoticed

  /** A packet handed to the compressor, whether its connection id may be left out, what happens to its
      frame, and what lies behind the frame in the receive buffer. */
  datatype Event = Event(p: seq<byte>, cid: bool, fate: Fate, slack: seq<byte>)

  /** The states of the two ends. */
  datatype Link = Link(tx: Tx, rx: Rx) {
    ghost predicate Good() { TxGood(tx) && rx.Valid() }
  }

  ghost function Start(): (l: Link)
    ensures l.Good()
  {
    InitialGood();
    Link(VjCompress.Initial(), VjUncompress.Initial())
  }

  ghost predicate FedOne(e: Event) { Admissible(e.p) && |e.slack| >= MAX_HDR }

  ghost predicate Fed(es: seq<Event>) { forall k :: 0 <= k < |es| ==> FedOne(es[k]) }

  ghost predicate Lossless(es: seq<Event>) { forall k :: 0 <= k < |es| ==> es[k].fate.Arrived? }

  /** Every loss is reported. */
  ghost predicate Noticed(es: seq<Event>) { forall k :: 0 <= k < |es| ==> !es[k].fate.Unnoticed? }

  /** The receiver's part. */
  ghost function Receive(l: Link, e: Event): (r: Received)
    requires l.Good() && FedOne(e)
  {
    match e.fate
    case Arrived => Deliver(l.rx, Compress(l.tx, e.p, e.cid).frame, e.slack)
    case Reported => VjUncompress.Uncompress(l.rx, TYPE_ERROR, e.slack, 0)
    case Unnoticed => VjUncompress.Received(l.rx, None)
  }

  lemma NextGood(l: Link, e: Event)
    requires l.Good() && FedOne(e)
    ensures TxGood(Compress(l.tx, e.p, e.cid).tx) && Receive(l, e).rx.Valid()
  {
    hide Segment, Key, CodeIn;
    if Compressible(e.p) {
      FileGood(l.tx, e.p);
    }
    var f := Compress(l.tx, e.p, e.cid).frame;
    if e.fate.Arrived? {
      VjReceiver.StaysValid(l.rx, f.kind, f.bytes + e.slack, |f.bytes|);
    }
  }

  ghost function Next(l: Link, e: Event): (r: Link)
    requires l.Good() && FedOne(e)
    ensures r.Good()
  {
    NextGood(l, e);
    Link(Compress(l.tx, e.p, e.cid).tx, Receive(l, e).rx)
  }

  ghost function After(l: Link, es: seq<Event>): (r: Link)
    requires l.Good() && Fed(es)
    ensures r.Good()
  {
    if es == [] then l else Next(After(l, es[..|es| - 1]), es[|es| - 1])
  }

  /** What the decompressor hands on for packet `k` of a run. */
  ghost function Output(l: Link, es: seq<Event>, k: nat): (r: Option<seq<byte>>)
    requires l.Good() && Fed(es) && k < |es|
  {
    Receive(After(l, es[..k]), es[k]).packet
  }

  // ---- what becomes of one event ----

  /** The compressor sends `e` as a compressed frame. */
  ghost predicate Codes(l: Link, e: Event)
    requires l.Good() && FedOne(e)
  {
    Compressible(e.p) && CodeIn(l.tx, e.p).Coded?
  }

  /** It sends `e` uncompressed and the frame arrives. */
  ghost predicate Refreshes(l: Link, e: Event)
    requires l.Good() && FedOne(e)
  {
    Compressible(e.p) && CodeIn(l.tx, e.p).Plain? && e.fate.Arrived?
  }

  ghost function Slot(l: Link, e: Event): (i: nat)
    requires l.Good() && FedOne(e) && Compressible(e.p)
  {
    SlotFor(l.tx, e.p)
  }

  /** The receive slot that the frame is applied to, if it is a compressed one. */
  ghost function Target(l: Link, e: Event): (j: nat)
    requires l.Good() && FedOne(e) && Compressible(e.p)
  {
    TargetOf(l.tx, l.rx, e.p, e.cid)
  }

  /** The slots in step after `e`, given those in step before. */
  ghost function Track(l: Link, I: set<nat>, e: Event): (J: set<nat>)
    requires l.Good() && FedOne(e)
  {
    if !Compressible(e.p) then I
    else if !e.fate.Arrived? then I - {Slot(l, e)}
    else if CodeIn(l.tx, e.p).Plain? then I + {Slot(l, e)}
    else if l.rx.cnt == 0 then I - {Slot(l, e)}
    else StillInStep(l.tx, l.rx, I, e.p, e.cid)
  }

  /** A compressed frame is looked at: the session counter is not at 0, and the frame names its connection
      or no error is outstanding. */
  ghost predicate Accepted(l: Link, e: Event)
    requires l.Good() && FedOne(e) && Compressible(e.p)
  {
    l.rx.cnt != 0 && (SendsId(l.tx, e.p, e.cid) || !l.rx.toss)
  }

  /** With the header of receive slot `j` the packet takes at most 1520 octets. */
  ghost predicate ShortEnough(rx: Rx, j: nat, p: seq<byte>)
    requires rx.Valid() && j < MAX_STATES && Segment(p)
  {
    rx.slots[j].hlen + |p| - HeaderLen(p) <= 1520
  }

  lemma AlignedTarget(l: Link, e: Event)
    requires l.Good() && FedOne(e) && Codes(l, e) && Aligned(l.tx, l.rx) && Accepted(l, e)
    ensures Target(l, e) == Slot(l, e)
  {
    hide CodeIn, SlotFor, Segment;
  }

  /** What becomes of one event, of whatever kind, if the slots in `I` are in step before it. */
  lemma TrackStep(l: Link, I: set<nat>, e: Event)
    requires l.Good() && FedOne(e) && InStep(l.tx, l.rx, I)
    ensures InStep(Next(l, e).tx, Next(l, e).rx, Track(l, I, e))
    ensures Aligned(l.tx, l.rx) && !e.fate.Unnoticed? ==> Aligned(Next(l, e).tx, Next(l, e).rx)
    ensures Next(l, e).rx.cnt == if Refreshes(l, e) then (l.rx.cnt + 1) % 0x100 else l.rx.cnt
    ensures !e.fate.Arrived? ==> Receive(l, e).packet == None
    ensures e.fate.Arrived? && !Codes(l, e) ==> Receive(l, e).packet == Some(e.p)
    ensures e.fate.Arrived? && !l.rx.toss ==> !Next(l, e).rx.toss
    ensures Refreshes(l, e) ==> !Next(l, e).rx.toss && Next(l, e).rx.lastRecv == Next(l, e).tx.lastXmit
    ensures e.fate.Arrived? && Codes(l, e) ==>
              && (!Accepted(l, e) || Target(l, e) >= MAX_STATES ==> Receive(l, e).packet == None)
              && (Accepted(l, e) && Target(l, e) < MAX_STATES ==>
                    && (Receive(l, e).packet.Some? <==> ShortEnough(l.rx, Target(l, e), e.p))
                    && (Receive(l, e).packet == Some(e.p)
                        <==> Canonical(e.p) && FitsIn(l.rx.slots[Target(l, e)], l.tx, e.p)))
              && (Accepted(l, e) && Target(l, e) == Slot(l, e) && Slot(l, e) in I ==>
                    && (Receive(l, e).packet == Some(e.p) <==> FaithfulIn(l.tx, e.p))
                    && (Receive(l, e).packet.Some? ==> HandedIn(Receive(l, e).packet.value, l.tx, e.p)))
  {
    hide Compress, SlotFor, Deliver, Admissible, Compressible, CodeIn, FaithfulIn, InStep, SendsId;
    hide VjUncompress.Uncompress, HandedIn, Canonical, FitsIn;
    if e.fate.Reported? {
      LostStep(l.tx, l.rx, I, e.p, e.cid, e.slack, 0);
    } else if e.fate.Unnoticed? {
      SentOnly(l.tx, l.rx, I, e.p, e.cid);
    } else if !Compressible(e.p) {
      PlainIpStep(l.tx, l.rx, e.p, e.cid, e.slack);
    } else if CodeIn(l.tx, e.p).Plain? {
      UncompressedStep(l.tx, l.rx, I, e.p, e.cid, e.slack);
    } else if l.rx.cnt == 0 {
      RefusedStep(l.tx, l.rx, e.p, e.cid, e.slack);
      SentOnly(l.tx, l.rx, I, e.p, e.cid);
    } else {
      CompressedStep(l.tx, l.rx, I, e.p, e.cid, e.slack);
      if Aligned(l.tx, l.rx) && Accepted(l, e) {
        AlignedTarget(l, e);
      }
    }
  }

  /** The packet belongs to the conversation that transmit slot `j` is saved for. */
  ghost predicate OfSlot(p: seq<byte>, tx: Tx, j: nat)
    requires tx.Valid()
  {
    j < MAX_STATES && HasTcp(p) && Key(p) == Key(tx.hdrs[j])
  }

  lemma CodedKeys(tx: Tx, p: seq<byte>)
    requires TxGood(tx) && Segment(p) && CodeIn(tx, p).Coded?
    ensures Key(tx.hdrs[SlotFor(tx, p)]) == Key(p)
  {
    CodedSlot(tx, p);
  }

  /** A frame applied to a slot in step of another conversation: whatever comes out belongs to that one. */
  lemma MisroutedTo(l: Link, I: set<nat>, e: Event)
    requires l.Good() && FedOne(e) && InStep(l.tx, l.rx, I) && VjLru.LruInvariant(l.tx)
    requires e.fate.Arrived? && Codes(l, e) && Accepted(l, e) && Target(l, e) != Slot(l, e) && Target(l, e) in I
    ensures !OfSlot(e.p, l.tx, Target(l, e))
    ensures var out := Receive(l, e).packet;
            out.Some? ==> OfSlot(out.value, l.tx, Target(l, e))
  {
    hide Compress, SlotFor, Deliver, Compressible, CodeIn, Agrees, Key, Used, CodedAs, Segment;
    CodedSlot(l.tx, e.p);
    CodedKeys(l.tx, e.p);
    VjLru.UsedKeysDiffer(l.tx, Target(l, e), Slot(l, e));
    MisroutedStep(l.tx, l.rx, e.p, e.cid, e.slack);
  }

  /** What comes out for a packet whose frame arrives. What is not coded is handed on as it is. A compressed
      frame is dropped unless it is accepted, applied to a slot that exists, and short enough. Otherwise it
      comes back if and only if it is canonical and the slot it is applied to fits. If that slot is in step,
      all depends on which it is: from the packet's own, the packet is handed on as it was sent if and only
      if the coding carries it in full, and otherwise with what is not carried taken from the saved header;
      from another, it comes out as one of the other conversation. */
  ghost predicate Outcome(l: Link, I: set<nat>, e: Event, out: Option<seq<byte>>)
    requires l.Good() && FedOne(e)
  {
    if !Codes(l, e) then out == Some(e.p)
    else if !Accepted(l, e) then out == None
    else
      var j := Target(l, e);
      && (out.Some? <==> j < MAX_STATES && ShortEnough(l.rx, j, e.p))
      && (out == Some(e.p) <==> j < MAX_STATES && Canonical(e.p) && FitsIn(l.rx.slots[j], l.tx, e.p))
      && (j in I ==>
            && (out == Some(e.p) <==> j == Slot(l, e) && FaithfulIn(l.tx, e.p))
            && (out.Some? && j == Slot(l, e) ==> HandedIn(out.value, l.tx, e.p))
            && (out.Some? && j != Slot(l, e) ==> OfSlot(out.value, l.tx, j) && !OfSlot(e.p, l.tx, j)))
  }

  /** How many uncompressed frames have arrived. */
  ghost function Refreshed(l: Link, es: seq<Event>): (n: nat)
    requires l.Good() && Fed(es)
  {
    if es == [] then 0 else
    var k := |es| - 1;
    Refreshed(l, es[..k]) + if Refreshes(After(l, es[..k]), es[k]) then 1 else 0
  }

  lemma OutcomeStep(l: Link, I: set<nat>, e: Event)
    requires l.Good() && FedOne(e) && InStep(l.tx, l.rx, I) && VjLru.LruInvariant(l.tx) && e.fate.Arrived?
    ensures Outcome(l, I, e, Receive(l, e).packet)
  {
    hide Track, Refreshed, FaithfulIn, Receive, InStep, Next, SlotFor, CodeIn, VjLru.LruInvariant, Key, SendsId;
    hide HandedIn, HeaderLen, Canonical, FitsIn;
    TrackStep(l, I, e);
    if Codes(l, e) && Accepted(l, e) && Target(l, e) in I && Target(l, e) != Slot(l, e) {
      MisroutedTo(l, I, e);
    }
  }

  lemma NextFiles(l: Link, e: Event)
    requires l.Good() && FedOne(e)
    ensures Next(l, e).tx == if Compressible(e.p) then File(l.tx, e.p) else l.tx
  {
    hide CodeIn, File, Receive;
  }

  // ---- runs ----

  ghost function Tracked(l: Link, I: set<nat>, es: seq<Event>): (J: set<nat>)
    requires l.Good() && Fed(es)
  {
    if es == [] then I else
    var k := |es| - 1;
    Track(After(l, es[..k]), Tracked(l, I, es[..k]), es[k])
  }

  /** An 8-bit counter that may be one up is the number it counts, modulo 256. */
  lemma CountOneMore(c: int, c': int, n: int, up: bool)
    requires c == n % 0x100 && c' == if up then (c + 1) % 0x100 else c
    ensures c' == (n + if up then 1 else 0) % 0x100
  {
    assert c + 1 == n + 1 - 0x100 * (n / 0x100);
  }

  lemma StartInStep()
    ensures InStep(Start().tx, Start().rx, {}) && !Start().rx.toss && Start().rx.cnt == 0
    ensures UsedSlots(Start().tx) == {} && Start().rx.lastRecv == Start().tx.lastXmit
  {
  }

  lemma StartLru()
    ensures VjLru.LruInvariant(Start().tx) && Aligned(Start().tx, Start().rx)
  {
    hide VjLru.Cache;
    VjLru.InitialCache();
  }

  /** Over every run, with any losses, noticed or not, the two ends stay in step on the tracked slots; and
      as long as every loss is reported, they agree on the last connection wherever it matters. */
  lemma {:induction false} RunStaysInStep(l: Link, I: set<nat>, es: seq<Event>)
    requires l.Good() && Fed(es) && InStep(l.tx, l.rx, I)
    ensures InStep(After(l, es).tx, After(l, es).rx, Tracked(l, I, es))
    ensures After(l, es).rx.cnt == (l.rx.cnt + Refreshed(l, es)) % 0x100
    ensures Aligned(l.tx, l.rx) && Noticed(es) ==> Aligned(After(l, es).tx, After(l, es).rx)
    ensures Lossless(es) && !l.rx.toss ==> !After(l, es).rx.toss
  {
    hide InStep, Aligned, Next, Track, Receive, Codes, Refreshes, FedOne, Target, Slot, Accepted;
    if es != [] {
      var k := |es| - 1;
      RunStaysInStep(l, I, es[..k]);
      var before := After(l, es[..k]);
      TrackStep(before, Tracked(l, I, es[..k]), es[k]);
      CountOneMore(before.rx.cnt, After(l, es).rx.cnt, l.rx.cnt + Refreshed(l, es[..k]), Refreshes(before, es[k]));
    }
  }

  lemma NextKeepsLru(l: Link, e: Event)
    requires l.Good() && FedOne(e) && VjLru.LruInvariant(l.tx)
    ensures VjLru.LruInvariant(Next(l, e).tx)
  {
    hide VjLru.LruInvariant, File, Segment, CodeIn, Receive;
    NextFiles(l, e);
    if Compressible(e.p) {
      VjLru.FilePreservesLru(l.tx, e.p);
    }
  }

  /** No two used transmit slots share a conversation, in every run. */
  lemma {:induction false} RunKeepsLru(l: Link, es: seq<Event>)
    requires l.Good() && Fed(es) && VjLru.LruInvariant(l.tx)
    ensures VjLru.LruInvariant(After(l, es).tx)
  {
    hide VjLru.LruInvariant, Next, Compress, Compressible, File;
    if es != [] {
      var k := |es| - 1;
      RunKeepsLru(l, es[..k]);
      NextKeepsLru(After(l, es[..k]), es[k]);
    }
  }

  /** The outcome of every packet of every run from initialisation, whatever was lost before it. If every
      loss was reported, a frame that is accepted is applied to its own slot. */
  lemma OutcomeExact(es: seq<Event>, k: nat)
    requires Fed(es) && k < |es| && es[k].fate.Arrived?
    ensures var l := After(Start(), es[..k]);
            Outcome(l, Tracked(Start(), {}, es[..k]), es[k], Output(Start(), es, k))
            && (Noticed(es[..k]) && Codes(l, es[k]) && Accepted(l, es[k]) ==> Target(l, es[k]) == Slot(l, es[k]))
  {
    hide Track, CodeIn, Refreshed, Accepted, FedOne, Target, Slot, Start, Receive, InStep, Outcome, Aligned;
    hide VjLru.LruInvariant, After, Tracked;
    var l, I := After(Start(), es[..k]), Tracked(Start(), {}, es[..k]);
    StartInStep();
    StartLru();
    RunStaysInStep(Start(), {}, es[..k]);
    RunKeepsLru(Start(), es[..k]);
    OutcomeStep(l, I, es[k]);
    if Noticed(es[..k]) && Codes(l, es[k]) && Accepted(l, es[k]) {
      AlignedTarget(l, es[k]);
    }
  }

  // ---- no loss at all ----

  /** What decides, at the sender, whether packet `e` will come back: it is not coded, or the count of
      uncompressed packets is not a multiple of 256 and the coding carries all of the packet. */
  ghost predicate WillReturn(l: Link, sent: nat, e: Event)
    requires l.Good() && FedOne(e)
  {
    Codes(l, e) ==> sent % 0x100 != 0 && FaithfulIn(l.tx, e.p)
  }

  ghost predicate ReturnsAt(es: seq<Event>, k: nat)
    requires Fed(es) && k < |es|
  {
    WillReturn(After(Start(), es[..k]), Refreshed(Start(), es[..k]), es[k])
  }

  ghost predicate AllWillReturn(es: seq<Event>)
    requires Fed(es)
  {
    forall k :: 0 <= k < |es| ==> ReturnsAt(es, k)
  }

  lemma AllWillReturnPrefix(es: seq<Event>, n: nat)
    requires Fed(es) && n <= |es| && forall k :: 0 <= k < n ==> ReturnsAt(es, k)
    ensures AllWillReturn(es[..n])
  {
    hide After, Refreshed, WillReturn;
    forall k | 0 <= k < n ensures ReturnsAt(es[..n], k) {
      assert ReturnsAt(es, k);
      assert es[..n][..k] == es[..k];
    }
  }

  /** Filing a packet makes its slot a used one. */
  lemma UsedAfterFile(tx: Tx, p: seq<byte>)
    requires TxGood(tx) && HasTcp(p) && Segment(p)
    ensures File(tx, p).Valid() && UsedSlots(File(tx, p)) == UsedSlots(tx) + {SlotFor(tx, p)}
  {
    hide Segment, SlotFor, Overwrite, ToFront, HeaderLen, Used;
    FileGood(tx, p);
    OverwriteSegment(tx.hdrs[SlotFor(tx, p)], p);
  }

  /** The two ends hold the same header in every slot that was ever used, the same last connection, and
      the receiver is not tossing. */
  ghost predicate FullSync(l: Link)
    requires l.Good()
  {
    InStep(l.tx, l.rx, UsedSlots(l.tx)) && l.rx.lastRecv == l.tx.lastXmit && !l.rx.toss
  }

  lemma CodedIsUsed(l: Link, e: Event)
    requires l.Good() && FedOne(e) && Codes(l, e)
    ensures Slot(l, e) in UsedSlots(l.tx)
  {
    CodedSlot(l.tx, e.p);
  }

  lemma PassesBy(l: Link, e: Event)
    requires l.Good() && FedOne(e) && !Compressible(e.p) && e.fate.Arrived?
    ensures Receive(l, e).rx == l.rx
  {
    PlainIpStep(l.tx, l.rx, e.p, e.cid, e.slack);
  }

  lemma FullSyncStep(l: Link, e: Event)
    requires l.Good() && FedOne(e) && FullSync(l) && e.fate.Arrived?
    requires Codes(l, e) ==> l.rx.cnt != 0 && FaithfulIn(l.tx, e.p)
    ensures FullSync(Next(l, e)) && Receive(l, e).packet == Some(e.p)
    ensures Next(l, e).rx.cnt == if Refreshes(l, e) then (l.rx.cnt + 1) % 0x100 else l.rx.cnt
  {
    hide InStep, Receive, UsedSlots, CodeIn, FaithfulIn, Segment, SlotFor, HasTcp, Unfragmented, PlainAck;
    TrackStep(l, UsedSlots(l.tx), e);
    if !Compressible(e.p) {
      NextFiles(l, e);
      PassesBy(l, e);
    } else {
      UsedAfterFile(l.tx, e.p);
      NextFiles(l, e);
      if Codes(l, e) {
        CodedIsUsed(l, e);
        AlignedTarget(l, e);
        assert UsedSlots(l.tx) + {Slot(l, e)} == UsedSlots(l.tx);
      }
    }
  }

  lemma StartFullSync()
    ensures FullSync(Start()) && Start().rx.cnt == 0
  {
    hide InStep;
    StartInStep();
  }

  /** While every packet so far was one that returns, the two ends agree on every used slot. */
  lemma {:induction false} FullSyncInvariant(es: seq<Event>)
    requires Fed(es) && Lossless(es) && AllWillReturn(es)
    ensures FullSync(After(Start(), es))
    ensures After(Start(), es).rx.cnt == Refreshed(Start(), es) % 0x100
  {
    hide FullSync, Next, Codes, Refreshes, FaithfulIn, FedOne, Start;
    StartFullSync();
    if es != [] {
      var k := |es| - 1;
      AllWillReturnPrefix(es, k);
      FullSyncInvariant(es[..k]);
      var l := After(Start(), es[..k]);
      assert ReturnsAt(es, k);
      FullSyncStep(l, es[k]);
      CountOneMore(l.rx.cnt, After(Start(), es).rx.cnt, Refreshed(Start(), es[..k]), Refreshes(l, es[k]));
    }
  }

  /** In full step, a packet comes back octet for octet exactly when the sender can tell that it will. */
  lemma StepExact(l: Link, sent: nat, e: Event)
    requires l.Good() && FedOne(e) && FullSync(l) && e.fate.Arrived? && l.rx.cnt == sent % 0x100
    ensures Receive(l, e).packet == Some(e.p) <==> WillReturn(l, sent, e)
  {
    hide InStep, UsedSlots, CodeIn, FaithfulIn, Segment, SlotFor, HasTcp, Unfragmented, PlainAck;
    TrackStep(l, UsedSlots(l.tx), e);
    if Codes(l, e) {
      CodedIsUsed(l, e);
      if l.rx.cnt != 0 {
        AlignedTarget(l, e);
      }
    }
  }

  lemma OutputExact(es: seq<Event>, k: nat)
    requires Fed(es) && Lossless(es) && k < |es| && AllWillReturn(es[..k])
    ensures Output(Start(), es, k) == Some(es[k].p) <==> ReturnsAt(es, k)
  {
    hide FullSync, After, Refreshed, WillReturn, FedOne, AllWillReturn, Receive;
    FullSyncInvariant(es[..k]);
    StepExact(After(Start(), es[..k]), Refreshed(Start(), es[..k]), es[k]);
  }

  /** The first packet that will not return, if there is one. */
  lemma FirstFailure(es: seq<Event>, n: nat) returns (k: nat)
    requires Fed(es) && n < |es| && !ReturnsAt(es, n)
    ensures k <= n && !ReturnsAt(es, k)
    ensures forall j :: 0 <= j < k ==> ReturnsAt(es, j)
  {
    hide ReturnsAt, FedOne;
    if j: nat :| j < n && !ReturnsAt(es, j) {
      k := FirstFailure(es, j);
    } else {
      k := n;
    }
  }

  /** The law of the line: a run without loss returns every packet octet for octet exactly when every
      packet is one that the sender can tell will return. */
  lemma RoundTripExact(es: seq<Event>)
    requires Fed(es) && Lossless(es)
    ensures (forall k :: 0 <= k < |es| ==> Output(Start(), es, k) == Some(es[k].p)) <==> AllWillReturn(es)
  {
    hide ReturnsAt, FedOne, Output;
    if AllWillReturn(es) {
      forall k | 0 <= k < |es| ensures Output(Start(), es, k) == Some(es[k].p) {
        AllWillReturnPrefix(es, k);
        OutputExact(es, k);
      }
    } else {
      var n: nat :| n < |es| && !ReturnsAt(es, n);
      var k := FirstFailure(es, n);
      AllWillReturnPrefix(es, k);
      OutputExact(es, k);
    }
  }

  // ---- resynchronisation ----

  /** Packet `k` belongs to the conversation filed in slot `i`. */
  ghost predicate FiledIn(l: Link, es: seq<Event>, i: nat, k: nat)
    requires l.Good() && Fed(es) && k < |es|
  {
    Compressible(es[k].p) && Slot(After(l, es[..k]), es[k]) == i
  }

  /** Its frame arrives, and if it is a compressed one, it is accepted and carries the packet in full. */
  ghost predicate Intact(l: Link, e: Event)
    requires l.Good() && FedOne(e)
  {
    e.fate.Arrived? && (Codes(l, e) ==> Accepted(l, e) && FaithfulIn(l.tx, e.p))
  }

  /** Packet `k`, if it is filed in slot `i`, arrives intact. */
  ghost predicate IntactAt(l: Link, es: seq<Event>, i: nat, k: nat)
    requires l.Good() && Fed(es) && k < |es|
  {
    FiledIn(l, es, i, k) ==> Intact(After(l, es[..k]), es[k])
  }

  ghost predicate AllIntact(l: Link, es: seq<Event>, i: nat)
    requires l.Good() && Fed(es)
  {
    forall k :: 0 <= k < |es| ==> IntactAt(l, es, i, k)
  }

  lemma AllIntactPrefix(l: Link, es: seq<Event>, i: nat, n: nat)
    requires l.Good() && Fed(es) && n <= |es| && forall k :: 0 <= k < n ==> IntactAt(l, es, i, k)
    ensures AllIntact(l, es[..n], i)
  {
    hide After, Intact, Slot, FedOne;
    forall k | 0 <= k < n ensures IntactAt(l, es[..n], i, k) {
      assert IntactAt(l, es, i, k);
      assert es[..n][..k] == es[..k];
    }
  }

  lemma {:induction false} SlotStaysInStep(l: Link, I: set<nat>, es: seq<Event>, i: nat)
    requires l.Good() && Fed(es) && Noticed(es) && InStep(l.tx, l.rx, I) && Aligned(l.tx, l.rx) && i in I
    requires AllIntact(l, es, i)
    ensures i in Tracked(l, I, es)
  {
    hide InStep, Aligned, Next, Receive, FedOne, FaithfulIn, CodeIn, Compressible, SlotFor;
    if es != [] {
      var k := |es| - 1;
      AllIntactPrefix(l, es, i, k);
      SlotStaysInStep(l, I, es[..k], i);
      RunStaysInStep(l, I, es[..k]);
      assert IntactAt(l, es, i, k);
      var before := After(l, es[..k]);
      if Codes(before, es[k]) && Accepted(before, es[k]) {
        AlignedTarget(before, es[k]);
      }
    }
  }

  /** On a slot in step, with every loss reported, a packet comes back exactly if it arrives intact. */
  lemma SlotExact(l: Link, I: set<nat>, es: seq<Event>, i: nat, k: nat)
    requires l.Good() && Fed(es) && Noticed(es) && InStep(l.tx, l.rx, I) && Aligned(l.tx, l.rx) && i in I
    requires k < |es| && FiledIn(l, es, i, k) && AllIntact(l, es[..k], i)
    ensures Output(l, es, k) == Some(es[k].p) <==> IntactAt(l, es, i, k)
  {
    hide InStep, Aligned, Receive, FedOne, FaithfulIn, CodeIn, Tracked, Refreshed, After;
    SlotStaysInStep(l, I, es[..k], i);
    RunStaysInStep(l, I, es[..k]);
    var before := After(l, es[..k]);
    TrackStep(before, Tracked(l, I, es[..k]), es[k]);
    if Codes(before, es[k]) && Accepted(before, es[k]) {
      AlignedTarget(before, es[k]);
    }
  }

  /** The first packet of slot `i` that does not arrive intact, if there is one. */
  lemma FirstBroken(l: Link, es: seq<Event>, i: nat, n: nat) returns (k: nat)
    requires l.Good() && Fed(es) && n < |es| && !IntactAt(l, es, i, n)
    ensures k <= n && !IntactAt(l, es, i, k)
    ensures forall j :: 0 <= j < k ==> IntactAt(l, es, i, j)
  {
    hide IntactAt, FedOne;
    if j: nat :| j < n && !IntactAt(l, es, i, j) {
      k := FirstBroken(l, es, i, j);
    } else {
      k := n;
    }
  }

  /** All packets filed in slot `i` come back octet for octet. */
  ghost predicate AllReturned(l: Link, es: seq<Event>, i: nat)
    requires l.Good() && Fed(es)
  {
    forall k :: 0 <= k < |es| && FiledIn(l, es, i, k) ==> Output(l, es, k) == Some(es[k].p)
  }

  lemma BrokenIsFiled(l: Link, es: seq<Event>, i: nat, k: nat)
    requires l.Good() && Fed(es) && k < |es| && !IntactAt(l, es, i, k)
    ensures FiledIn(l, es, i, k)
  {
    hide Intact, After, FiledIn, FedOne;
  }

  lemma NothingInStep(l: Link)
    requires l.Good()
    ensures InStep(l.tx, l.rx, {})
  {
  }

  /** Resynchronisation: whatever state the receiver is in after any losses, noticed or not, one
      uncompressed frame that arrives puts its slot back in step. From then on, as long as losses are
      reported, the packets on that slot all come back exactly if and only if they all arrive intact,
      however far out of step the other slots are and whatever is lost there. */
  lemma Resynchronised(l: Link, e: Event, es: seq<Event>)
    requires l.Good() && FedOne(e) && Refreshes(l, e) && Fed(es) && Noticed(es)
    ensures Receive(l, e).packet == Some(e.p)
    ensures AllReturned(Next(l, e), es, Slot(l, e)) <==> AllIntact(Next(l, e), es, Slot(l, e))
  {
    hide InStep, CodeIn, Compressible, SlotFor, Receive, IntactAt, FiledIn, Output, FedOne;
    NothingInStep(l);
    TrackStep(l, {}, e);
    var l', i := Next(l, e), Slot(l, e);
    var I := Track(l, {}, e);
    if AllIntact(l', es, i) {
      forall k | 0 <= k < |es| && FiledIn(l', es, i, k) ensures Output(l', es, k) == Some(es[k].p) {
        AllIntactPrefix(l', es, i, k);
        SlotExact(l', I, es, i, k);
      }
    } else {
      var n: nat :| n < |es| && !IntactAt(l', es, i, n);
      var k := FirstBroken(l', es, i, n);
      BrokenIsFiled(l', es, i, k);
      AllIntactPrefix(l', es, i, k);
      SlotExact(l', I, es, i, k);
    }
  }

  // ---- a loss that nobody reports ----

  /** The connection last sent for is one that was used. */
  ghost predicate LastUsed(tx: Tx)
    requires tx.Valid()
  {
    tx.lastXmit < MAX_STATES ==> tx.lastXmit in UsedSlots(tx)
  }

  lemma FileLastUsed(tx: Tx, p: seq<byte>)
    requires TxGood(tx) && HasTcp(p) && Segment(p)
    ensures File(tx, p).Valid() && LastUsed(File(tx, p))
  {
    hide Segment, SlotFor, Overwrite, ToFront, HeaderLen, Used;
    UsedAfterFile(tx, p);
  }

  lemma {:induction false} RunLastUsed(es: seq<Event>)
    requires Fed(es)
    ensures LastUsed(After(Start(), es).tx)
  {
    hide Next, File, Compressible, UsedSlots;
    if es != [] {
      var k := |es| - 1;
      RunLastUsed(es[..k]);
      var before := After(Start(), es[..k]);
      NextFiles(before, es[k]);
      if Compressible(es[k].p) {
        FileLastUsed(before.tx, es[k].p);
      }
    }
  }

  /** The frame of `f` is lost unnoticed, and the next packet of its conversation is coded and sent without
      its connection id, while the last frame before was for another conversation. */
  ghost predicate SilentLoss(l: Link, f: Event, e: Event)
    requires l.Good() && FedOne(f) && FedOne(e)
  {
    && f.fate.Unnoticed? && Compressible(f.p) && Slot(l, f) != l.tx.lastXmit < MAX_STATES
    && e.fate.Arrived? && e.cid && Codes(Next(l, f), e) && Slot(Next(l, f), e) == Slot(l, f)
  }

  lemma UnnoticedLeaves(l: Link, f: Event)
    requires l.Good() && FedOne(f) && f.fate.Unnoticed? && Compressible(f.p)
    ensures Receive(l, f).rx == l.rx && Next(l, f).rx == l.rx
    ensures Next(l, f).tx.lastXmit == Slot(l, f)
    ensures forall j :: 0 <= j < MAX_STATES && j != Slot(l, f) ==> Next(l, f).tx.hdrs[j] == l.tx.hdrs[j]
  {
    hide Segment, SlotFor, ToFront, HeaderLen, Overwrite, CodeIn;
    NextFiles(l, f);
  }

  lemma SilentStep(l: Link, f: Event, e: Event)
    requires l.Good() && FedOne(f) && FedOne(e) && FullSync(l) && LastUsed(l.tx) && VjLru.LruInvariant(l.tx)
    requires SilentLoss(l, f, e) && l.rx.cnt != 0
    ensures var out := Receive(Next(l, f), e).packet;
            && out != Some(e.p) && (out.Some? <==> ShortEnough(l.rx, l.tx.lastXmit, e.p))
            && (out.Some? ==> OfSlot(out.value, l.tx, l.tx.lastXmit))
  {
    hide InStep, CodeIn, Receive, Compressible, SlotFor, Key, UsedSlots, VjLru.LruInvariant, HeaderLen;
    NextKeepsLru(l, f);
    TrackStep(l, UsedSlots(l.tx), f);
    UnnoticedLeaves(l, f);
    MisroutedTo(Next(l, f), UsedSlots(l.tx) - {Slot(l, f)}, e);
    TrackStep(Next(l, f), UsedSlots(l.tx) - {Slot(l, f)}, e);
  }

  /** The last packet of a run, by way of the two states before it. */
  lemma OutputAfter(es: seq<Event>, f: Event, e: Event)
    requires Fed(es) && FedOne(f) && FedOne(e) && Fed(es + [f, e])
    ensures Output(Start(), es + [f, e], |es| + 1) == Receive(Next(After(Start(), es), f), e).packet
  {
    hide Next, Receive, FedOne, Start;
    var fs := es + [f];
    assert (es + [f, e])[..|es| + 1] == fs && fs[..|es|] == es;
    assert Fed(fs) && After(Start(), fs) == Next(After(Start(), es), f);
  }

  /** What an unnoticed loss does, after any run in full step: if the lost frame was for another
      conversation than the one before it, its successor is applied to the slot of that other one. It does
      not come back, and what is handed on instead, unless it is too long, belongs to that other one. */
  lemma SilentLossMisroutes(es: seq<Event>, f: Event, e: Event)
    requires Fed(es) && FedOne(f) && FedOne(e) && Fed(es + [f, e]) && Lossless(es) && AllWillReturn(es)
    requires SilentLoss(After(Start(), es), f, e) && Refreshed(Start(), es) % 0x100 != 0
    ensures var l := After(Start(), es);
            var out := Output(Start(), es + [f, e], |es| + 1);
            && out != Some(e.p) && (out.Some? <==> ShortEnough(l.rx, l.tx.lastXmit, e.p))
            && (out.Some? ==> OfSlot(out.value, l.tx, l.tx.lastXmit))
  {
    hide FedOne, Receive, LastUsed, FullSync, VjLru.LruInvariant, AllWillReturn, OfSlot, SilentLoss, Next, Start;
    hide ShortEnough, Output, Fed, After, Refreshed;
    FullSyncInvariant(es);
    RunLastUsed(es);
    StartLru();
    RunKeepsLru(Start(), es);
    SilentStep(After(Start(), es), f, e);
    OutputAfter(es, f, e);
  }

  /** The lost frame was for the same conversation as the last frame before. */
  ghost predicate SilentLossAtHome(l: Link, f: Event, e: Event)
    requires l.Good() && FedOne(f) && FedOne(e)
  {
    && f.fate.Unnoticed? && Codes(l, f) && Slot(l, f) == l.tx.lastXmit
    && e.fate.Arrived? && e.cid && Codes(Next(l, f), e) && Slot(Next(l, f), e) == Slot(l, f)
  }

  /** The receive slot still has the header from before `f`, and `e` comes back if and only if it is canonical
      and that header fits all the same; which it does not if `f` had an IP id of its own. */
  ghost predicate BackIfFitting(l: Link, f: Event, e: Event, out: Option<seq<byte>>)
    requires l.Good() && FedOne(f) && FedOne(e) && SilentLossAtHome(l, f, e)
  {
    var i := Slot(l, f);
    && Used(l.tx.hdrs[i]) && Agrees(l.tx.hdrs[i], l.rx.slots[i])
    && (out == Some(e.p) <==> Canonical(e.p) && FitsIn(l.rx.slots[i], Next(l, f).tx, e.p))
    && (IpId(f.p) != IpId(l.tx.hdrs[i]) ==> out != Some(e.p))
  }

  lemma AgreedId(t: Header, s: VjUncompress.Saved)
    requires Segment(t) && Agrees(t, s)
    ensures U16(s.hdr, 4) == IpId(t)
  {
  }

  lemma SavedId(l: Link, f: Event)
    requires l.Good() && FedOne(f) && Codes(l, f)
    ensures Used(l.tx.hdrs[Slot(l, f)]) && HasTcp(f.p)
    ensures IpId(Next(l, f).tx.hdrs[Slot(l, f)]) == IpId(f.p)
  {
    hide SlotFor, CodeIn, Key, ToFront, CodedAs, Receive, Used;
    NextFiles(l, f);
    CodedSlot(l.tx, f.p);
  }

  lemma FittingId(s: VjUncompress.Saved, tx: Tx, p: seq<byte>)
    requires TxGood(tx) && Segment(p) && CodeIn(tx, p).Coded?
    ensures FitsIn(s, tx, p) ==> U16(s.hdr, 4) == IpId(tx.hdrs[SlotFor(tx, p)])
  {
    hide CodeIn, SlotFor, TcpLevel, Segment;
  }

  lemma InStepAt(tx: Tx, rx: VjUncompress.Rx, I: set<nat>, i: nat)
    requires InStep(tx, rx, I) && i in I
    ensures i < MAX_STATES && Agrees(tx.hdrs[i], rx.slots[i])
  {
    hide Agrees;
  }

  lemma DriftStep(l: Link, f: Event, e: Event)
    requires l.Good() && FedOne(f) && FedOne(e) && FullSync(l) && SilentLossAtHome(l, f, e) && l.rx.cnt != 0
    ensures BackIfFitting(l, f, e, Receive(Next(l, f), e).packet)
  {
    hide InStep, Receive, CodeIn, Compressible, SlotFor, UsedSlots, Canonical, FitsIn, Used, Segment, Agrees, IpId;
    CodedIsUsed(l, f);
    InStepAt(l.tx, l.rx, UsedSlots(l.tx), Slot(l, f));
    TrackStep(l, UsedSlots(l.tx), f);
    UnnoticedLeaves(l, f);
    TrackStep(Next(l, f), Track(l, UsedSlots(l.tx), f), e);
    SavedId(l, f);
    AgreedId(l.tx.hdrs[Slot(l, f)], l.rx.slots[Slot(l, f)]);
    FittingId(l.rx.slots[Slot(l, f)], Next(l, f).tx, e.p);
  }

  /** And where it was for the same conversation: the successor is applied to the right slot, but that still
      holds the header from before the lost frame, and only if that fits does it come back. */
  lemma SilentLossDrifts(es: seq<Event>, f: Event, e: Event)
    requires Fed(es) && FedOne(f) && FedOne(e) && Fed(es + [f, e]) && Lossless(es) && AllWillReturn(es)
    requires SilentLossAtHome(After(Start(), es), f, e) && Refreshed(Start(), es) % 0x100 != 0
    ensures BackIfFitting(After(Start(), es), f, e, Output(Start(), es + [f, e], |es| + 1))
  {
    hide FedOne, Receive, FullSync, AllWillReturn, SilentLossAtHome, BackIfFitting, Next, Start;
    hide Output, Fed, After, Refreshed;
    FullSyncInvariant(es);
    DriftStep(After(Start(), es), f, e);
    OutputAfter(es, f, e);
  }
}
