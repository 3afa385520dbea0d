/** What holds of the decompressor whatever frames arrive. */
module VjReceiver {
  import opened Bytes
  import opened Checksum
  import opened VjDelta
  import opened VjHeader
  import opened VjUncompress

  /** The octets a compressed packet may touch in a header whose TCP part is at `o`, before the length. */
  predicate Written(o: nat, k: nat) {
    4 <= k < 6 || o + 4 <= k < o + 12 || o + 13 <= k < o + 20
  }

  lemma FixTcpFrame(hlen: nat, o: nat, m: Mask, c: Cursor, k: nat)
    requires o + 20 <= MAX_HDR && |c.rest| >= 15 && k < MAX_HDR && !(o + 4 <= k < o + 12) && !(o + 13 <= k < o + 20)
    ensures FixTcp(hlen, o, m, c).h[k] == c.h[k]
  {
    if !IsSpecial(m) {
      var u := DecodeUrgent(m.u, c, o);
      assert u.h[k] == c.h[k];
      var w := DecodeShort(m.w, u, o + 14);
      assert w.h[k] == u.h[k];
      var a := DecodeLong(m.a, w, o + 8);
      assert a.h[k] == w.h[k];
    }
  }

  /** The TCP changes leave the IP id alone. */
  lemma FixTcpIdFrame(hlen: nat, o: nat, m: Mask, c: Cursor)
    requires 20 <= o && o + 20 <= MAX_HDR && |c.rest| >= 15
    ensures U16(FixTcp(hlen, o, m, c).h, 4) == U16(c.h, 4)
  {
    hide FixTcp;
    FixTcpFrame(hlen, o, m, c, 4);
    FixTcpFrame(hlen, o, m, c, 5);
  }

  lemma PatchFrame(slot: Saved, m: Mask, s: seq<byte>, k: nat)
    requires |s| >= 20 && k < MAX_HDR && !Written(TcpAt(slot.hdr), k)
    ensures Patch(slot, m, s).h[k] == slot.hdr[k]
  {
    var o := TcpAt(slot.hdr);
    var c := Cursor(Begin(slot.hdr, o, m, U16(s, 0)), s[2..]);
    FixTcpFrame(slot.hlen, o, m, c, k);
  }

  lemma PatchedSlotValid(slot: Saved, m: Mask, s: seq<byte>)
    requires slot.Valid() && |s| >= 20
    ensures slot.(hdr := Patch(slot, m, s).h).Valid()
    ensures TcpAt(Patch(slot, m, s).h) == TcpAt(slot.hdr)
  {
    PatchFrame(slot, m, s, 0);
    if slot.hdr[0] % 16 >= 5 {
      PatchFrame(slot, m, s, 10);
      PatchFrame(slot, m, s, 11);
    }
  }

  lemma RestoreWhole(slot: Saved, h: Header, rest: seq<byte>, left: nat)
    requires slot.Valid() && TcpAt(slot.hdr) <= slot.hlen && left <= |rest| && |rest| >= 60
    ensures Restore(slot, h, rest, left) == Assemble(h, slot.hlen, TcpAt(slot.hdr), rest[..left])
  {
  }

  lemma RestoreBare(slot: Saved, h: Header, rest: seq<byte>, left: nat)
    requires slot.Valid() && TcpAt(slot.hdr) > slot.hlen && left <= |rest| && |rest| >= 60
    ensures Restore(slot, h, rest, left) == StampSum(rest[..left], ChecksumOf(rest[..TcpAt(slot.hdr)]))
  {
    hide WordSum, Fold, FoldTwice, StampSum;
    WordSumBound(rest[..TcpAt(slot.hdr)]);
    TwoFoldsSuffice(WordSum(rest[..TcpAt(slot.hdr)]));
  }

  /** The three ways a compressed packet can end. */
  lemma FinishCases(rx: Rx, c: Cursor, left: int)
    requires rx.Valid() && rx.lastRecv < MAX_STATES && left <= |c.rest| && |c.rest| >= 60
    ensures var slot := rx.slots[rx.lastRecv];
            var patched := rx.(slots := rx.slots[rx.lastRecv := slot.(hdr := c.h)]);
            && (left < 0 ==> Finish(rx, c, left) == Received(patched.(toss := true), None))
            && (left >= 0 && left + slot.hlen > 1520 ==> Finish(rx, c, left) == Received(patched, None))
            && (left >= 0 && left + slot.hlen <= 1520 ==>
                  var h := Put16(c.h, 2, left + slot.hlen);
                  Finish(rx, c, left) == Received(rx.(slots := rx.slots[rx.lastRecv := slot.(hdr := h)]),
                                                  Some(Restore(slot, h, c.rest, left))))
  {
    hide Restore;
  }

  lemma FinishInvariant(rx: Rx, c: Cursor, left: int)
    requires rx.Valid() && rx.lastRecv < MAX_STATES && left <= |c.rest| && |c.rest| >= 60
    requires rx.slots[rx.lastRecv].(hdr := c.h).Valid()
    ensures var r := Finish(rx, c, left).rx;
            && r.Valid() && r.lastRecv == rx.lastRecv && r.cnt == rx.cnt
            && r.toss == (rx.toss || left < 0)
            && (forall j :: 0 <= j < MAX_STATES && j != rx.lastRecv ==> r.slots[j] == rx.slots[j])
  {
  }

  lemma RefreshValid(rx: Rx, mem: seq<byte>, len: nat)
    requires rx.Valid() && len <= |mem| && |mem| >= MAX_HDR
    ensures Refresh(rx, mem, len).rx.Valid()
  {
    var m := mem[9 := IPPROTO_TCP];
    assert HeaderLen(m) > 0 ==> m[..HeaderLen(m)][0] == m[0];
  }

  lemma RebuildInvariant(rx: Rx, m: Mask, mem: seq<byte>, len: nat, at: nat)
    requires rx.Valid() && rx.lastRecv < MAX_STATES && len <= |mem| && at <= 2 && |mem| >= MAX_HDR
    ensures var r := Rebuild(rx, m, mem, len, at).rx;
            && r.Valid() && r.lastRecv == rx.lastRecv && r.cnt == rx.cnt
            && (forall j :: 0 <= j < MAX_STATES && j != rx.lastRecv ==> r.slots[j] == rx.slots[j])
  {
    var slot := rx.slots[rx.lastRecv];
    var c := Patch(slot, m, mem[at..]);
    PatchedSlotValid(slot, m, mem[at..]);
    FinishInvariant(rx, c, len - (|mem| - |c.rest|));
  }

  /** The receive state stays well formed: header lengths are bounded by 120, and the checksum
      field of every saved IP header stays zero. Only the slot named by `last_recv` changes. */
  lemma ReceiverInvariant(rx: Rx, kind: byte, mem: seq<byte>, len: nat)
    requires rx.Valid() && Readable(mem, len)
    ensures var r := Uncompress(rx, kind, mem, len).rx;
            && r.Valid() && (forall j :: 0 <= j < MAX_STATES && j != r.lastRecv ==> r.slots[j] == rx.slots[j])
  {
    if kind == TYPE_UNCOMPRESSED_TCP {
      RefreshValid(rx, mem, len);
    } else if kind == TYPE_COMPRESSED_TCP && rx.cnt != 0 {
      var m := MaskOf(mem[0]);
      if m.c && mem[1] < MAX_STATES {
        RebuildInvariant(rx.(lastRecv := mem[1], toss := false), m, mem, len, 2);
      } else if !m.c && !rx.toss && rx.lastRecv < MAX_STATES {
        RebuildInvariant(rx, m, mem, len, 1);
      }
    }
  }

  /** The header check of Analyze_Info_IP, and the length it then relies on. */
  predicate PassesHeaderCheck(out: seq<byte>) {
    && |out| >= 20 && |out| >= TcpAt(out) >= 20 && U16(out, 2) == |out|
    && ChecksumOf(out[..TcpAt(out)]) == 0
  }

  lemma AssembledSum(h: Header, hlen: nat, o: nat, data: seq<byte>)
    requires o <= hlen <= 120
    ensures Assemble(h, hlen, o, data) == StampSum(h[..hlen] + data, ChecksumOf(h[..o]))
  {
    hide WordSum, Fold, FoldTwice, StampSum;
    WordSumBound(h[..o]);
    TwoFoldsSuffice(WordSum(h[..o]));
  }

  lemma AssembledBytes(h: Header, hlen: nat, o: nat, data: seq<byte>)
    requires 20 <= o <= hlen <= 120
    ensures var out := Assemble(h, hlen, o, data);
            var sum := ChecksumOf(h[..o]);
            && |out| == hlen + |data| && out[10] == sum % 0x100 && out[11] == sum / 0x100
            && (forall k :: 0 <= k < hlen && k != 10 && k != 11 ==> out[k] == h[k])
            && (forall k :: hlen <= k < |out| ==> out[k] == data[k - hlen])
  {
    AssembledSum(h, hlen, o, data);
    hide ChecksumOf, Assemble;
    var sum := ChecksumOf(h[..o]);
    var out := Assemble(h, hlen, o, data);
    assert out == StampSum(h[..hlen] + data, sum);
  }

  lemma AssembledVerifies(h: Header, hlen: nat, o: nat, data: seq<byte>)
    requires o <= hlen <= 120 && o == TcpAt(h) >= 20 && Field(h, 10) == 0
    ensures var out := Assemble(h, hlen, o, data);
            && |out| == hlen + |data| && ChecksumOf(out[..o]) == 0
            && out[0] == h[0] && U16(out, 2) == U16(h, 2)
  {
    var out := Assemble(h, hlen, o, data);
    var ip := h[..o];
    AssembledBytes(h, hlen, o, data);
    assert out[..o] == Store(ip, 10, ChecksumOf(ip));
    assert out[0] == out[..o][0] && out[2] == out[..o][2] && out[3] == out[..o][3];
    assert ip[0] > 0 && Field(ip, 10) == 0;
    StoredChecksumVerifies(ip, 10);
  }

  lemma FinishedVerifies(rx: Rx, c: Cursor, left: int)
    requires rx.Valid() && rx.lastRecv < MAX_STATES && left <= |c.rest| && |c.rest| >= 60
    requires rx.slots[rx.lastRecv].(hdr := c.h).Valid()
    requires TcpAt(c.h) == TcpAt(rx.slots[rx.lastRecv].hdr) >= 20 && rx.slots[rx.lastRecv].Whole()
    requires Finish(rx, c, left).packet.Some?
    ensures PassesHeaderCheck(Finish(rx, c, left).packet.value)
  {
    var slot := rx.slots[rx.lastRecv];
    AssembledVerifies(Put16(c.h, 2, left + slot.hlen), slot.hlen, TcpAt(slot.hdr), c.rest[..left]);
  }

  /** What an accepted compressed packet yields: a packet whose length field is its length and whose
      IP header sums to zero, as `CheckSum` has it. */
  lemma RebuiltVerifies(rx: Rx, m: Mask, mem: seq<byte>, len: nat, at: nat)
    requires rx.Valid() && rx.lastRecv < MAX_STATES && len <= |mem| && at <= 2 && |mem| >= MAX_HDR
    requires rx.slots[rx.lastRecv].hdr[0] % 16 >= 5 && rx.slots[rx.lastRecv].Whole()
    requires Rebuild(rx, m, mem, len, at).packet.Some?
    ensures PassesHeaderCheck(Rebuild(rx, m, mem, len, at).packet.value)
  {
    var slot := rx.slots[rx.lastRecv];
    var c := Patch(slot, m, mem[at..]);
    PatchedSlotValid(slot, m, mem[at..]);
    FinishedVerifies(rx, c, len - (|mem| - |c.rest|));
  }

  /** Nothing the decompressor does changes the conversation a slot is saved for: what it rebuilds there
      has the addresses and ports of the slot. */
  lemma RebuiltKey(rx: Rx, m: Mask, mem: seq<byte>, len: nat, at: nat)
    requires rx.Valid() && rx.lastRecv < MAX_STATES && len <= |mem| && at <= 2 && |mem| >= MAX_HDR
    requires var slot := rx.slots[rx.lastRecv]; slot.hdr[0] % 16 >= 5 && TcpAt(slot.hdr) + 20 <= slot.hlen
    requires Rebuild(rx, m, mem, len, at).packet.Some?
    ensures var out := Rebuild(rx, m, mem, len, at).packet.value;
            HasTcp(out) && Key(out) == Key(rx.slots[rx.lastRecv].hdr)
  {
    hide Patch, Finish, Assemble, Put16;
    var slot := rx.slots[rx.lastRecv];
    var o := TcpAt(slot.hdr);
    var c := Patch(slot, m, mem[at..]);
    var left := len - (|mem| - |c.rest|);
    FinishCases(rx, c, left);
    var h := Put16(c.h, 2, left + slot.hlen);
    forall k | k == 0 || 12 <= k < 20 || o <= k < o + 4 ensures h[k] == slot.hdr[k] {
      PatchFrame(slot, m, mem[at..], k);
    }
    AssembledBytes(h, slot.hlen, o, c.rest[..left]);
  }

  /** One coded number, if it is there at all. */
  function Skip(on: bool, s: seq<byte>): (r: seq<byte>)
    requires |s| >= 3
    ensures |r| <= |s| <= |r| + 3
  {
    if on then Decode(s).1 else s
  }

  /** What is left after the coded changes. */
  function Tail(m: Mask, s: seq<byte>): (r: seq<byte>)
    requires |s| >= 15
    ensures |r| <= |s| <= |r| + 12
  {
    if IsSpecial(m) then Skip(m.i, s)
    else Skip(m.i, Skip(m.s, Skip(m.a, Skip(m.w, Skip(m.u, s)))))
  }

  /** How many octets the decompressor reads, from the frame alone. */
  function Span(m: Mask, mem: seq<byte>, at: nat): (n: nat)
    requires at <= 2 && |mem| >= MAX_HDR
  {
    |mem| - |Tail(m, mem[at + 2..])|
  }

  /** Where the data starts does not depend on what the slot holds. */
  lemma PatchSpan(slot: Saved, m: Mask, mem: seq<byte>, at: nat)
    requires at <= 2 && |mem| >= MAX_HDR
    ensures Patch(slot, m, mem[at..]).rest == Tail(m, mem[at + 2..])
  {
    var s := mem[at..];
    assert s[2..] == mem[at + 2..];
  }

  /** How many octets of a call are taken for a compressed header: none unless its connection is found. */
  function Consumed(rx: Rx, kind: byte, mem: seq<byte>): (n: nat)
    requires |mem| >= MAX_HDR
  {
    var m := MaskOf(mem[0]);
    if kind != TYPE_COMPRESSED_TCP || rx.cnt == 0 then 0
    else if m.c then if mem[1] < MAX_STATES then Span(m, mem, 2) else 0
    else if rx.toss || rx.lastRecv >= MAX_STATES then 0 else Span(m, mem, 1)
  }

  /** The packet rebuilt has the data of the frame behind a header of the saved length. */
  lemma RebuiltSize(rx: Rx, mem: seq<byte>, len: nat)
    requires rx.Valid() && Readable(mem, len)
    ensures var r := Uncompress(rx, TYPE_COMPRESSED_TCP, mem, len);
            && |r.rx.slots| == MAX_STATES
            && (r.packet.Some? ==>
                  && r.rx.lastRecv < MAX_STATES && Consumed(rx, TYPE_COMPRESSED_TCP, mem) <= len
                  && |r.packet.value| == r.rx.slots[r.rx.lastRecv].hlen + len - Consumed(rx, TYPE_COMPRESSED_TCP, mem))
  {
    hide Patch, Finish, Tail, Restore;
    var m := MaskOf(mem[0]);
    var at, i := if m.c then 2 else 1, if m.c then mem[1] else rx.lastRecv;
    if i < MAX_STATES {
      var c := Patch(rx.slots[i], m, mem[at..]);
      PatchSpan(rx.slots[i], m, mem, at);
      FinishCases(rx.(lastRecv := i, toss := false), c, len - Span(m, mem, at));
    }
  }

  /** The checksum of a packet of `left` octets of data in front of which no header goes is computed past its
      end, over octets that the alignment of `address` has moved. */
  predicate SumsMoved(slot: Saved, left: int, address: nat) {
    !slot.Whole() && left < TcpAt(slot.hdr) && address % 4 != 0
  }

  /** And so it is in a call with the frame at `address`. */
  predicate CallSumsMoved(rx: Rx, kind: byte, mem: seq<byte>, len: nat, address: nat)
    requires rx.Valid() && |mem| >= MAX_HDR
  {
    var n, i := Consumed(rx, kind, mem), if MaskOf(mem[0]).c then mem[1] else rx.lastRecv;
    n > 0 && i < MAX_STATES && SumsMoved(rx.slots[i], len - n, address + n)
  }

  /** One call of the decompressor. */
  datatype Arrival = Arrival(kind: byte, mem: seq<byte>, len: nat)

  lemma StaysValid(rx: Rx, kind: byte, mem: seq<byte>, len: nat)
    requires rx.Valid() && Readable(mem, len)
    ensures Uncompress(rx, kind, mem, len).rx.Valid()
  {
    ReceiverInvariant(rx, kind, mem, len);
  }

  ghost predicate AllReadable(es: seq<Arrival>) {
    forall k :: 0 <= k < |es| ==> Readable(es[k].mem, es[k].len)
  }

  /** The receive state after a whole run of calls. */
  ghost function After(rx: Rx, es: seq<Arrival>): (r: Rx)
    requires rx.Valid() && AllReadable(es)
    ensures r.Valid()
  {
    if es == [] then rx else
    var k := |es| - 1;
    var before := After(rx, es[..k]);
    StaysValid(before, es[k].kind, es[k].mem, es[k].len);
    Uncompress(before, es[k].kind, es[k].mem, es[k].len).rx
  }

  /** What call `k` of a run returns. */
  ghost function Output(rx: Rx, es: seq<Arrival>, k: nat): (r: Option<seq<byte>>)
    requires rx.Valid() && AllReadable(es) && k < |es|
  {
    Uncompress(After(rx, es[..k]), es[k].kind, es[k].mem, es[k].len).packet
  }

  /** The slot has an IP header, and a length that goes with it. */
  predicate HoldsHeader(s: Saved) { s.hdr[0] % 16 >= 5 && s.Whole() }

  lemma AcceptedVerifies(rx: Rx, e: Arrival)
    requires rx.Valid() && Readable(e.mem, e.len) && e.kind == TYPE_COMPRESSED_TCP
    requires Uncompress(rx, e.kind, e.mem, e.len).packet.Some?
    ensures var r := Uncompress(rx, e.kind, e.mem, e.len);
            && r.rx.lastRecv < MAX_STATES && |r.rx.slots| == MAX_STATES
            && (HoldsHeader(r.rx.slots[r.rx.lastRecv]) ==> PassesHeaderCheck(r.packet.value))
  {
    var m := MaskOf(e.mem[0]);
    var at := if m.c then 2 else 1;
    var rx' := if m.c then rx.(lastRecv := e.mem[1], toss := false) else rx;
    PatchFrame(rx'.slots[rx'.lastRecv], m, e.mem[at..], 0);
    if HoldsHeader(rx'.slots[rx'.lastRecv]) {
      RebuiltVerifies(rx', m, e.mem, e.len, at);
    }
  }

  /** In every run, whatever arrives, every packet rebuilt into a slot that holds an IP
      header passes the analyser's header check. */
  lemma EveryRebuiltHeaderVerifies(es: seq<Arrival>, k: nat)
    requires AllReadable(es) && k < |es| && es[k].kind == TYPE_COMPRESSED_TCP
    requires Output(Initial(), es, k).Some?
    ensures var after := After(Initial(), es[..k + 1]);
            && after.lastRecv < MAX_STATES
            && (HoldsHeader(after.slots[after.lastRecv]) ==> PassesHeaderCheck(Output(Initial(), es, k).value))
  {
    assert es[..k + 1][..k] == es[..k];
    AcceptedVerifies(After(Initial(), es[..k]), es[k]);
  }

  ghost predicate AllWhole(rx: Rx)
    requires rx.Valid()
  {
    forall i :: 0 <= i < MAX_STATES ==> rx.slots[i].Whole()
  }

  lemma RefreshWhole(rx: Rx, mem: seq<byte>, len: nat)
    requires rx.Valid() && AllWhole(rx) && Readable(mem, len) && HeaderLen(mem) > 0
    ensures Refresh(rx, mem, len).rx.Valid() && AllWhole(Refresh(rx, mem, len).rx)
  {
    RefreshValid(rx, mem, len);
    var m := mem[9 := IPPROTO_TCP];
    assert m[..HeaderLen(m)][0] == m[0];
  }

  lemma StaysWhole(rx: Rx, e: Arrival)
    requires rx.Valid() && AllWhole(rx) && Readable(e.mem, e.len)
    requires e.kind == TYPE_UNCOMPRESSED_TCP ==> HeaderLen(e.mem) > 0
    ensures Uncompress(rx, e.kind, e.mem, e.len).rx.Valid() && AllWhole(Uncompress(rx, e.kind, e.mem, e.len).rx)
  {
    hide Patch, Restore;
    ReceiverInvariant(rx, e.kind, e.mem, e.len);
    if e.kind == TYPE_UNCOMPRESSED_TCP {
      RefreshWhole(rx, e.mem, e.len);
    } else if e.kind == TYPE_COMPRESSED_TCP {
      var m := MaskOf(e.mem[0]);
      var at, i := if m.c then 2 else 1, if m.c then e.mem[1] else rx.lastRecv;
      if i < MAX_STATES {
        PatchedSlotValid(rx.slots[i], m, e.mem[at..]);
      }
    }
  }

  lemma InitialWhole()
    ensures AllWhole(Initial())
  {
  }

  /** Every slot keeps a length that goes with its header, as long as no uncompressed frame comes without
      a header of its own. */
  lemma {:induction false} RunStaysWhole(es: seq<Arrival>)
    requires AllReadable(es)
    requires forall k :: 0 <= k < |es| && es[k].kind == TYPE_UNCOMPRESSED_TCP ==> HeaderLen(es[k].mem) > 0
    ensures AllWhole(After(Initial(), es))
  {
    hide Uncompress, Saved.Whole;
    if es == [] {
      InitialWhole();
    } else {
      var n := |es| - 1;
      RunStaysWhole(es[..n]);
      StaysWhole(After(Initial(), es[..n]), es[n]);
    }
  }

  /** The frame names an in-range connection, and is not refused for the session counter standing at 0. */
  predicate NamesConnection(rx: Rx, e: Arrival)
    requires Readable(e.mem, e.len)
  {
    || (e.kind == 0x70 && e.mem[9] < 16)
    || (e.kind == 0x80 && rx.cnt != 0 && MaskOf(e.mem[0]).c && e.mem[1] < 16)
  }

  /** And it is as long as its mask says. */
  predicate EndsTossing(rx: Rx, e: Arrival)
    requires Readable(e.mem, e.len)
  {
    NamesConnection(rx, e) && (e.kind == 0x80 ==> e.len >= Span(MaskOf(e.mem[0]), e.mem, 2))
  }

  lemma RebuiltToss(rx: Rx, m: Mask, mem: seq<byte>, len: nat, at: nat)
    requires rx.Valid() && rx.lastRecv < MAX_STATES && len <= |mem| && at <= 2 && |mem| >= MAX_HDR
    ensures var r := Rebuild(rx, m, mem, len, at);
            && r.rx.toss == (rx.toss || len < Span(m, mem, at))
            && (len < Span(m, mem, at) ==> r.packet == None)
  {
    hide Patch, Finish, Tail;
    var slot := rx.slots[rx.lastRecv];
    var c := Patch(slot, m, mem[at..]);
    PatchSpan(slot, m, mem, at);
    FinishCases(rx, c, len - (|mem| - |c.rest|));
  }

  lemma RefreshToss(rx: Rx, mem: seq<byte>, len: nat)
    requires rx.Valid() && rx.toss && Readable(mem, len)
    ensures Refresh(rx, mem, len).rx.toss == (mem[9] >= MAX_STATES)
    ensures mem[9] >= MAX_STATES ==> Refresh(rx, mem, len) == Received(rx, None)
  {
  }

  /** The toss flag, once set, is cleared by exactly these frames; all others but plain IP are dropped. And
      unless they name a connection, they change nothing. */
  lemma TossClearedExactly(rx: Rx, e: Arrival)
    requires rx.Valid() && rx.toss && Readable(e.mem, e.len)
    ensures var r := Uncompress(rx, e.kind, e.mem, e.len);
            && r.rx.toss == !EndsTossing(rx, e)
            && (!EndsTossing(rx, e) && e.kind != TYPE_IP ==> r.packet == None)
            && (!NamesConnection(rx, e) ==> r.rx == rx)
  {
    hide Span, Rebuild, Refresh, MaskOf;
    var m := MaskOf(e.mem[0]);
    if e.kind == TYPE_COMPRESSED_TCP && rx.cnt != 0 && m.c && e.mem[1] < MAX_STATES {
      RebuiltToss(rx.(lastRecv := e.mem[1], toss := false), m, e.mem, e.len, 2);
    } else if e.kind == TYPE_UNCOMPRESSED_TCP {
      RefreshToss(rx, e.mem, e.len);
    }
  }

  /** While the flag is set and no frame names a connection, nothing is accepted but plain IP, and no slot, no
      connection id and no counter changes. */
  lemma {:induction false} TossUntilNamed(rx: Rx, es: seq<Arrival>)
    requires rx.Valid() && rx.toss && AllReadable(es)
    requires forall k :: 0 <= k < |es| ==> !NamesConnection(rx, es[k])
    ensures After(rx, es) == rx
    ensures forall k :: 0 <= k < |es| && es[k].kind != TYPE_IP ==> Output(rx, es, k) == None
  {
    forall k | 0 <= k < |es| && es[k].kind != TYPE_IP
      ensures Output(rx, es, k) == None
    {
      TossUntilNamed(rx, es[..k]);
    }
    if es != [] {
      TossUntilNamed(rx, es[..|es| - 1]);
    }
  }

  /** So it stays set for as long as no frame clears it, and all that comes out is plain IP. */
  lemma {:induction false} TossUntilCleared(rx: Rx, es: seq<Arrival>)
    requires rx.Valid() && rx.toss && AllReadable(es)
    requires forall k :: 0 <= k < |es| ==> !EndsTossing(After(rx, es[..k]), es[k])
    ensures After(rx, es).toss
    ensures forall k :: 0 <= k < |es| && es[k].kind != TYPE_IP ==> Output(rx, es, k) == None
  {
    hide EndsTossing, Uncompress, NamesConnection;
    if es != [] {
      var n := |es| - 1;
      forall k | 0 <= k < n ensures es[..n][..k] == es[..k] {
      }
      TossUntilCleared(rx, es[..n]);
      assert !EndsTossing(After(rx, es[..n]), es[n]);
      TossClearedExactly(After(rx, es[..n]), es[n]);
      forall k | 0 <= k < n && es[k].kind != TYPE_IP ensures Output(rx, es, k) == None {
        assert Output(rx, es[..n], k) == None;
      }
    }
  }

  /** What an uncompressed frame hands on has TCP as its protocol again, and is otherwise as it came. */
  lemma ProtocolRestored(rx: Rx, mem: seq<byte>, len: nat)
    requires rx.Valid() && Readable(mem, len) && len >= 10
    ensures var r := Uncompress(rx, 0x70, mem, len);
            if mem[9] < 16 then r.packet == Some(mem[..9] + [6] + mem[10..len]) else r.packet == None
  {
    assert mem[9 := 6][..len] == mem[..9] + [6] + mem[10..len];
  }

  /** The flag is set by exactly the detected errors: an unknown type, an out-of-range connection, or
      a frame shorter than what its mask makes the decompressor read. A packet of more than 1520 octets is
      dropped without setting it. */
  lemma TossSetExactly(rx: Rx, kind: byte, mem: seq<byte>, len: nat)
    requires rx.Valid() && !rx.toss && Readable(mem, len)
    ensures Uncompress(rx, kind, mem, len).rx.toss <==>
              || kind !in {0x40, 0x70, 0x80}
              || (kind == 0x70 && mem[9] >= 16)
              || (kind == 0x80 && rx.cnt != 0 &&
                  var m := MaskOf(mem[0]);
                  if m.c then mem[1] >= 16 || len < Span(m, mem, 2)
                  else rx.lastRecv < 16 && len < Span(m, mem, 1))
  {
    var m := MaskOf(mem[0]);
    var at := if m.c then 2 else 1;
    var i := if m.c then mem[1] else rx.lastRecv;
    if kind == TYPE_COMPRESSED_TCP && i < MAX_STATES {
      PatchSpan(rx.slots[i], m, mem, at);
    }
  }
}
