/** `sl_uncompress_tcp` as a function on the receive state of one line. */
module VjUncompress {
  import opened Bytes
  import opened Checksum
  import opened VjDelta
  import opened VjHeader

  /** A receive slot: `cs_hlen` and the saved header. */
  datatype Saved = Saved(hlen: nat, hdr: Header) {
    /** The header length covers the IP header. It does, unless an uncompressed frame without a header
        has left an older header under a length of 0. */
    predicate Whole() { TcpAt(hdr) <= hlen }

    ghost predicate Valid() {
      && (Whole() || hlen == 0) && hlen <= 120 && hlen % 4 == 0
      && (hdr[0] % 16 >= 5 ==> Field(hdr, 10) == 0)
    }
  }

  datatype Rx = Rx(slots: seq<Saved>, lastRecv: byte, toss: bool, cnt: byte) {
    ghost predicate Valid() {
      && |slots| == MAX_STATES
      && forall i :: 0 <= i < MAX_STATES ==> slots[i].Valid()
    }
  }

  /** A null result is None. */
  datatype Received = Received(rx: Rx, packet: Option<seq<byte>>)

  /** The path all detected errors take. */
  function Bad(rx: Rx): (r: Received) {
    Received(rx.(toss := true), None)
  }

  /** TYPE_UNCOMPRESSED_TCP: the protocol field holds the slot; restore it and save the header. */
  function Refresh(rx: Rx, mem: seq<byte>, len: nat): (r: Received)
    requires rx.Valid() && len <= |mem| && |mem| >= MAX_HDR
  {
    var i := mem[9];
    if i >= MAX_STATES then Bad(rx) else
    var m := mem[9 := IPPROTO_TCP];
    var hlen := HeaderLen(m);
    var hdr := Overwrite(rx.slots[i].hdr, m[..hlen])[10 := 0][11 := 0];
    Received(Rx(rx.slots[i := Saved(hlen, hdr)], i, false, (rx.cnt + 1) % 0x100), Some(m[..len]))
  }

  /** A partly patched header and the octets not yet read. */
  datatype Cursor = Cursor(h: Header, rest: seq<byte>)

  function AddShort(h: Header, at: nat, d: int): (r: Header)
    requires at + 2 <= MAX_HDR
  {
    Put16(h, at, (U16(h, at) + d) % 0x1_0000)
  }

  function AddLong(h: Header, at: nat, d: int): (r: Header)
    requires at + 4 <= MAX_HDR
  {
    Put32(h, at, (U32(h, at) + d) % 0x1_0000_0000)
  }

  function DecodeShort(on: bool, c: Cursor, at: nat): (r: Cursor)
    requires at + 2 <= MAX_HDR && |c.rest| >= 3
    ensures |r.rest| <= |c.rest| <= |r.rest| + 3
  {
    if on then var (d, rest) := Decode(c.rest); Cursor(AddShort(c.h, at, d), rest) else c
  }

  function DecodeLong(on: bool, c: Cursor, at: nat): (r: Cursor)
    requires at + 4 <= MAX_HDR && |c.rest| >= 3
    ensures |r.rest| <= |c.rest| <= |r.rest| + 3
  {
    if on then var (d, rest) := Decode(c.rest); Cursor(AddLong(c.h, at, d), rest) else c
  }

  function DecodeUrgent(on: bool, c: Cursor, o: nat): (r: Cursor)
    requires o + 20 <= MAX_HDR && |c.rest| >= 3
    ensures |r.rest| <= |c.rest| <= |r.rest| + 3
  {
    var h := c.h[o + 13 := WithUrg(c.h[o + 13], on)];
    if on then var (d, rest) := Decode(c.rest); Cursor(Put16(h, o + 18, d), rest) else Cursor(h, c.rest)
  }

  /** The TCP checksum and the PUSH bit. */
  function Begin(h: Header, o: nat, m: Mask, sum: u16): (r: Header)
    requires o + 20 <= MAX_HDR
  {
    var g := Put16(h, o + 16, sum);
    g[o + 13 := WithPush(g[o + 13], m.push)]
  }

  /** The `switch (changes & SPECIALS_MASK)`. */
  function FixTcp(hlen: nat, o: nat, m: Mask, c: Cursor): (r: Cursor)
    requires o + 20 <= MAX_HDR && |c.rest| >= 15
    ensures |r.rest| <= |c.rest| <= |r.rest| + 9
  {
    var data := U16(c.h, 2) - hlen;
    if IsSpecialI(m) then Cursor(AddLong(AddLong(c.h, o + 8, data), o + 4, data), c.rest)
    else if IsSpecialD(m) then Cursor(AddLong(c.h, o + 4, data), c.rest)
    else
      var u := DecodeUrgent(m.u, c, o);
      var w := DecodeShort(m.w, u, o + 14);
      var a := DecodeLong(m.a, w, o + 8);
      DecodeLong(m.s, a, o + 4)
  }

  /** The IP id, coded or one more than the last. */
  function FixId(m: Mask, c: Cursor): (r: Cursor)
    requires |c.rest| >= 3
    ensures |r.rest| <= |c.rest| <= |r.rest| + 3
  {
    if m.i then DecodeShort(true, c, 4) else Cursor(AddShort(c.h, 4, 1), c.rest)
  }

  /** All that happens to a saved header before the length is looked at; `s` starts at the TCP checksum. */
  function Patch(slot: Saved, m: Mask, s: seq<byte>): (r: Cursor)
    requires |s| >= 20
    ensures 2 <= |s| - |r.rest| <= 14
  {
    var o := TcpAt(slot.hdr);
    FixId(m, FixTcp(slot.hlen, o, m, Cursor(Begin(slot.hdr, o, m, U16(s, 0)), s[2..])))
  }

  /** The two octets of the IP checksum, wherever the packet reaches that far. */
  function StampSum(b: seq<byte>, v: u16): (r: seq<byte>)
    ensures |r| == |b|
    ensures |b| >= 12 ==> r == Store(b, 10, v)
  {
    seq(|b|, k requires 0 <= k < |b| => if k == 10 then v % 0x100 else if k == 11 then v / 0x100 else b[k])
  }

  /** Header in front of the data, with the IP header checksum recomputed over the first `ipLen` octets. */
  function Assemble(h: Header, hlen: nat, ipLen: nat, data: seq<byte>): (r: seq<byte>)
    requires ipLen <= hlen <= 120
    ensures |r| == hlen + |data|
  {
    WordSumBound(h[..ipLen]);
    var sum := FoldTwice(WordSum(h[..ipLen]));
    TwoFoldsSuffice(WordSum(h[..ipLen]));
    FoldResidue(WordSum(h[..ipLen]));
    StampSum(h[..hlen] + data, 0xffff - sum)
  }

  /** Without a header to put in front, the checksum is computed over what is there, the data and what lies
      behind it, and stored in the data. */
  function Bare(rest: seq<byte>, left: nat, ipLen: nat): (r: seq<byte>)
    requires left <= |rest| && ipLen <= |rest| && ipLen <= 60
    ensures |r| == left
  {
    WordSumBound(rest[..ipLen]);
    var sum := FoldTwice(WordSum(rest[..ipLen]));
    TwoFoldsSuffice(WordSum(rest[..ipLen]));
    FoldResidue(WordSum(rest[..ipLen]));
    StampSum(rest[..left], 0xffff - sum)
  }

  /** The packet as it is handed on, `h` being the header of `slot` brought up to date. */
  function Restore(slot: Saved, h: Header, rest: seq<byte>, left: nat): (r: seq<byte>)
    requires slot.Valid() && left <= |rest| && |rest| >= 60
    ensures |r| == slot.hlen + left
  {
    if slot.Whole() then Assemble(h, slot.hlen, TcpAt(slot.hdr), rest[..left]) else Bare(rest, left, TcpAt(slot.hdr))
  }

  /** The end of the routine: `left` octets of data remain after the compressed header. */
  function Finish(rx: Rx, c: Cursor, left: int): (r: Received)
    requires rx.Valid() && rx.lastRecv < MAX_STATES && left <= |c.rest| && |c.rest| >= 60
  {
    var slot := rx.slots[rx.lastRecv];
    var patched := rx.(slots := rx.slots[rx.lastRecv := slot.(hdr := c.h)]);
    if left < 0 then Bad(patched)
    else if left + slot.hlen > 1520 then Received(patched, None)
    else
      var h := Put16(c.h, 2, left + slot.hlen);
      Received(rx.(slots := rx.slots[rx.lastRecv := slot.(hdr := h)]),
               Some(Restore(slot, h, c.rest, left)))
  }

  /** TYPE_COMPRESSED_TCP once the connection is known; `at` octets have been read. */
  function Rebuild(rx: Rx, m: Mask, mem: seq<byte>, len: nat, at: nat): (r: Received)
    requires rx.Valid() && rx.lastRecv < MAX_STATES && len <= |mem| && at <= 2 && |mem| >= MAX_HDR
  {
    var c := Patch(rx.slots[rx.lastRecv], m, mem[at..]);
    Finish(rx, c, len - (|mem| - |c.rest|))
  }

  /** What the caller provides: 128 readable octets, whatever the length of the packet. */
  predicate Readable(mem: seq<byte>, len: nat) { len <= |mem| && |mem| >= MAX_HDR }

  /** `mem` is what can be read at `bufp`; the packet is its first `len` octets. */
  function Uncompress(rx: Rx, kind: byte, mem: seq<byte>, len: nat): (r: Received)
    requires rx.Valid() && Readable(mem, len)
  {
    if kind == TYPE_IP then Received(rx, Some(mem[..len]))
    else if kind == TYPE_UNCOMPRESSED_TCP then Refresh(rx, mem, len)
    else if kind != TYPE_COMPRESSED_TCP then Bad(rx)
    else if rx.cnt == 0 then Received(rx, None)
    else
      var m := MaskOf(mem[0]);
      if m.c then
        if mem[1] >= MAX_STATES then Bad(rx)
        else Rebuild(rx.(lastRecv := mem[1], toss := false), m, mem, len, 2)
      else if rx.toss || rx.lastRecv >= MAX_STATES then Received(rx, None)
      else Rebuild(rx, m, mem, len, 1)
  }

  /** `sl_compress_init`: blank slots, no connection last seen, nothing tossed or counted. */
  function Initial(): (rx: Rx)
    ensures rx.Valid()
  {
    Rx(seq(MAX_STATES, _ => Saved(0, Blank())), 255, false, 0)
  }
}
