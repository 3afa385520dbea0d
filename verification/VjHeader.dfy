/** The fields of an IP/TCP header that VJ.c reads, and the 128-octet slots it saves headers in. */
module VjHeader {
  import opened Bytes

  const MAX_STATES: nat := 16
  const MAX_HDR: nat := 128

  const TYPE_IP: byte := 0x40
  const TYPE_UNCOMPRESSED_TCP: byte := 0x70
  const TYPE_COMPRESSED_TCP: byte := 0x80
  const TYPE_ERROR: byte := 0

  const IPPROTO_TCP: byte := 6

  /** A saved header: the union in `cstate`, of which only the leading part may be in use. */
  type Header = h: seq<byte> | |h| == MAX_HDR witness seq(MAX_HDR, _ => 0)

  /** A slot as the initial `memset` leaves it. */
  function Blank(): (h: Header)
    ensures forall k :: 0 <= k < MAX_HDR ==> h[k] == 0
  {
    seq(MAX_HDR, _ => 0)
  }

  /** Where the TCP header starts: four times `ip_hl`. */
  function TcpAt(p: seq<byte>): (o: nat)
    requires |p| >= 1
    ensures o <= 60
  {
    p[0] % 16 * 4
  }

  /** The fixed part of the TCP header lies inside `p`. */
  predicate HasTcp(p: seq<byte>) {
    |p| >= 20 && TcpAt(p) + 20 <= |p|
  }

  function IpLen(p: seq<byte>): (v: u16) requires HasTcp(p) { U16(p, 2) }
  function IpId(p: seq<byte>): (v: u16) requires HasTcp(p) { U16(p, 4) }
  function Seq(p: seq<byte>): (v: u32) requires HasTcp(p) { U32(p, TcpAt(p) + 4) }
  function Ack(p: seq<byte>): (v: u32) requires HasTcp(p) { U32(p, TcpAt(p) + 8) }
  function DataOffset(p: seq<byte>): (v: nat) requires HasTcp(p) ensures v < 16 { p[TcpAt(p) + 12] / 16 }
  function Unused(p: seq<byte>): (v: nat) requires HasTcp(p) { p[TcpAt(p) + 12] % 16 }
  function Flags(p: seq<byte>): (v: byte) requires HasTcp(p) { p[TcpAt(p) + 13] }
  function Window(p: seq<byte>): (v: u16) requires HasTcp(p) { U16(p, TcpAt(p) + 14) }
  function TcpSum(p: seq<byte>): (v: u16) requires HasTcp(p) { U16(p, TcpAt(p) + 16) }
  function Urgent(p: seq<byte>): (v: u16) requires HasTcp(p) { U16(p, TcpAt(p) + 18) }

  /** IP and TCP header together, options included. */
  function HeaderLen(p: seq<byte>): (v: nat)
    requires HasTcp(p)
    ensures v <= 120
  {
    TcpAt(p) + DataOffset(p) * 4
  }

  predicate PushSet(flags: byte) { flags / 8 % 2 == 1 }
  predicate AckSet(flags: byte) { flags / 8 / 2 % 2 == 1 }
  predicate UrgSet(flags: byte) { flags / 8 / 2 / 2 % 2 == 1 }

  /** The two bits above URG, which the coding neither compares nor sends. */
  function TopBits(flags: byte): (v: nat) { flags / 8 / 2 / 2 / 2 }

  /** Of SYN, FIN, RST and ACK, only ACK is set. */
  predicate PlainAck(flags: byte) { flags % 8 == 0 && AckSet(flags) }

  function WithPush(flags: byte, on: bool): (f: byte)
    ensures PushSet(f) == on && UrgSet(f) == UrgSet(flags) && TopBits(f) == TopBits(flags)
    ensures PlainAck(f) == PlainAck(flags)
  {
    var q := flags / 8 / 2;
    var f := flags % 8 + 8 * (2 * q + if on then 1 else 0);
    assert f / 8 / 2 == q;
    f
  }

  function WithUrg(flags: byte, on: bool): (f: byte)
    ensures UrgSet(f) == on && PushSet(f) == PushSet(flags) && TopBits(f) == TopBits(flags)
    ensures PlainAck(f) == PlainAck(flags)
  {
    var q, top := flags / 8 / 2, flags / 8 / 2 / 2 / 2;
    var q' := q % 2 + 2 * (2 * top + if on then 1 else 0);
    var f := flags % 8 + 8 * (flags / 8 % 2 + 2 * q');
    assert q' / 2 / 2 == top;
    assert f / 8 / 2 == q';
    f
  }

  /** A flags octet is its plain-ACK part, PSH, URG and the two bits above them. */
  lemma FlagsDetermined(f: byte, g: byte)
    requires PlainAck(f) && PlainAck(g) && TopBits(f) == TopBits(g)
    requires PushSet(f) == PushSet(g) && UrgSet(f) == UrgSet(g)
    ensures f == g
  {
    assert f / 8 / 2 / 2 == g / 8 / 2 / 2;
    assert f / 8 / 2 == g / 8 / 2;
    assert f / 8 == g / 8;
  }

  lemma WordIff(p: seq<byte>, q: seq<byte>, i: nat, j: nat)
    requires i + 4 <= |p| && j + 4 <= |q|
    ensures U32(p, i) == U32(q, j) <==> p[i..][..4] == q[j..][..4]
  {
    var a, b := p[i..][..4], q[j..][..4];
    assert U32(p, i) == U32(a, 0) && U32(q, j) == U32(b, 0);
    if U32(p, i) == U32(q, j) {
      U32Injective(a, b, 0);
    }
  }

  /** What identifies a conversation: the two addresses and the word holding both ports. */
  datatype Conn = Conn(src: u32, dst: u32, ports: u32)

  function Key(p: seq<byte>): (c: Conn)
    requires HasTcp(p)
  {
    Conn(U32(p, 12), U32(p, 16), U32(p, TcpAt(p)))
  }

  /** The value of octets in network byte order. */
  function BigEndian(b: seq<byte>): (v: nat) {
    if b == [] then 0 else BigEndian(b[..|b| - 1]) * 0x100 + b[|b| - 1]
  }

  lemma FieldsBigEndian(p: seq<byte>, at: nat)
    ensures at + 2 <= |p| ==> U16(p, at) == BigEndian(p[at..at + 2])
    ensures at + 4 <= |p| ==> U32(p, at) == BigEndian(p[at..at + 4])
  {
    if at + 2 <= |p| {
      var b := p[at..at + 2];
      assert b[..1][..0] == [] && BigEndian(b[..1]) == BigEndian(b[..1][..0]) * 0x100 + b[0];
    }
    if at + 4 <= |p| {
      var b := p[at..at + 4];
      assert b[..3][..2] == b[..2] && b[..2][..1] == b[..1] && b[..1][..0] == [];
      assert BigEndian(b[..1]) == b[0] && BigEndian(b[..2]) == BigEndian(b[..1]) * 0x100 + b[1];
      assert BigEndian(b[..3]) == BigEndian(b[..2]) * 0x100 + b[2];
    }
  }

  /** The octets of the fields, as RFC 791, section 3.1, and RFC 793, section 3.1, lay them out. */
  lemma Layout(p: seq<byte>)
    requires HasTcp(p)
    ensures var o := 4 * (p[0] % 16);
            && HeaderLen(p) == o + 4 * (p[o + 12] / 16)
            && IpLen(p) == BigEndian(p[2..4]) && IpId(p) == BigEndian(p[4..6])
            && Seq(p) == BigEndian(p[o + 4..o + 8]) && Ack(p) == BigEndian(p[o + 8..o + 12])
            && Window(p) == BigEndian(p[o + 14..o + 16]) && TcpSum(p) == BigEndian(p[o + 16..o + 18])
            && Urgent(p) == BigEndian(p[o + 18..o + 20])
  {
    hide U16, U32, BigEndian;
    var o := TcpAt(p);
    FieldsBigEndian(p, 2);
    FieldsBigEndian(p, 4);
    FieldsBigEndian(p, o + 4);
    FieldsBigEndian(p, o + 8);
    FieldsBigEndian(p, o + 14);
    FieldsBigEndian(p, o + 16);
    FieldsBigEndian(p, o + 18);
  }

  /** Two packets are of one conversation exactly when addresses and ports are equal, octet by octet. */
  lemma KeyIff(p: seq<byte>, q: seq<byte>)
    requires HasTcp(p) && HasTcp(q)
    ensures Key(p) == Key(q) <==>
              p[12..20] == q[12..20]
              && p[4 * (p[0] % 16)..][..4] == q[4 * (q[0] % 16)..][..4]
  {
    hide U32;
    WordIff(p, q, 12, 12);
    WordIff(p, q, 16, 16);
    WordIff(p, q, TcpAt(p), TcpAt(q));
    assert p[12..20] == p[12..][..4] + p[16..][..4] && q[12..20] == q[12..][..4] + q[16..][..4];
    assert p[12..20][4..] == p[16..][..4] && q[12..20][4..] == q[16..][..4];
    assert p[12..20][..4] == p[12..][..4] && q[12..20][..4] == q[12..][..4];
  }

  /** Overwrites the leading part of a slot, as the copies into `cs_ip` do. */
  function Overwrite(h: Header, prefix: seq<byte>): (r: Header)
    requires |prefix| <= MAX_HDR
    ensures forall k :: 0 <= k < MAX_HDR ==> r[k] == if k < |prefix| then prefix[k] else h[k]
  {
    prefix + h[|prefix|..]
  }
}
