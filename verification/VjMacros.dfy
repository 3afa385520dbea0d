/** The macros of VJ.h as they are used: they write or read at `cp` in a buffer and advance it. */
module VjMacros {
  import opened Bytes
  import opened VjDelta

  /** ENCODE(n) */
  method EncodeAt(buf: array<byte>, cp: nat, n: u16) returns (next: nat)
    requires cp + 3 <= buf.Length
    modifies buf
    ensures cp < next <= cp + 3 && buf[..next] == old(buf[..cp]) + Encode(n)
  {
    if n >= 0x100 {
      buf[cp] := 0;
      buf[cp + 2] := n % 0x100;
      buf[cp + 1] := n / 0x100;
      next := cp + 3;
    } else {
      buf[cp] := n;
      next := cp + 1;
    }
  }

  /** ENCODEZ(n) */
  method EncodeZAt(buf: array<byte>, cp: nat, n: u16) returns (next: nat)
    requires cp + 3 <= buf.Length
    modifies buf
    ensures cp < next <= cp + 3 && buf[..next] == old(buf[..cp]) + EncodeZ(n)
  {
    if n >= 0x100 || n == 0 {
      buf[cp] := 0;
      buf[cp + 2] := n % 0x100;
      buf[cp + 1] := n / 0x100;
      next := cp + 3;
    } else {
      buf[cp] := n;
      next := cp + 1;
    }
  }

  /** The number that DECODEL, DECODES and DECODEU read, and the advanced cursor. */
  method DecodeAt(buf: array<byte>, cp: nat) returns (n: u16, next: nat)
    requires cp + 3 <= buf.Length
    ensures cp < next <= cp + 3 && (n, buf[next..]) == Decode(buf[cp..])
  {
    if buf[cp] == 0 {
      n := buf[cp + 1] as int * 0x100 + buf[cp + 2];
      next := cp + 3;
    } else {
      n := buf[cp];
      next := cp + 1;
    }
    assert buf[cp..][next - cp..] == buf[next..];
  }
}
