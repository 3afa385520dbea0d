/** Octets, and the multi-octet fields that the protocol headers are made of. */
module Bytes {

  type byte = x: int | 0 <= x < 0x100
  type u16 = x: int | 0 <= x < 0x1_0000
  type u32 = x: int | 0 <= x < 0x1_0000_0000

  datatype Option<+T> = None | Some(value: T)

  /** A 16-bit field in network byte order. */
  function U16(b: seq<byte>, at: nat): (v: u16)
    requires at + 2 <= |b|
  {
    b[at] as int * 0x100 + b[at + 1]
  }

  /** A 32-bit field in network byte order. */
  function U32(b: seq<byte>, at: nat): (v: u32)
    requires at + 4 <= |b|
  {
    U16(b, at) as int * 0x1_0000 + U16(b, at + 2)
  }

  function Put16(b: seq<byte>, at: nat, v: u16): (r: seq<byte>)
    requires at + 2 <= |b|
    ensures |r| == |b| && U16(r, at) == v
    ensures forall k :: 0 <= k < |b| && !(at <= k < at + 2) ==> r[k] == b[k]
  {
    b[at := v / 0x100][at + 1 := v % 0x100]
  }

  function Put32(b: seq<byte>, at: nat, v: u32): (r: seq<byte>)
    requires at + 4 <= |b|
    ensures |r| == |b| && U32(r, at) == v
    ensures forall k :: 0 <= k < |b| && !(at <= k < at + 4) ==> r[k] == b[k]
  {
    Put16(Put16(b, at, v / 0x1_0000), at + 2, v % 0x1_0000)
  }

  /** Equal 16-bit fields are equal octet by octet. */
  lemma U16Injective(a: seq<byte>, b: seq<byte>, at: nat)
    requires at + 2 <= |a| && at + 2 <= |b| && U16(a, at) == U16(b, at)
    ensures a[at] == b[at] && a[at + 1] == b[at + 1]
  {
  }

  /** Equal 32-bit fields are equal octet by octet. */
  lemma U32Injective(a: seq<byte>, b: seq<byte>, at: nat)
    requires at + 4 <= |a| && at + 4 <= |b| && U32(a, at) == U32(b, at)
    ensures forall k :: at <= k < at + 4 ==> a[k] == b[k]
  {
    assert U16(a, at) == U16(b, at) && U16(a, at + 2) == U16(b, at + 2);
    U16Injective(a, b, at);
    U16Injective(a, b, at + 2);
    forall k | at <= k < at + 4 ensures a[k] == b[k] {
      assert k == at || k == at + 1 || k == at + 2 || k == at + 3;
    }
  }
}
