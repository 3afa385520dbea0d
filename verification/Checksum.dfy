/** The Internet checksum: `CheckSum` of Analyze_Inf.c, and the fixed two-fold form VJ.c uses.
    Both add the 16-bit words as a little-endian machine reads them. */
module Checksum {
  import opened Bytes

  /** The sum of the words of `b`, a left-over octet counting as a word of its own. */
  function WordSum(b: seq<byte>): (s: nat) {
    if |b| == 0 then 0
    else if |b| == 1 then b[0]
    else b[0] + 0x100 * b[1] as int + WordSum(b[2..])
  }

  /** Carries folded back in until none is left. */
  function Fold(n: nat): (f: nat) {
    if n < 0x1_0000 then n else Fold(n % 0x1_0000 + n / 0x1_0000)
  }

  /** Carries folded back in exactly twice. */
  function FoldTwice(n: nat): (f: nat) {
    var m := n % 0x1_0000 + n / 0x1_0000;
    m % 0x1_0000 + m / 0x1_0000
  }

  /** Taking away a multiple of 65535 does not change a residue. */
  lemma SameResidue(n: int, m: int, q: int)
    requires n == m + 0xffff * q
    ensures n % 0xffff == m % 0xffff
  {
  }

  /** Folding keeps the residue modulo 65535 and reaches 0 only from 0. */
  lemma {:induction false} FoldResidue(n: nat)
    ensures Fold(n) < 0x1_0000
    ensures Fold(n) % 0xffff == n % 0xffff
    ensures Fold(n) == 0 <==> n == 0
    decreases n
  {
    if n >= 0x1_0000 {
      var low, high := n % 0x1_0000, n / 0x1_0000;
      assert n == low + high + 0xffff * high;
      FoldResidue(low + high);
      SameResidue(n, low + high, high);
    }
  }

  function ChecksumOf(b: seq<byte>): (c: u16) {
    FoldResidue(WordSum(b));
    0xffff - Fold(WordSum(b))
  }

  /** Two folds are all a 32-bit sum ever needs. */
  lemma TwoFoldsSuffice(n: nat)
    requires n < 0x1_0000_0000
    ensures FoldTwice(n) == Fold(n)
  {
    var m := n % 0x1_0000 + n / 0x1_0000;
    var k := m % 0x1_0000 + m / 0x1_0000;
    assert m <= 0x1_fffe && k < 0x1_0000;
    assert Fold(m) == k;
    assert n < 0x1_0000 ==> m == n;
    assert n >= 0x1_0000 ==> Fold(n) == Fold(m);
  }

  lemma {:induction false} WordSumBound(b: seq<byte>)
    ensures WordSum(b) <= (|b| + 1) / 2 * 0xffff
  {
    if |b| >= 2 {
      WordSumBound(b[2..]);
    }
  }

  /** Appending one whole word to a whole number of words adds it. */
  lemma {:induction false} WordSumAppend(b: seq<byte>, tail: seq<byte>)
    requires |b| % 2 == 0
    ensures WordSum(b + tail) == WordSum(b) + WordSum(tail)
  {
    if |b| == 0 {
      assert b + tail == tail;
    } else {
      WordSumAppend(b[2..], tail);
      assert (b + tail)[2..] == b[2..] + tail;
    }
  }

  /** Octet by octet: those at even places count once, the others 256 times. */
  function Weighed(b: seq<byte>): (s: nat) {
    if b == [] then 0 else
    var n := |b| - 1;
    Weighed(b[..n]) + if n % 2 == 0 then b[n] else 0x100 * b[n] as int
  }

  lemma WeighedOne(b: seq<byte>, x: byte)
    ensures Weighed(b + [x]) == Weighed(b) + if |b| % 2 == 0 then x else 0x100 * x as int
  {
    assert (b + [x])[..|b|] == b;
  }

  lemma ShortSums(x: byte, y: byte)
    ensures WordSum([x]) == x && WordSum([x, y]) == x + 0x100 * y as int
  {
    assert [x, y][2..] == [];
  }

  lemma OneBehind(c: seq<byte>, x: byte)
    requires |c| % 2 == 0 && WordSum(c) == Weighed(c)
    ensures WordSum(c + [x]) == Weighed(c + [x])
  {
    hide WordSum, Weighed;
    ShortSums(x, 0);
    WordSumAppend(c, [x]);
    WeighedOne(c, x);
  }

  lemma TwoBehind(c: seq<byte>, x: byte, y: byte)
    requires |c| % 2 == 0 && WordSum(c) == Weighed(c)
    ensures WordSum(c + [x, y]) == Weighed(c + [x, y])
  {
    hide WordSum, Weighed;
    ShortSums(x, y);
    WordSumAppend(c, [x, y]);
    WeighedOne(c, x);
    WeighedOne(c + [x], y);
    assert c + [x] + [y] == c + [x, y];
  }

  /** The word sum of any buffer, of odd length too, is that of its octets. */
  lemma {:induction false} WordSumIs(b: seq<byte>)
    ensures WordSum(b) == Weighed(b)
  {
    if b != [] {
      hide WordSum, Weighed;
      if |b| % 2 == 1 {
        var n := |b| - 1;
        WordSumIs(b[..n]);
        OneBehind(b[..n], b[n]);
        assert b[..n] + [b[n]] == b;
      } else {
        var n := |b| - 2;
        WordSumIs(b[..n]);
        TwoBehind(b[..n], b[n], b[n + 1]);
        assert b[..n] + [b[n], b[n + 1]] == b;
      }
    }
  }

  /** RFC 1071: a buffer of odd length sums as with a zero octet behind it. */
  lemma OddIsPadded(b: seq<byte>)
    requires |b| % 2 == 1
    ensures WordSum(b + [0]) == WordSum(b) && ChecksumOf(b + [0]) == ChecksumOf(b)
  {
    hide Fold;
    WordSumIs(b);
    WordSumIs(b + [0]);
    assert (b + [0])[..|b|] == b;
  }

  lemma SameNegative(n: nat, c: u16, d: u16)
    requires (n + c) % 0xffff == 0 && (n + d) % 0xffff == 0
    ensures c == d || (c == 0 && d == 0xffff) || (c == 0xffff && d == 0)
  {
    var q := (n + c) / 0xffff - (n + d) / 0xffff;
    assert c - d == 0xffff * q;
  }

  lemma ResidueSum(n: nat, f: nat)
    requires f < 0x1_0000 && f % 0xffff == n % 0xffff
    ensures (n + 0xffff - f) % 0xffff == 0
  {
    var q := n / 0xffff - f / 0xffff;
    assert n - f == 0xffff * q;
    SameResidue(n + 0xffff - f, 0, q + 1);
  }

  /** The checksum is the one 16-bit number that makes the sum a multiple of 65535, all ones only for nothing
      but zero octets. */
  lemma ChecksumExact(b: seq<byte>, c: u16)
    ensures c == ChecksumOf(b) <==> (Weighed(b) + c) % 0xffff == 0 && (c == 0xffff <==> Weighed(b) == 0)
  {
    hide Weighed, WordSum, Fold;
    WordSumIs(b);
    FoldResidue(WordSum(b));
    ResidueSum(WordSum(b), Fold(WordSum(b)));
    if (Weighed(b) + c) % 0xffff == 0 {
      SameNegative(Weighed(b), c, ChecksumOf(b));
    }
  }

  /** The checksum is zero exactly when the words add up to a positive multiple of 65535. */
  lemma ZeroChecksum(b: seq<byte>)
    ensures ChecksumOf(b) == 0 <==> WordSum(b) > 0 && WordSum(b) % 0xffff == 0
  {
    FoldResidue(WordSum(b));
  }

  /** The summing loop. The bound on the length is what keeps the sum inside a 64-bit `long`. */
  method SumWords(addr: seq<byte>) returns (sum: nat)
    requires |addr| < 0x8000_0000_0000
    ensures sum == WordSum(addr) == Weighed(addr) < 0x8000_0000_0000_0000
  {
    sum := 0;
    var at, count := 0, |addr|;
    while count > 1
      invariant 0 <= count <= |addr| && at == |addr| - count && at % 2 == 0
      invariant sum == WordSum(addr[..at])
    {
      WordSumAppend(addr[..at], addr[at..at + 2]);
      assert addr[..at] + addr[at..at + 2] == addr[..at + 2];
      sum := sum + addr[at] + 0x100 * addr[at + 1] as int;
      at := at + 2;
      count := count - 2;
    }
    WordSumAppend(addr[..at], addr[at..]);
    assert addr[..at] + addr[at..] == addr;
    if count > 0 {
      sum := sum + addr[at];
    }
    WordSumBound(addr);
    WordSumIs(addr);
  }

  /** `CheckSum`. A result of zero is what a receiver takes as correct. */
  method CheckSum(addr: seq<byte>) returns (checksum: u16)
    requires |addr| < 0x8000_0000_0000
    ensures checksum == ChecksumOf(addr)
    ensures (Weighed(addr) + checksum) % 0xffff == 0 && (checksum == 0xffff <==> Weighed(addr) == 0)
    ensures checksum == 0 <==> Weighed(addr) > 0 && Weighed(addr) % 0xffff == 0
  {
    var sum := SumWords(addr);
    while sum / 0x1_0000 != 0
      invariant Fold(sum) == Fold(WordSum(addr))
      decreases sum
    {
      sum := sum % 0x1_0000 + sum / 0x1_0000;
    }
    ZeroChecksum(addr);
    WordSumIs(addr);
    ChecksumExact(addr, ChecksumOf(addr));
    checksum := 0xffff - sum;
  }

  /** Writes a checksum into its field, low octet first. */
  function Store(b: seq<byte>, at: nat, v: u16): (r: seq<byte>)
    requires at + 2 <= |b|
    ensures |r| == |b|
  {
    b[at := v % 0x100][at + 1 := v / 0x100]
  }

  function Field(b: seq<byte>, at: nat): (v: u16)
    requires at + 2 <= |b|
  {
    b[at] + 0x100 * b[at + 1] as int
  }

  lemma {:induction false} WordSumField(b: seq<byte>, at: nat)
    requires at + 2 <= |b| && at % 2 == 0
    ensures WordSum(b) == WordSum(Store(b, at, 0)) + Field(b, at)
    decreases at
  {
    var z := Store(b, at, 0);
    if at == 0 {
      assert b[2..] == z[2..];
    } else {
      WordSumField(b[2..], at - 2);
      assert z[2..] == Store(b[2..], at - 2, 0);
    }
  }

  /** RFC 1071: the checksum of the rest, put into its aligned field, makes the whole sum to zero. */
  lemma StoredChecksumVerifies(b: seq<byte>, at: nat)
    requires at + 2 <= |b| && at % 2 == 0 && Field(b, at) == 0 && WordSum(b) > 0
    ensures ChecksumOf(b) < 0xffff
    ensures ChecksumOf(Store(b, at, ChecksumOf(b))) == 0
  {
    var n := WordSum(b);
    FoldResidue(n);
    var c := ChecksumOf(b);
    var r := Store(b, at, c);
    assert WordSum(r) == n + c by {
      assert Store(r, at, 0) == b;
      WordSumField(r, at);
    }
    ResidueSum(n, Fold(n));
    ZeroChecksum(r);
  }

  /** Between 1 and twice 65535 there are two multiples of 65535. */
  lemma SmallMultiple(n: nat)
    requires 0 < n <= 2 * 0xffff
    ensures n % 0xffff == 0 <==> n == 0xffff || n == 2 * 0xffff
  {
  }

  lemma ResidueShift(n: nat, f: nat, v: nat)
    requires f % 0xffff == n % 0xffff
    ensures (n + v) % 0xffff == (f + v) % 0xffff
  {
    var q := n / 0xffff - f / 0xffff;
    assert n - f == 0xffff * q;
    SameResidue(n + v, f + v, q);
  }

  /** A header sums to zero exactly when its field is the checksum of the rest or, where that
      checksum is 0, the all-ones form of zero. */
  lemma VerifiesIffStored(b: seq<byte>, at: nat)
    requires at + 2 <= |b| && at % 2 == 0 && WordSum(Store(b, at, 0)) > 0
    ensures ChecksumOf(b) == 0 && Field(b, at) != 0xffff <==> Field(b, at) == ChecksumOf(Store(b, at, 0))
  {
    var n, v := WordSum(Store(b, at, 0)), Field(b, at);
    WordSumField(b, at);
    FoldResidue(n);
    ZeroChecksum(b);
    ResidueShift(n, Fold(n), v);
    assert ChecksumOf(b) == 0 <==> (Fold(n) + v) % 0xffff == 0;
    SmallMultiple(Fold(n) + v);
  }
}
