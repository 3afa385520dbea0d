/** The frame check sequence of PPP: the table-driven computation of `CheckFCS` against the bitwise
    definition of RFC 1662, appendix C. */
module PppFcs {

  /** Bit-vectors, because the code shifts and masks; nothing here is added up as the fields of `Bytes` are. */
  type octet = bv8

  const INIT_FCS: bv16 := 0xffff
  const GOOD_FCS: bv16 := 0xf0b8

  /** One bit of the CRC with polynomial 0x8408. */
  function BitStep(w: bv16): (r: bv16) {
    if w & 1 == 1 then (w >> 1) ^ 0x8408 else w >> 1
  }

  function ByteStep(w: bv16): (r: bv16) {
    BitStep(BitStep(BitStep(BitStep(BitStep(BitStep(BitStep(BitStep(w))))))))
  }

  function Xor(a: bv16, b: bv16): (r: bv16) { a ^ b }

  /** An octet as a word of its own, and as the upper half of a word. */
  function Bottom(b: octet): (r: bv16) { b as bv16 }
  function Top(b: octet): (r: bv16) { (b as bv16) << 8 }

  function Low(w: bv16): (b: octet) { (w & 0xff) as bv8 }
  function High(w: bv16): (b: octet) { (w >> 8) as bv8 }

  /** The register takes in one octet. */
  function Absorb(w: bv16, b: octet): (r: bv16) { ByteStep(Xor(w, Bottom(b))) }

  /** The CRC register after `s`, bit by bit. */
  function Crc(w: bv16, s: seq<octet>): (r: bv16)
    decreases |s|
  {
    if s == [] then w else Crc(Absorb(w, s[0]), s[1..])
  }

  function Pick(i: bv8, a: bv16, b: bv16, c: bv16, d: bv16, e: bv16, f: bv16, g: bv16, h: bv16): (r: bv16) {
    if i < 4 then if i < 2 then if i == 0 then a else b else if i == 2 then c else d
    else if i < 6 then if i == 4 then e else f else if i == 6 then g else h
  }

  // The table, eight lines of eight entries at a time.

  function FcsTab00(i: bv8): (r: bv16) {
    if i < 0x08 then Pick(i & 7, 0x0000, 0x1189, 0x2312, 0x329b, 0x4624, 0x57ad, 0x6536, 0x74bf)
    else if i < 0x10 then Pick(i & 7, 0x8c48, 0x9dc1, 0xaf5a, 0xbed3, 0xca6c, 0xdbe5, 0xe97e, 0xf8f7)
    else if i < 0x18 then Pick(i & 7, 0x1081, 0x0108, 0x3393, 0x221a, 0x56a5, 0x472c, 0x75b7, 0x643e)
    else if i < 0x20 then Pick(i & 7, 0x9cc9, 0x8d40, 0xbfdb, 0xae52, 0xdaed, 0xcb64, 0xf9ff, 0xe876)
    else if i < 0x28 then Pick(i & 7, 0x2102, 0x308b, 0x0210, 0x1399, 0x6726, 0x76af, 0x4434, 0x55bd)
    else if i < 0x30 then Pick(i & 7, 0xad4a, 0xbcc3, 0x8e58, 0x9fd1, 0xeb6e, 0xfae7, 0xc87c, 0xd9f5)
    else if i < 0x38 then Pick(i & 7, 0x3183, 0x200a, 0x1291, 0x0318, 0x77a7, 0x662e, 0x54b5, 0x453c)
    else Pick(i & 7, 0xbdcb, 0xac42, 0x9ed9, 0x8f50, 0xfbef, 0xea66, 0xd8fd, 0xc974)
  }

  function FcsTab40(i: bv8): (r: bv16) {
    if i < 0x48 then Pick(i & 7, 0x4204, 0x538d, 0x6116, 0x709f, 0x0420, 0x15a9, 0x2732, 0x36bb)
    else if i < 0x50 then Pick(i & 7, 0xce4c, 0xdfc5, 0xed5e, 0xfcd7, 0x8868, 0x99e1, 0xab7a, 0xbaf3)
    else if i < 0x58 then Pick(i & 7, 0x5285, 0x430c, 0x7197, 0x601e, 0x14a1, 0x0528, 0x37b3, 0x263a)
    else if i < 0x60 then Pick(i & 7, 0xdecd, 0xcf44, 0xfddf, 0xec56, 0x98e9, 0x8960, 0xbbfb, 0xaa72)
    else if i < 0x68 then Pick(i & 7, 0x6306, 0x728f, 0x4014, 0x519d, 0x2522, 0x34ab, 0x0630, 0x17b9)
    else if i < 0x70 then Pick(i & 7, 0xef4e, 0xfec7, 0xcc5c, 0xddd5, 0xa96a, 0xb8e3, 0x8a78, 0x9bf1)
    else if i < 0x78 then Pick(i & 7, 0x7387, 0x620e, 0x5095, 0x411c, 0x35a3, 0x242a, 0x16b1, 0x0738)
    else Pick(i & 7, 0xffcf, 0xee46, 0xdcdd, 0xcd54, 0xb9eb, 0xa862, 0x9af9, 0x8b70)
  }

  function FcsTab80(i: bv8): (r: bv16) {
    if i < 0x88 then Pick(i & 7, 0x8408, 0x9581, 0xa71a, 0xb693, 0xc22c, 0xd3a5, 0xe13e, 0xf0b7)
    else if i < 0x90 then Pick(i & 7, 0x0840, 0x19c9, 0x2b52, 0x3adb, 0x4e64, 0x5fed, 0x6d76, 0x7cff)
    else if i < 0x98 then Pick(i & 7, 0x9489, 0x8500, 0xb79b, 0xa612, 0xd2ad, 0xc324, 0xf1bf, 0xe036)
    else if i < 0xa0 then Pick(i & 7, 0x18c1, 0x0948, 0x3bd3, 0x2a5a, 0x5ee5, 0x4f6c, 0x7df7, 0x6c7e)
    else if i < 0xa8 then Pick(i & 7, 0xa50a, 0xb483, 0x8618, 0x9791, 0xe32e, 0xf2a7, 0xc03c, 0xd1b5)
    else if i < 0xb0 then Pick(i & 7, 0x2942, 0x38cb, 0x0a50, 0x1bd9, 0x6f66, 0x7eef, 0x4c74, 0x5dfd)
    else if i < 0xb8 then Pick(i & 7, 0xb58b, 0xa402, 0x9699, 0x8710, 0xf3af, 0xe226, 0xd0bd, 0xc134)
    else Pick(i & 7, 0x39c3, 0x284a, 0x1ad1, 0x0b58, 0x7fe7, 0x6e6e, 0x5cf5, 0x4d7c)
  }

  function FcsTabC0(i: bv8): (r: bv16) {
    if i < 0xc8 then Pick(i & 7, 0xc60c, 0xd785, 0xe51e, 0xf497, 0x8028, 0x91a1, 0xa33a, 0xb2b3)
    else if i < 0xd0 then Pick(i & 7, 0x4a44, 0x5bcd, 0x6956, 0x78df, 0x0c60, 0x1de9, 0x2f72, 0x3efb)
    else if i < 0xd8 then Pick(i & 7, 0xd68d, 0xc704, 0xf59f, 0xe416, 0x90a9, 0x8120, 0xb3bb, 0xa232)
    else if i < 0xe0 then Pick(i & 7, 0x5ac5, 0x4b4c, 0x79d7, 0x685e, 0x1ce1, 0x0d68, 0x3ff3, 0x2e7a)
    else if i < 0xe8 then Pick(i & 7, 0xe70e, 0xf687, 0xc41c, 0xd595, 0xa12a, 0xb0a3, 0x8238, 0x93b1)
    else if i < 0xf0 then Pick(i & 7, 0x6b46, 0x7acf, 0x4854, 0x59dd, 0x2d62, 0x3ceb, 0x0e70, 0x1ff9)
    else if i < 0xf8 then Pick(i & 7, 0xf78f, 0xe606, 0xd49d, 0xc514, 0xb1ab, 0xa022, 0x92b9, 0x8330)
    else Pick(i & 7, 0x7bc7, 0x6a4e, 0x58d5, 0x495c, 0x3de3, 0x2c6a, 0x1ef1, 0x0f78)
  }

  /** `fcstab` */
  function FcsTab(i: bv8): (r: bv16) {
    if i < 0x40 then FcsTab00(i) else if i < 0x80 then FcsTab40(i) else if i < 0xc0 then FcsTab80(i) else FcsTabC0(i)
  }

  lemma FcsTab00Correct(i: bv8)
    requires i < 0x40
    ensures FcsTab00(i) == ByteStep(Bottom(i))
  {
  }

  lemma FcsTab40First(i: bv8)
    requires 0x40 <= i < 0x60
    ensures FcsTab40(i) == ByteStep(Bottom(i))
  {
  }

  lemma FcsTab40Second(i: bv8)
    requires 0x60 <= i < 0x80
    ensures FcsTab40(i) == ByteStep(Bottom(i))
  {
  }

  lemma FcsTab40Correct(i: bv8)
    requires 0x40 <= i < 0x80
    ensures FcsTab40(i) == ByteStep(Bottom(i))
  {
    hide FcsTab40, ByteStep;
    if i < 0x60 {
      FcsTab40First(i);
    } else {
      FcsTab40Second(i);
    }
  }

  lemma FcsTab80First(i: bv8)
    requires 0x80 <= i < 0xa0
    ensures FcsTab80(i) == ByteStep(Bottom(i))
  {
  }

  lemma FcsTab80Second(i: bv8)
    requires 0xa0 <= i < 0xc0
    ensures FcsTab80(i) == ByteStep(Bottom(i))
  {
  }

  lemma FcsTab80Correct(i: bv8)
    requires 0x80 <= i < 0xc0
    ensures FcsTab80(i) == ByteStep(Bottom(i))
  {
    hide FcsTab80, ByteStep;
    if i < 0xa0 {
      FcsTab80First(i);
    } else {
      FcsTab80Second(i);
    }
  }

  lemma FcsTabC0Correct(i: bv8)
    requires 0xc0 <= i
    ensures FcsTabC0(i) == ByteStep(Bottom(i))
  {
  }

  /** Every entry of the table is eight steps of the bitwise CRC. */
  lemma TableCorrect(i: bv8)
    ensures FcsTab(i) == ByteStep(Bottom(i))
  {
    hide FcsTab00, FcsTab40, FcsTab80, FcsTabC0, ByteStep;
    if i < 0x40 {
      FcsTab00Correct(i);
    } else if i < 0x80 {
      FcsTab40Correct(i);
    } else if i < 0xc0 {
      FcsTab80Correct(i);
    } else {
      FcsTabC0Correct(i);
    }
  }

  function Half(w: bv16): (r: bv16) { w >> 1 }

  predicate Odd(w: bv16) { w & 1 == 1 }

  lemma BitStepIs(w: bv16)
    ensures BitStep(w) == if Odd(w) then Xor(Half(w), 0x8408) else Half(w)
  {
  }

  lemma OddXor(x: bv16, y: bv16)
    ensures Odd(Xor(x, y)) <==> Odd(x) != Odd(y)
  {
  }

  lemma HalfXor(x: bv16, y: bv16)
    ensures Half(Xor(x, y)) == Xor(Half(x), Half(y))
  {
  }

  lemma XorCommutes(a: bv16, b: bv16)
    ensures Xor(a, b) == Xor(b, a)
  {
  }

  lemma XorLeft(a: bv16, b: bv16, c: bv16)
    ensures Xor(Xor(a, c), b) == Xor(Xor(a, b), c)
  {
  }

  lemma XorCancel(x: bv16, c: bv16)
    ensures Xor(Xor(x, c), c) == x
  {
  }

  lemma XorAssoc(a: bv16, b: bv16, c: bv16)
    ensures Xor(Xor(a, b), c) == Xor(a, Xor(b, c))
  {
  }

  lemma XorBoth(a: bv16, b: bv16, c: bv16)
    ensures Xor(Xor(a, c), Xor(b, c)) == Xor(a, b)
  {
    hide Xor;
    XorAssoc(Xor(a, c), b, c);
    XorLeft(a, b, c);
    XorCancel(Xor(a, b), c);
  }

  lemma BitStepLinear(x: bv16, y: bv16)
    ensures BitStep(Xor(x, y)) == Xor(BitStep(x), BitStep(y))
  {
    hide BitStep, Odd, Half, Xor;
    BitStepIs(x);
    BitStepIs(y);
    BitStepIs(Xor(x, y));
    OddXor(x, y);
    HalfXor(x, y);
    XorLeft(Half(x), Half(y), 0x8408);
    XorLeft(Half(y), Half(x), 0x8408);
    XorCommutes(Half(x), Half(y));
    XorCommutes(Half(x), Xor(Half(y), 0x8408));
    XorBoth(Half(x), Half(y), 0x8408);
  }

  function Steps(n: nat, w: bv16): (r: bv16) {
    if n == 0 then w else BitStep(Steps(n - 1, w))
  }

  lemma {:induction false} StepsLinear(n: nat, x: bv16, y: bv16)
    ensures Steps(n, Xor(x, y)) == Xor(Steps(n, x), Steps(n, y))
  {
    hide BitStep, Xor;
    if n > 0 {
      StepsLinear(n - 1, x, y);
      BitStepLinear(Steps(n - 1, x), Steps(n - 1, y));
    }
  }

  lemma EightSteps(w: bv16)
    ensures ByteStep(w) == Steps(8, w)
  {
    hide BitStep;
    assert Steps(1, w) == BitStep(w);
    assert Steps(2, w) == BitStep(Steps(1, w));
    assert Steps(3, w) == BitStep(Steps(2, w));
    assert Steps(4, w) == BitStep(Steps(3, w));
    assert Steps(5, w) == BitStep(Steps(4, w));
    assert Steps(6, w) == BitStep(Steps(5, w));
    assert Steps(7, w) == BitStep(Steps(6, w));
  }

  /** The CRC is linear. */
  lemma ByteStepLinear(x: bv16, y: bv16)
    ensures ByteStep(Xor(x, y)) == Xor(ByteStep(x), ByteStep(y))
  {
    hide ByteStep, Xor, Steps;
    EightSteps(x);
    EightSteps(y);
    EightSteps(Xor(x, y));
    StepsLinear(8, x, y);
  }

  /** Eight steps shift an upper octet down, and nothing more. */
  lemma TopShifts(b: octet)
    ensures ByteStep(Top(b)) == Bottom(b)
  {
  }

  lemma Halves(x: bv16)
    ensures x == Xor(Top(High(x)), Bottom(Low(x)))
  {
  }

  lemma ShiftOut(x: bv16)
    ensures ByteStep(x) == Xor(Bottom(High(x)), ByteStep(Bottom(Low(x))))
  {
    hide ByteStep, Xor, Top, Bottom, High, Low;
    Halves(x);
    ByteStepLinear(Top(High(x)), Bottom(Low(x)));
    TopShifts(High(x));
  }

  /** The loop body of `CheckFCS`. */
  function Lookup(w: bv16, b: octet): (r: bv16) {
    Xor(w >> 8, FcsTab(Low(Xor(w, Bottom(b)))))
  }

  lemma HighPart(w: bv16, b: octet)
    ensures Bottom(High(Xor(w, Bottom(b)))) == w >> 8
  {
  }

  lemma LookupParts(w: bv16, b: octet)
    ensures var x := Xor(w, Bottom(b));
            Lookup(w, b) == Xor(Bottom(High(x)), FcsTab(Low(x)))
  {
    hide FcsTab, Xor, Top, Bottom, High, Low;
    HighPart(w, b);
  }

  /** One round of the table loop is one octet of the bitwise CRC. */
  lemma TableRound(w: bv16, b: octet)
    ensures Lookup(w, b) == Absorb(w, b)
  {
    LookupParts(w, b);
    hide Lookup, FcsTab, ByteStep, Xor, Bottom, High, Low;
    var x := Xor(w, Bottom(b));
    ShiftOut(x);
    TableCorrect(Low(x));
  }

  lemma {:induction false} CrcAppend(w: bv16, s: seq<octet>, t: seq<octet>)
    ensures Crc(w, s + t) == Crc(Crc(w, s), t)
    decreases |s|
  {
    hide Absorb;
    if s == [] {
      assert s + t == t;
    } else {
      assert (s + t)[1..] == s[1..] + t;
      CrcAppend(Absorb(w, s[0]), s[1..], t);
    }
  }

  // ---- the sixteen steps of two octets ----

  function Word(lo: octet, hi: octet): (x: bv16) { Xor(Bottom(lo), Top(hi)) }

  function TwoBytes(x: bv16): (r: bv16) { ByteStep(ByteStep(x)) }

  lemma HighOctet(x: bv16, hi: octet)
    ensures ByteStep(Xor(x, Top(hi))) == Xor(ByteStep(x), Bottom(hi))
  {
    hide ByteStep, Xor, Top, Bottom;
    ByteStepLinear(x, Top(hi));
    TopShifts(hi);
  }

  lemma AbsorbTwo(w: bv16, lo: octet, hi: octet)
    ensures Absorb(Absorb(w, lo), hi) == TwoBytes(Xor(w, Word(lo, hi)))
  {
    hide ByteStep, Xor, Bottom, Top;
    HighOctet(Xor(w, Bottom(lo)), hi);
    XorAssoc(w, Bottom(lo), Top(hi));
  }

  /** Two octets enter the register as one word. */
  lemma TwoOctets(w: bv16, lo: octet, hi: octet)
    ensures Crc(w, [lo, hi]) == TwoBytes(Xor(w, Word(lo, hi)))
  {
    hide Absorb, TwoBytes, Word;
    assert [lo, hi][1..] == [hi] && [hi][1..] == [];
    assert Crc(w, [lo, hi]) == Crc(Absorb(w, lo), [hi]);
    assert Crc(Absorb(w, lo), [hi]) == Absorb(Absorb(w, lo), hi);
    AbsorbTwo(w, lo, hi);
  }

  lemma ByteStepInjective(x: bv16, y: bv16)
    ensures ByteStep(x) == ByteStep(y) ==> x == y
  {
  }

  lemma TwoBytesInjective(x: bv16, y: bv16)
    ensures TwoBytes(x) == TwoBytes(y) ==> x == y
  {
    hide ByteStep;
    ByteStepInjective(ByteStep(x), ByteStep(y));
    ByteStepInjective(x, y);
  }

  lemma XorComplement(w: bv16)
    ensures Xor(w, w ^ 0xffff) == 0xffff
  {
  }

  lemma XorInjective(v: bv16, w: bv16, x: bv16)
    ensures Xor(v, x) == Xor(w, x) ==> v == w
    ensures Xor(x, v) == Xor(x, w) ==> v == w
  {
  }

  lemma XorOnes(w: bv16, x: bv16)
    ensures Xor(w, x) == 0xffff <==> x == w ^ 0xffff
  {
    XorComplement(w);
    hide Xor;
    XorInjective(x, w ^ 0xffff, w);
  }

  lemma GoodResidue()
    ensures TwoBytes(0xffff) == GOOD_FCS
  {
  }

  /** The residue names exactly the complemented register. */
  lemma ResidueIff(w: bv16, lo: octet, hi: octet)
    ensures Crc(w, [lo, hi]) == GOOD_FCS <==> Word(lo, hi) == w ^ 0xffff
  {
    hide TwoBytes, Word, Xor, Crc;
    TwoOctets(w, lo, hi);
    GoodResidue();
    TwoBytesInjective(Xor(w, Word(lo, hi)), 0xffff);
    XorOnes(w, Word(lo, hi));
  }

  lemma LowHigh(lo: octet, hi: octet)
    ensures Low(Word(lo, hi)) == lo && High(Word(lo, hi)) == hi
  {
  }

  lemma HighLow(w: bv16)
    ensures Word(Low(w), High(w)) == w
  {
  }

  lemma WordOctets(w: bv16, lo: octet, hi: octet)
    ensures Low(w) == lo && High(w) == hi <==> Word(lo, hi) == w
  {
    LowHigh(lo, hi);
    HighLow(w);
  }

  /** The FCS of RFC 1662: the complement of the register, low octet first. */
  function Fcs(data: seq<octet>): (r: seq<octet>)
    ensures |r| == 2
  {
    var w := Crc(INIT_FCS, data) ^ 0xffff;
    [Low(w), High(w)]
  }

  /** A flag, at least one octet, an FCS, a flag; and the register ends in the good residue. */
  predicate Accepts(frame: seq<octet>) {
    |frame| > 4 && Crc(INIT_FCS, frame[1..|frame| - 1]) == GOOD_FCS
  }

  lemma OneMore(frame: seq<octet>, at: nat)
    requires 1 <= at < |frame|
    ensures Crc(INIT_FCS, frame[1..at + 1]) == Absorb(Crc(INIT_FCS, frame[1..at]), frame[at])
  {
    hide Absorb;
    CrcAppend(INIT_FCS, frame[1..at], [frame[at]]);
    assert frame[1..at] + [frame[at]] == frame[1..at + 1];
    assert [frame[at]][1..] == [];
  }

  lemma SplitTail(frame: seq<octet>, at: nat)
    requires 1 <= at && at + 2 < |frame|
    ensures frame[1..at] + [frame[at], frame[at + 1]] == frame[1..at + 2]
  {
  }

  lemma FcsAtEnd(frame: seq<octet>, w: bv16)
    requires |frame| > 4 && w == Crc(INIT_FCS, frame[1..|frame| - 3])
    ensures var at := |frame| - 3;
            Accepts(frame) <==> Low(w ^ 0xffff) == frame[at] && High(w ^ 0xffff) == frame[at + 1]
  {
    hide Absorb, Low, High, Word;
    var at := |frame| - 3;
    CrcAppend(INIT_FCS, frame[1..at], [frame[at], frame[at + 1]]);
    SplitTail(frame, at);
    ResidueIff(w, frame[at], frame[at + 1]);
    WordOctets(w ^ 0xffff, frame[at], frame[at + 1]);
  }

  /** `CheckFCS`: -1 for a frame without data, else whether the FCS is right. */
  method CheckFCS(frame: seq<octet>) returns (r: int)
    ensures r == if |frame| <= 4 then -1 else if Accepts(frame) then 1 else 0
  {
    hide Lookup, Absorb, Low, High;
    if |frame| <= 4 {
      return -1;
    }
    var wFCS: bv16 := INIT_FCS;
    var at, size := 1, |frame| - 4;
    while size > 0
      invariant 0 <= size && at == |frame| - 3 - size
      invariant wFCS == Crc(INIT_FCS, frame[1..at])
    {
      TableRound(wFCS, frame[at]);
      OneMore(frame, at);
      wFCS := Lookup(wFCS, frame[at]);
      at := at + 1;
      size := size - 1;
    }
    ghost var w := wFCS;
    wFCS := wFCS ^ 0xffff;
    FcsAtEnd(frame, w);
    if Low(wFCS) == frame[at] && High(wFCS) == frame[at + 1] {
      return 1;
    }
    return 0;
  }

  /** A frame is accepted exactly when its last two octets are the FCS of its data. */
  lemma AcceptsIff(frame: seq<octet>)
    requires |frame| > 4
    ensures Accepts(frame) <==> frame[|frame| - 3..|frame| - 1] == Fcs(frame[1..|frame| - 3])
  {
    hide Absorb, Low, High;
    FcsAtEnd(frame, Crc(INIT_FCS, frame[1..|frame| - 3]));
  }

  // ---- what fixes the register it starts with ----

  lemma CrcOfOnes()
    ensures Crc(0xffff, [0xff, 0xff]) == 0
  {
    assert Absorb(0xffff, 0xff) == 0x00ff;
    assert Absorb(0x00ff, 0xff) == 0;
    assert [0xff as octet, 0xff][1..] == [0xff] && [0xff as octet][1..] == [];
  }

  lemma AbsorbInjective(v: bv16, w: bv16, b: octet)
    ensures Absorb(v, b) == Absorb(w, b) ==> v == w
  {
    hide ByteStep, Xor, Bottom;
    ByteStepInjective(Xor(v, Bottom(b)), Xor(w, Bottom(b)));
    XorInjective(v, w, Bottom(b));
  }

  /** Different registers stay different through any common rest. */
  lemma {:induction false} CrcInjective(v: bv16, w: bv16, s: seq<octet>)
    ensures Crc(v, s) == Crc(w, s) ==> v == w
    decreases |s|
  {
    hide Absorb;
    if s != [] {
      CrcInjective(Absorb(v, s[0]), Absorb(w, s[0]), s[1..]);
      AbsorbInjective(v, w, s[0]);
    }
  }

  /** Two octets of ones have themselves as their FCS, and with no other initial register. */
  lemma OnesFcs(w: bv16)
    ensures Fcs([0xff, 0xff]) == [0xff, 0xff]
    ensures Crc(w, [0xff, 0xff]) == 0 <==> w == 0xffff
  {
    hide Absorb;
    CrcOfOnes();
    CrcInjective(w, 0xffff, [0xff, 0xff]);
  }

  lemma SameWords(v: bv16, w: bv16)
    ensures Low(v) == Low(w) && High(v) == High(w) ==> v == w
  {
    HighLow(v);
    HighLow(w);
  }

  /** A zero octet put in front of any data changes its FCS. */
  lemma LeadingZeroSeen(data: seq<octet>)
    ensures Fcs([0] + data) != Fcs(data)
  {
    assert Absorb(0xffff, 0) != 0xffff;
    hide Absorb, Low, High;
    assert ([0] + data)[1..] == data;
    var v, w := Crc(INIT_FCS, [0] + data), Crc(INIT_FCS, data);
    CrcInjective(Absorb(0xffff, 0), 0xffff, data);
    SameWords(v ^ 0xffff, w ^ 0xffff);
    XorOnes(v, w ^ 0xffff);
    XorOnes(w, v ^ 0xffff);
  }

  lemma EchoSteps()
    ensures Absorb(0xffff, 0xff) == 0x00ff && Absorb(0x00ff, 0x03) == 0x3de3 && Absorb(0x3de3, 0xc0) == 0x13a4
    ensures Absorb(0x13a4, 0x21) == 0xd3b6 && Absorb(0xd3b6, 0x09) == 0x4daf && Absorb(0x4daf, 0x01) == 0x4c39
    ensures Absorb(0x4c39, 0x00) == 0xac0e && Absorb(0xac0e, 0x04) == 0xaff6 && Absorb(0xaff6, 0x09) == 0x0fd7
    ensures Absorb(0x0fd7, 0x50) == 0xf0b8
  {
  }

  lemma EchoRegister(data: seq<octet>)
    requires data == [0xff, 0x03, 0xc0, 0x21, 0x09, 0x01, 0x00, 0x04, 0x09, 0x50]
    requires Absorb(0xffff, 0xff) == 0x00ff && Absorb(0x00ff, 0x03) == 0x3de3 && Absorb(0x3de3, 0xc0) == 0x13a4
    requires Absorb(0x13a4, 0x21) == 0xd3b6 && Absorb(0xd3b6, 0x09) == 0x4daf && Absorb(0x4daf, 0x01) == 0x4c39
    requires Absorb(0x4c39, 0x00) == 0xac0e && Absorb(0xac0e, 0x04) == 0xaff6 && Absorb(0xaff6, 0x09) == 0x0fd7
    requires Absorb(0x0fd7, 0x50) == 0xf0b8
    ensures Crc(0xffff, data) == 0xf0b8
  {
    hide Absorb;
    assert Crc(0x0fd7, data[9..]) == 0xf0b8 by { assert data[9..][1..] == []; }
    assert Crc(0xaff6, data[8..]) == 0xf0b8 by { assert data[8..][1..] == data[9..]; }
    assert Crc(0xac0e, data[7..]) == 0xf0b8 by { assert data[7..][1..] == data[8..]; }
    assert Crc(0x4c39, data[6..]) == 0xf0b8 by { assert data[6..][1..] == data[7..]; }
    assert Crc(0x4daf, data[5..]) == 0xf0b8 by { assert data[5..][1..] == data[6..]; }
    assert Crc(0xd3b6, data[4..]) == 0xf0b8 by { assert data[4..][1..] == data[5..]; }
    assert Crc(0x13a4, data[3..]) == 0xf0b8 by { assert data[3..][1..] == data[4..]; }
    assert Crc(0x3de3, data[2..]) == 0xf0b8 by { assert data[2..][1..] == data[3..]; }
    assert Crc(0x00ff, data[1..]) == 0xf0b8 by { assert data[1..][1..] == data[2..]; }
  }

  /** An LCP echo request of RFC 1661 in the frame of RFC 1662. */
  lemma EchoRequestAccepted()
    ensures Accepts([0x7e, 0xff, 0x03, 0xc0, 0x21, 0x09, 0x01, 0x00, 0x04, 0x09, 0x50, 0x7e])
  {
    hide Absorb;
    var data: seq<octet> := [0xff, 0x03, 0xc0, 0x21, 0x09, 0x01, 0x00, 0x04, 0x09, 0x50];
    EchoSteps();
    EchoRegister(data);
    var frame: seq<octet> := [0x7e] + data + [0x7e];
    assert frame[1..|frame| - 1] == data;
    assert frame == [0x7e, 0xff, 0x03, 0xc0, 0x21, 0x09, 0x01, 0x00, 0x04, 0x09, 0x50, 0x7e];
  }

  /** Data followed by its FCS is accepted. */
  lemma FcsAccepted(flag: octet, data: seq<octet>)
    requires data != []
    ensures Accepts([flag] + data + Fcs(data) + [flag])
  {
    hide Absorb, Low, High;
    var frame := [flag] + data + Fcs(data) + [flag];
    var w := Crc(INIT_FCS, data);
    assert frame[1..|frame| - 3] == data;
    FcsAtEnd(frame, w);
  }

  lemma SplitAt(f: seq<octet>, k: nat)
    requires 1 <= k && k + 2 < |f|
    ensures Crc(INIT_FCS, f[1..|f| - 1]) == Crc(Crc(Crc(INIT_FCS, f[1..k]), f[k..k + 2]), f[k + 2..|f| - 1])
  {
    hide Absorb, TwoBytes, Word;
    var n := |f| - 1;
    CrcAppend(INIT_FCS, f[1..k], f[k..k + 2]);
    CrcAppend(INIT_FCS, f[1..k] + f[k..k + 2], f[k + 2..n]);
    assert f[1..k] + f[k..k + 2] + f[k + 2..n] == f[1..n];
  }

  lemma WordsDiffer(w: bv16, a: octet, b: octet, c: octet, d: octet)
    ensures TwoBytes(Xor(w, Word(a, b))) == TwoBytes(Xor(w, Word(c, d))) ==> a == c && b == d
  {
    hide TwoBytes, Xor, Word;
    TwoBytesInjective(Xor(w, Word(a, b)), Xor(w, Word(c, d)));
    XorInjective(Word(a, b), Word(c, d), w);
    WordOctets(Word(a, b), a, b);
    WordOctets(Word(c, d), c, d);
  }

  /** No corruption inside two neighbouring octets goes unnoticed: of two frames of one length that
      differ there and nowhere else, at most one is accepted. */
  lemma BurstDetected(f: seq<octet>, g: seq<octet>, k: nat)
    requires |f| == |g| && 1 <= k && k + 2 < |f|
    requires f[..k] == g[..k] && f[k + 2..] == g[k + 2..] && f[k..k + 2] != g[k..k + 2]
    ensures !(Accepts(f) && Accepts(g))
  {
    hide Absorb, TwoBytes, Word;
    var n := |f| - 1;
    SplitAt(f, k);
    SplitAt(g, k);
    assert f[1..k] == f[..k][1..] && g[1..k] == g[..k][1..];
    assert f[k + 2..n] == f[k + 2..][..n - k - 2] && g[k + 2..n] == g[k + 2..][..n - k - 2];
    var w := Crc(INIT_FCS, f[1..k]);
    CrcInjective(Crc(w, f[k..k + 2]), Crc(w, g[k..k + 2]), f[k + 2..n]);
    TwoOctets(w, f[k], f[k + 1]);
    TwoOctets(w, g[k], g[k + 1]);
    assert f[k..k + 2] == [f[k], f[k + 1]] && g[k..k + 2] == [g[k], g[k + 1]];
    WordsDiffer(w, f[k], f[k + 1], g[k], g[k + 1]);
  }
}
