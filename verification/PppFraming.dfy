/** The receive side of PPP framing: the flag automaton, the unstuffing, and both against the framing
    of RFC 1662, section 4. */
module PppFraming {
  import opened PppFcs

  const FLAG: octet := 0x7e
  const ESCAPE: octet := 0x7d

  /** The states of `GetPPP7EState`, named after what the buffer looks like. */
  datatype State =
    | X | F | F_DATA | F_DATA_F | F_F | F_F_DATA
    | DATA_O | DATA_F | DATA_F_DATA | DATA_F_F | DATA_F_F_DATA

  function Step(s: State, b: octet): (r: State) {
    if b == FLAG then
      match s
      case DATA_F => DATA_F_F
      case DATA_O => DATA_F
      case X => F
      case F => F_F
      case F_DATA => F_DATA_F
      case _ => s
    else
      match s
      case F_F => F_F_DATA
      case DATA_F_F => DATA_F_F_DATA
      case DATA_F => DATA_F_DATA
      case X => DATA_O
      case F => F_DATA
      case _ => s
  }

  function Run(buf: seq<octet>): (s: State) {
    if buf == [] then X else Step(Run(buf[..|buf| - 1]), buf[|buf| - 1])
  }

  // ---- what the states mean ----

  /** The position of the first flag from `k` on, or the length of the buffer. */
  function NextFlag(buf: seq<octet>, k: nat): (r: nat)
    requires k <= |buf|
    ensures k <= r <= |buf|
    ensures forall j :: k <= j < r ==> buf[j] != FLAG
    ensures r < |buf| ==> buf[r] == FLAG
    decreases |buf| - k
  {
    if k == |buf| || buf[k] == FLAG then k else NextFlag(buf, k + 1)
  }

  /** The position behind the run of flags that starts at `k`. */
  function FlagsEnd(buf: seq<octet>, k: nat): (r: nat)
    requires k <= |buf|
    ensures k <= r <= |buf|
    ensures forall j :: k <= j < r ==> buf[j] == FLAG
    ensures r < |buf| ==> buf[r] != FLAG
    decreases |buf| - k
  {
    if k == |buf| || buf[k] != FLAG then k else FlagsEnd(buf, k + 1)
  }

  /** The shape of a buffer: data before the first flag or not, one flag or several, data behind or not,
      and, for one leading flag, whether another flag follows the data. */
  function Shape(buf: seq<octet>): (s: State) {
    var first := NextFlag(buf, 0);
    var last := FlagsEnd(buf, first);
    var data := last < |buf|;
    if buf == [] then X
    else if first == |buf| then DATA_O
    else if first > 0 then
      if last == first + 1 then if data then DATA_F_DATA else DATA_F
      else if data then DATA_F_F_DATA else DATA_F_F
    else if last > 1 then if data then F_F_DATA else F_F
    else if !data then F
    else if NextFlag(buf, last) < |buf| then F_DATA_F else F_DATA
  }

  lemma {:induction false} NextFlagIs(buf: seq<octet>, k: nat, r: nat)
    requires k <= r <= |buf|
    requires forall j :: k <= j < r ==> buf[j] != FLAG
    requires r < |buf| ==> buf[r] == FLAG
    ensures NextFlag(buf, k) == r
    decreases |buf| - k
  {
  }

  lemma {:induction false} FlagsEndIs(buf: seq<octet>, k: nat, r: nat)
    requires k <= r <= |buf|
    requires forall j :: k <= j < r ==> buf[j] == FLAG
    requires r < |buf| ==> buf[r] != FLAG
    ensures FlagsEnd(buf, k) == r
    decreases |buf| - k
  {
  }

  /** How the three positions move when an octet is added. */
  lemma PositionsGrow(s: seq<octet>, b: octet, k: nat)
    requires k <= |s|
    ensures NextFlag(s + [b], k) ==
              if NextFlag(s, k) == |s| && b != FLAG then |s| + 1 else NextFlag(s, k)
    ensures FlagsEnd(s + [b], k) ==
              if FlagsEnd(s, k) == |s| && b == FLAG then |s| + 1 else FlagsEnd(s, k)
  {
    var n, e := NextFlag(s, k), FlagsEnd(s, k);
    NextFlagIs(s + [b], k, if n == |s| && b != FLAG then n + 1 else n);
    FlagsEndIs(s + [b], k, if e == |s| && b == FLAG then e + 1 else e);
  }

  lemma ShapeStepFresh(s: seq<octet>, b: octet)
    requires NextFlag(s, 0) == |s|
    ensures Shape(s + [b]) == Step(Shape(s), b)
  {
    hide NextFlag, FlagsEnd;
    PositionsGrow(s, b, 0);
    PositionsGrow(s, b, |s|);
    NextFlagIs(s + [b], |s| + 1, |s| + 1);
  }

  lemma ShapeStepFlagFirst(s: seq<octet>, b: octet)
    requires NextFlag(s, 0) == 0 < |s|
    ensures Shape(s + [b]) == Step(Shape(s), b)
  {
    hide NextFlag, FlagsEnd;
    PositionsGrow(s, b, 0);
    PositionsGrow(s, b, FlagsEnd(s, 0));
    assert (s + [b])[0] == FLAG;
    assert FlagsEnd(s, 0) == |s| ==> NextFlag(s, |s|) == |s|;
  }

  lemma ShapeDataFirst(s: seq<octet>)
    requires 0 < NextFlag(s, 0) < |s|
    ensures var first := NextFlag(s, 0);
            var last := FlagsEnd(s, first);
            && first < last <= |s|
            && Shape(s) == if last == first + 1 then if last < |s| then DATA_F_DATA else DATA_F
                           else if last < |s| then DATA_F_F_DATA else DATA_F_F
  {
  }

  lemma ShapeStepDataFirst(s: seq<octet>, b: octet)
    requires 0 < NextFlag(s, 0) < |s|
    ensures Shape(s + [b]) == Step(Shape(s), b)
  {
    hide NextFlag, FlagsEnd, Shape;
    PositionsGrow(s, b, 0);
    PositionsGrow(s, b, NextFlag(s, 0));
    ShapeDataFirst(s);
    ShapeDataFirst(s + [b]);
  }

  lemma ShapeStep(s: seq<octet>, b: octet)
    ensures Shape(s + [b]) == Step(Shape(s), b)
  {
    hide NextFlag, FlagsEnd, Shape, Step;
    if NextFlag(s, 0) == |s| {
      ShapeStepFresh(s, b);
    } else if NextFlag(s, 0) == 0 {
      ShapeStepFlagFirst(s, b);
    } else {
      ShapeStepDataFirst(s, b);
    }
  }

  lemma EmptyShape()
    ensures Shape([]) == X
  {
  }

  /** The automaton computes the shape of every buffer. */
  lemma {:induction false} RunIsShape(buf: seq<octet>)
    ensures Run(buf) == Shape(buf)
  {
    hide Shape;
    if buf == [] {
      EmptyShape();
    } else {
      var s, b := buf[..|buf| - 1], buf[|buf| - 1];
      RunIsShape(s);
      ShapeStep(s, b);
      assert s + [b] == buf;
    }
  }

  /** F_DATA_F means exactly: a flag, one or more other octets, and another flag. */
  lemma FramedIff(buf: seq<octet>)
    ensures Run(buf) == F_DATA_F <==>
              exists k :: 2 <= k < |buf| && buf[0] == 0x7e && buf[k] == 0x7e
                          && forall j :: 0 < j < k ==> buf[j] != 0x7e
  {
    RunIsShape(buf);
    if Run(buf) == F_DATA_F {
      assert NextFlag(buf, 0) == 0 && FlagsEnd(buf, 0) == 1;
      var k := NextFlag(buf, 1);
      assert 2 <= k < |buf|;
    }
    if k :| 2 <= k < |buf| && buf[0] == 0x7e && buf[k] == 0x7e && forall j :: 0 < j < k ==> buf[j] != 0x7e {
      NextFlagIs(buf, 0, 0);
      FlagsEndIs(buf, 0, 1);
      NextFlagIs(buf, 1, k);
    }
  }

  /** `GetPPP7EState`: the state, and the position of the first flag, -1 if there is none. */
  method GetPPP7EState(buf: seq<octet>) returns (state: State, first: int)
    ensures state == Run(buf)
    ensures first == if FLAG in buf then NextFlag(buf, 0) else -1
  {
    var i := 0;
    state, first := X, -1;
    while i < |buf|
      invariant 0 <= i <= |buf| && state == Run(buf[..i])
      invariant first == -1 ==> (state == X || state == DATA_O) && FLAG !in buf[..i]
      invariant first != -1 ==> 0 <= first < i && first == NextFlag(buf, 0) && state != X && state != DATA_O
    {
      assert buf[..i + 1][..i] == buf[..i];
      if buf[i] == FLAG {
        match state {
          case DATA_F => state := DATA_F_F;
          case DATA_O => state := DATA_F; first := i; NextFlagIs(buf, 0, i);
          case X => state := F; first := i; NextFlagIs(buf, 0, i);
          case F => state := F_F;
          case F_DATA => state := F_DATA_F;
          case _ =>
        }
      } else {
        match state {
          case F_F => state := F_F_DATA;
          case DATA_F_F => state := DATA_F_F_DATA;
          case DATA_F => state := DATA_F_DATA;
          case X => state := DATA_O;
          case F => state := F_DATA;
          case _ =>
        }
      }
      i := i + 1;
    }
    assert buf[..i] == buf;
  }

  // ---- unstuffing ----

  function Flip(b: octet): (r: octet) { b ^ 0x20 }

  function Unstuff(s: seq<octet>): (r: seq<octet>)
    ensures |r| <= |s|
    decreases |s|
  {
    if s == [] then []
    else if s[0] == ESCAPE && |s| > 1 then [Flip(s[1])] + Unstuff(s[2..])
    else [s[0]] + Unstuff(s[1..])
  }

  /** Whether an escape sequence is found on the way. */
  predicate HasEscape(s: seq<octet>)
    decreases |s|
  {
    if |s| < 2 then false
    else s[0] == ESCAPE || HasEscape(s[1..])
  }

  // The octets themselves: 0x7d escapes what follows it, with one bit turned.

  lemma UnstuffEscape(c: octet, rest: seq<octet>)
    ensures Unstuff([ESCAPE, c] + rest) == [Flip(c)] + Unstuff(rest)
  {
    hide Flip;
    assert ([ESCAPE, c] + rest)[2..] == rest;
  }

  lemma UnstuffPair(c: octet, rest: seq<octet>)
    ensures Unstuff([0x7d, c] + rest) == [c ^ 0x20] + Unstuff(rest)
  {
    UnstuffEscape(c, rest);
  }

  /** What a peer sends for a flag, for an escape and for a control character; and an escape at the very end,
      which is taken as it is. */
  lemma EscapesUndone(b: octet, rest: seq<octet>)
    ensures Unstuff([0x7d, 0x5e] + rest) == [0x7e] + Unstuff(rest)
    ensures Unstuff([0x7d, 0x5d] + rest) == [0x7d] + Unstuff(rest)
    ensures b < 0x20 ==> Unstuff([0x7d, b + 0x20] + rest) == [b] + Unstuff(rest)
    ensures Unstuff([0x7d]) == [0x7d]
  {
    UnstuffPair(0x5e, rest);
    UnstuffPair(0x5d, rest);
    if b < 0x20 {
      UnstuffPair(b + 0x20, rest);
      assert (b + 0x20) ^ 0x20 == b;
    }
  }

  /** An escape is reported when there is one with something behind it. */
  lemma {:induction false} HasEscapeIff(s: seq<octet>)
    ensures HasEscape(s) <==> exists k :: 0 <= k < |s| - 1 && s[k] == 0x7d
    decreases |s|
  {
    if |s| >= 2 {
      HasEscapeIff(s[1..]);
      if s[0] != 0x7d {
        assert forall k :: 0 < k < |s| ==> s[k] == s[1..][k - 1];
        assert forall k :: 0 <= k < |s| - 1 ==> s[1..][k] == s[k + 1];
      }
    }
  }

  lemma JoinStep(done: seq<octet>, b: octet, rest: seq<octet>)
    ensures done + ([b] + rest) == done + [b] + rest
  {
  }

  /** `DecodePPP`, into the static buffer of 65535 octets. */
  method DecodePPP(buffer: array<octet>, src: seq<octet>) returns (stuffing: bool, size: nat)
    requires buffer.Length == 65535 && |src| <= 65535
    modifies buffer
    ensures size <= |src| && buffer[..size] == Unstuff(src) && stuffing == HasEscape(src)
  {
    hide Flip;
    var i, j := 0, 0;
    stuffing := false;
    while i < |src|
      invariant 0 <= j <= i <= |src|
      invariant buffer[..j] + Unstuff(src[i..]) == Unstuff(src)
      invariant HasEscape(src) == (stuffing || HasEscape(src[i..]))
      decreases |src| - i
    {
      ghost var done := buffer[..j];
      if src[i] == ESCAPE && i + 1 < |src| {
        assert src[i..][2..] == src[i + 2..];
        buffer[j] := Flip(src[i + 1]);
        JoinStep(done, Flip(src[i + 1]), Unstuff(src[i + 2..]));
        stuffing := true;
        i := i + 2;
      } else {
        assert src[i..][1..] == src[i + 1..];
        buffer[j] := src[i];
        JoinStep(done, src[i], Unstuff(src[i + 1..]));
        i := i + 1;
      }
      j := j + 1;
      assert buffer[..j] == done + [buffer[j - 1]];
    }
    assert buffer[..j] + [] == buffer[..j];
    size := j;
  }

  // ---- a frame as RFC 1662 builds it ----

  /** The octets a sender must escape, and those it may: the control characters. */
  predicate EscapeSet(accm: set<octet>) {
    FLAG in accm && ESCAPE in accm && forall b :: b in accm ==> b < 0x20 || b == FLAG || b == ESCAPE
  }

  function Stuff(accm: set<octet>, s: seq<octet>): (r: seq<octet>) {
    if s == [] then []
    else (if s[0] in accm then [ESCAPE, Flip(s[0])] else [s[0]]) + Stuff(accm, s[1..])
  }

  function Frame(accm: set<octet>, payload: seq<octet>): (r: seq<octet>) {
    [FLAG] + Stuff(accm, payload + Fcs(payload)) + [FLAG]
  }

  /** What goes out for an octet that is escaped. */
  lemma StuffedOctets(accm: set<octet>, b: octet, rest: seq<octet>)
    requires EscapeSet(accm)
    ensures Stuff(accm, [0x7e] + rest) == [0x7d, 0x5e] + Stuff(accm, rest)
    ensures Stuff(accm, [0x7d] + rest) == [0x7d, 0x5d] + Stuff(accm, rest)
    ensures b in accm && b < 0x20 ==> Stuff(accm, [b] + rest) == [0x7d, b + 0x20] + Stuff(accm, rest)
    ensures b !in accm ==> Stuff(accm, [b] + rest) == [b] + Stuff(accm, rest)
  {
    assert ([0x7e as octet] + rest)[1..] == rest && ([0x7d as octet] + rest)[1..] == rest && ([b] + rest)[1..] == rest;
    assert Flip(0x7e) == 0x5e && Flip(0x7d) == 0x5d;
    assert b < 0x20 ==> Flip(b) == b + 0x20;
  }

  lemma FlipTwice(b: octet)
    ensures Flip(Flip(b)) == b
  {
  }

  lemma FlippedIsNoFlag(b: octet)
    requires b < 0x20 || b == FLAG || b == ESCAPE
    ensures Flip(b) != FLAG
  {
  }

  lemma {:induction false} StuffedHasNoFlag(accm: set<octet>, s: seq<octet>)
    requires EscapeSet(accm)
    ensures FLAG !in Stuff(accm, s)
    ensures |s| <= |Stuff(accm, s)|
  {
    hide Flip;
    if s != [] {
      StuffedHasNoFlag(accm, s[1..]);
      if s[0] in accm {
        FlippedIsNoFlag(s[0]);
      }
    }
  }

  lemma UnstuffPlain(b: octet, rest: seq<octet>)
    requires b != 0x7d
    ensures Unstuff([b] + rest) == [b] + Unstuff(rest)
  {
    hide Flip;
    assert ([b] + rest)[1..] == rest;
  }

  /** Unstuffing undoes stuffing, whatever follows. */
  lemma {:induction false} UnstuffStuff(accm: set<octet>, s: seq<octet>, tail: seq<octet>)
    requires ESCAPE in accm
    ensures Unstuff(Stuff(accm, s) + tail) == s + Unstuff(tail)
  {
    hide Flip, Unstuff;
    if s == [] {
      assert Stuff(accm, s) + tail == tail;
    } else {
      UnstuffStuff(accm, s[1..], tail);
      var code := if s[0] in accm then [ESCAPE, Flip(s[0])] else [s[0]];
      var rest := Stuff(accm, s[1..]) + tail;
      assert code + Stuff(accm, s[1..]) + tail == code + rest;
      FlipTwice(s[0]);
      UnstuffEscape(Flip(s[0]), rest);
      if s[0] !in accm {
        UnstuffPlain(s[0], rest);
      }
      JoinStep([], s[0], s[1..] + Unstuff(tail));
      assert s == [s[0]] + s[1..];
    }
  }

  lemma LastFlag()
    ensures Unstuff([FLAG]) == [FLAG]
  {
    assert [FLAG][1..] == [];
  }

  /** Every framed payload is recognised, comes out of the unstuffing as it went in, between its two
      flags, and passes the FCS check. */
  lemma FrameReceived(accm: set<octet>, payload: seq<octet>)
    requires EscapeSet(accm) && payload != []
    ensures Run(Frame(accm, payload)) == F_DATA_F
    ensures Unstuff(Frame(accm, payload)) == [FLAG] + payload + Fcs(payload) + [FLAG]
    ensures Accepts(Unstuff(Frame(accm, payload)))
  {
    hide Run, Fcs, Accepts;
    var data := payload + Fcs(payload);
    var body := Stuff(accm, data);
    var frame := Frame(accm, payload);
    StuffedHasNoFlag(accm, data);
    FramedIff(frame);
    assert frame[0] == FLAG && frame[|body| + 1] == FLAG;
    forall j | 0 < j < |body| + 1 ensures frame[j] != FLAG {
      assert frame[j] == body[j - 1];
    }
    UnstuffPlain(FLAG, body + [FLAG]);
    assert [FLAG] + (body + [FLAG]) == frame;
    UnstuffStuff(accm, data, [FLAG]);
    LastFlag();
    assert [FLAG] + (data + [FLAG]) == [FLAG] + payload + Fcs(payload) + [FLAG];
    FcsAccepted(FLAG, payload);
  }
}
