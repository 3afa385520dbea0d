/** The alarm state machine of ntpd.c: `CompareNTPSTS` and the level update of `SetNTPSTS`. */
module NtpAlarm {
  import opened Bytes

  const NORMAL: byte := 0x03
  const CRITICAL: byte := 0x06

  /** One line of the peer list. */
  datatype Server = Server(sym: char, when: nat, poll: nat, reach: nat)

  /** A selected or candidate server that was heard of within its interval. */
  predicate Healthy(s: Server) {
    (s.sym == '*' || s.sym == '+') && s.when <= if s.poll < s.reach then s.reach else s.poll
  }

  predicate AnyHealthy(cur: seq<Server>) {
    exists i :: 0 <= i < |cur| && Healthy(cur[i])
  }

  /** The level a poll shows. */
  function Level(cur: seq<Server>): (t: byte) {
    if AnyHealthy(cur) then NORMAL else CRITICAL
  }

  /** A message to the alarm service: item 1 is the daemon, item 2 the channel. */
  datatype Alarm = Alarm(item: int, cur: byte, was: byte)

  /** `ucStatus`, `ucDStatus`, `ucStatusFlag`, the last peer list, the two published octets, and the
      alarms sent so far. */
  datatype State = State(channel: byte, daemon: byte, flag: byte, last: seq<Server>,
                         hw0: byte, hw1: byte, sent: seq<Alarm>)

  const START: State := State(0, 0, 0, [], 0, 0, [])

  /** `h &= 0x80; h |= level` */
  function Publish(h: byte, level: byte): (r: byte)
    requires level < 0x80
    ensures r / 0x80 == h / 0x80 && r % 0x80 == level
  {
    h / 0x80 * 0x80 + level
  }

  /** `SetNTPSTS`: the level is published behind the mask bit, and the alarm sent if that is clear. */
  function SetLevel(s: State, item: int, level: byte, was: byte): (r: State)
    requires level < 0x80
  {
    var h := Publish(if item == 1 then s.hw0 else s.hw1, level);
    var t := if item == 1 then s.(hw0 := h) else s.(hw1 := h);
    if h >= 0x80 then t else t.(sent := s.sent + [Alarm(item, level, was)])
  }

  /** What its callers make of it: a masked item is left alone. */
  function Raise(s: State, item: int, level: byte, was: byte): (r: State)
    requires level < 0x80
  {
    if (if item == 1 then s.hw0 else s.hw1) >= 0x80 then s else SetLevel(s, item, level, was)
  }

  /** The list has become empty: the daemon is down, and the channel with it. */
  function Down(s: State): (r: State) {
    if s.daemon == CRITICAL then s.(last := []) else
    var a := if s.daemon == NORMAL then Raise(s, 1, CRITICAL, s.daemon) else s;
    var b := a.(daemon := CRITICAL);
    var c := if b.channel == NORMAL then Raise(b, 2, CRITICAL, b.channel).(channel := CRITICAL) else b;
    c.(last := [])
  }

  /** The list is there again: the daemon is up. */
  function Up(s: State, cur: seq<Server>): (r: State) {
    if s.daemon == NORMAL then s.(last := cur) else
    var a := if s.daemon == CRITICAL then Raise(s, 1, NORMAL, s.daemon) else s;
    a.(hw0 := Publish(a.hw0, NORMAL), daemon := NORMAL, last := cur)
  }

  /** The count of critical polls in a row. */
  function Counted(s: State, t: byte): (r: State) {
    var count := (s.flag + 1) % 0x100;
    s.(flag := if t == CRITICAL && s.daemon == NORMAL then (if count > 4 then count - 1 else count) else 0)
  }

  /** The change of the channel's level, held back until the count is above 3. */
  function Changed(s: State, t: byte): (r: State)
    requires t < 0x80
  {
    if t == s.channel then s
    else if s.channel == CRITICAL then Raise(s, 2, NORMAL, s.channel).(channel := t)
    else if s.channel == NORMAL then
      if s.flag > 3 then Raise(s.(flag := 3), 2, CRITICAL, s.channel).(channel := t) else s
    else if s.channel == 0 then s.(hw1 := Publish(s.hw1, t), channel := t)
    else s.(channel := t)
  }

  /** A further poll of a running daemon. */
  function Watch(s: State, cur: seq<Server>): (r: State) {
    var t := Level(cur);
    var a := s.(last := cur, hw0 := if s.hw0 == 0 then NORMAL else s.hw0);
    var c := Changed(Counted(a, t), t);
    if c.hw1 == 0 && c.channel < 0x80 then c.(hw1 := c.channel) else c
  }

  /** `CompareNTPSTS` */
  function Poll(s: State, cur: seq<Server>): (r: State) {
    if cur == [] then if s.last == [] then s else Down(s)
    else if s.last == [] then Up(s, cur)
    else Watch(s, cur)
  }

  /** What holds of every reachable state: a list that is there means a daemon that is up, a normal
      channel means a list that is there, and the levels are levels. */
  predicate Sane(s: State) {
    && (s.last != [] ==> s.daemon == NORMAL)
    && (s.channel == NORMAL ==> s.last != [])
    && s.channel in {0, NORMAL, CRITICAL} && s.daemon in {0, NORMAL, CRITICAL}
    && (s.daemon == 0 ==> s.channel == 0)
    && s.flag <= 4
  }

  // ---- what one poll does ----

  /** NORMAL is 3 and CRITICAL is 6; a poll shows 3 exactly if some selected or candidate server was heard of
      within its polling interval or its reach. */
  lemma LevelIff(cur: seq<Server>)
    ensures Level(cur) == if exists i :: 0 <= i < |cur| && cur[i].sym in {'*', '+'}
                                        && (cur[i].when <= cur[i].poll || cur[i].when <= cur[i].reach)
                          then 3 else 6
  {
    forall i | 0 <= i < |cur|
      ensures Healthy(cur[i]) <==> cur[i].sym in {'*', '+'}
                                   && (cur[i].when <= cur[i].poll || cur[i].when <= cur[i].reach)
    {
    }
  }

  /** The levels after a poll: the daemon is up while there is a list, and down once it is gone; the channel
      goes down with it, is first set by the poll, and otherwise follows the poll, but from 3 to 6 only at the
      fourth time, which the flag counts. */
  lemma LevelsAfter(s: State, cur: seq<Server>)
    requires Sane(s)
    ensures var r := Poll(s, cur);
            && r.last == cur
            && r.daemon == (if cur == [] then if s.last == [] then s.daemon else 6 else 3)
            && r.channel == (if cur == [] then if s.channel == 3 then 6 else s.channel
                             else if s.last == [] then s.channel
                             else if s.channel == 3 && Level(cur) == 6 then if s.flag >= 3 then 6 else 3
                             else Level(cur))
            && r.flag == if cur == [] || s.last == [] then s.flag
                         else if Level(cur) == 3 then 0
                         else if s.flag < 3 then s.flag + 1 else if s.channel == 3 then 3 else 4
  {
    hide AnyHealthy, Publish;
  }

  /** The alarm for an item whose level goes from `was` to `now`. */
  function AlarmDue(item: int, h: byte, now: byte, was: byte): (a: seq<Alarm>) {
    if h < 0x80 && was != 0 && now != was then [Alarm(item, now, was)] else []
  }

  /** Each poll sends exactly one alarm for an item that is not masked and whose level changes, unless that is
      its first setting. */
  lemma AlarmsAfter(s: State, cur: seq<Server>)
    requires Sane(s)
    ensures var r := Poll(s, cur);
            r.sent == s.sent + AlarmDue(1, s.hw0, r.daemon, s.daemon) + AlarmDue(2, s.hw1, r.channel, s.channel)
  {
    hide AnyHealthy, Publish;
  }

  lemma PublishLow(h: byte)
    ensures forall level: byte :: level < 0x80 ==> Publish(h, level) == h / 0x80 * 0x80 + level
    ensures h < 0x80 ==> h / 0x80 == 0
  {
  }

  /** What is published: the new level when an item changes, behind the mask bit where the change is that the
      daemon comes up or the channel is first set, and not at all where a masked item changes otherwise; and the
      level again when someone has set the octet to 0. */
  lemma PublishedAfter(s: State, cur: seq<Server>)
    requires Sane(s)
    ensures var r := Poll(s, cur);
            var watch := cur != [] && s.last != [];
            && r.hw0 == (if cur != [] && s.last == [] && s.daemon != 3 then s.hw0 / 0x80 * 0x80 + 3
                         else if r.daemon != s.daemon && s.hw0 < 0x80 then r.daemon
                         else if watch && s.hw0 == 0 then 3 else s.hw0)
            && r.hw1 == if watch && s.channel == 0 then s.hw1 / 0x80 * 0x80 + r.channel
                        else if r.channel != s.channel && s.hw1 < 0x80 then r.channel
                        else if watch && s.hw1 == 0 then r.channel else s.hw1
  {
    hide AnyHealthy;
    PublishLow(s.hw0);
    PublishLow(s.hw1);
    hide Publish;
  }

  /** The first setting of the channel, under any mask. */
  lemma FirstSetting(s: State, cur: seq<Server>)
    requires Sane(s) && s.channel == 0 && cur != [] && s.last != []
    ensures var r := Poll(s, cur);
            && (r.channel == 3 <==> exists i :: 0 <= i < |cur| && cur[i].sym in {'*', '+'}
                                              && (cur[i].when <= cur[i].poll || cur[i].when <= cur[i].reach))
            && r.channel in {3, 6} && r.hw1 % 0x80 == r.channel && r.sent == s.sent
  {
    hide AnyHealthy, Poll, Level;
    LevelIff(cur);
    LevelsAfter(s, cur);
    AlarmsAfter(s, cur);
    PublishedAfter(s, cur);
  }

  // ---- runs from the zero state ----

  /** `fidb` starts with `mask` in the two published octets. */
  function After(hw0: byte, hw1: byte, ps: seq<seq<Server>>): (s: State) {
    if ps == [] then START.(hw0 := hw0, hw1 := hw1)
    else Poll(After(hw0, hw1, ps[..|ps| - 1]), ps[|ps| - 1])
  }

  /** How many of the last polls in a row showed servers, but none of them healthy. */
  function Streak(ps: seq<seq<Server>>): (n: nat) {
    if ps == [] then 0
    else if ps[|ps| - 1] != [] && !AnyHealthy(ps[|ps| - 1]) then Streak(ps[..|ps| - 1]) + 1
    else 0
  }

  /** One poll keeps a state sane, and the flag of a normal channel in step with the streak `n`. */
  lemma PollSane(s: State, cur: seq<Server>, n: nat)
    requires Sane(s) && (s.channel == NORMAL ==> s.flag == n <= 3)
    ensures var n' := if cur != [] && !AnyHealthy(cur) then n + 1 else 0;
            var r := Poll(s, cur);
            && Sane(r) && (r.channel == NORMAL ==> r.flag == n' <= 3)
            && (s.channel == NORMAL ==> r.channel in {NORMAL, CRITICAL})
            && (s.channel == NORMAL ==> (r.channel == CRITICAL <==> cur == [] || n' == 4))
            && (s.channel == CRITICAL ==> (r.channel == NORMAL <==> cur != [] && s.last != [] && AnyHealthy(cur)))
  {
    hide AnyHealthy, Publish;
  }

  lemma StartSane(hw0: byte, hw1: byte)
    ensures Sane(START.(hw0 := hw0, hw1 := hw1))
  {
  }

  lemma {:induction false} RunSane(hw0: byte, hw1: byte, ps: seq<seq<Server>>)
    ensures Sane(After(hw0, hw1, ps))
    ensures After(hw0, hw1, ps).channel == NORMAL ==> After(hw0, hw1, ps).flag == Streak(ps) <= 3
  {
    hide AnyHealthy, Poll, Sane;
    if ps == [] {
      StartSane(hw0, hw1);
    } else {
      var before := ps[..|ps| - 1];
      RunSane(hw0, hw1, before);
      PollSane(After(hw0, hw1, before), ps[|ps| - 1], Streak(before));
    }
  }

  /** The debounce, over all runs and whatever the masks: a normal channel turns critical exactly when the
      daemon's list vanishes or at the fourth poll in a row without a healthy server. */
  lemma Debounce(hw0: byte, hw1: byte, ps: seq<seq<Server>>, p: seq<Server>)
    requires After(hw0, hw1, ps).channel == NORMAL
    ensures After(hw0, hw1, ps + [p]).channel == CRITICAL <==> p == [] || Streak(ps + [p]) == 4
    ensures After(hw0, hw1, ps + [p]).channel in {NORMAL, CRITICAL}
  {
    hide AnyHealthy, Poll;
    assert (ps + [p])[..|ps|] == ps;
    RunSane(hw0, hw1, ps);
    PollSane(After(hw0, hw1, ps), p, Streak(ps));
  }

  /** A critical channel turns normal at the first poll of a running daemon with a healthy server. */
  lemma Recovery(hw0: byte, hw1: byte, ps: seq<seq<Server>>, p: seq<Server>)
    requires After(hw0, hw1, ps).channel == CRITICAL
    ensures After(hw0, hw1, ps + [p]).channel == NORMAL
            <==> p != [] && AnyHealthy(p) && After(hw0, hw1, ps).last != []
  {
    hide AnyHealthy, Poll;
    assert (ps + [p])[..|ps|] == ps;
    RunSane(hw0, hw1, ps);
    PollSane(After(hw0, hw1, ps), p, Streak(ps));
  }

  /** No poll changes a mask bit. */
  lemma MaskKept(s: State, cur: seq<Server>)
    requires s.channel < 0x80
    ensures Poll(s, cur).hw0 / 0x80 == s.hw0 / 0x80 && Poll(s, cur).hw1 / 0x80 == s.hw1 / 0x80
  {
    hide AnyHealthy;
  }

  // ---- the alarms ----

  /** The alarms of one item. */
  function Of(sent: seq<Alarm>, item: int): (r: seq<Alarm>) {
    if sent == [] then []
    else Of(sent[..|sent| - 1], item) + if sent[|sent| - 1].item == item then [sent[|sent| - 1]] else []
  }

  predicate Crosses(a: Alarm) {
    (a.cur == NORMAL && a.was == CRITICAL) || (a.cur == CRITICAL && a.was == NORMAL)
  }

  /** Each alarm goes the other way, and starts from the level the one before went to. */
  predicate Alternating(alarms: seq<Alarm>) {
    && (forall k :: 0 <= k < |alarms| ==> Crosses(alarms[k]))
    && (forall k :: 0 < k < |alarms| ==> alarms[k].was == alarms[k - 1].cur)
  }

  /** The alarms of an item alternate and have led to its present level. */
  predicate Told(sent: seq<Alarm>, item: int, level: byte) {
    var alarms := Of(sent, item);
    Alternating(alarms) && (alarms != [] ==> alarms[|alarms| - 1].cur == level)
  }

  predicate Published(s: State) {
    s.hw0 == s.daemon && s.hw1 == s.channel && Told(s.sent, 1, s.daemon) && Told(s.sent, 2, s.channel)
  }

  lemma OfAppend(sent: seq<Alarm>, a: Alarm, item: int)
    ensures Of(sent + [a], item) == Of(sent, item) + if a.item == item then [a] else []
  {
    assert (sent + [a])[..|sent|] == sent;
  }

  lemma ToldAfter(sent: seq<Alarm>, item: int, level: byte, was: byte, other: int)
    requires Told(sent, item, was) && level in {NORMAL, CRITICAL} && was in {NORMAL, CRITICAL} && level != was
    ensures Told(sent + [Alarm(item, level, was)], item, level)
    ensures other != item ==> Of(sent + [Alarm(item, level, was)], other) == Of(sent, other)
  {
    hide Of;
    var a := Alarm(item, level, was);
    OfAppend(sent, a, item);
    OfAppend(sent, a, other);
    var alarms, more := Of(sent, item), Of(sent + [a], item);
    assert more == alarms + [a] && Crosses(a);
    forall k | 0 < k < |more| ensures more[k].was == more[k - 1].cur {
    }
  }

  /** An alarm of one item, published, leaves the other alone. */
  lemma RaiseTold(s: State, item: int, level: byte, was: byte)
    requires item in {1, 2} && s.hw0 < 0x80 && s.hw1 < 0x80 && level in {NORMAL, CRITICAL} && was in {NORMAL, CRITICAL}
    requires level != was && Told(s.sent, item, was)
    ensures var r := Raise(s, item, level, was);
            && Told(r.sent, item, level) && Of(r.sent, 3 - item) == Of(s.sent, 3 - item)
            && r == s.(sent := r.sent, hw0 := if item == 1 then level else s.hw0,
                       hw1 := if item == 2 then level else s.hw1)
  {
    hide Told;
    ToldAfter(s.sent, item, level, was, 3 - item);
  }

  lemma ToldNothing(sent: seq<Alarm>, item: int, level: byte)
    requires Told(sent, item, 0)
    ensures Told(sent, item, level)
  {
    var alarms := Of(sent, item);
    if alarms != [] {
      assert false;
    }
  }

  lemma ToldOther(s: seq<Alarm>, t: seq<Alarm>, item: int, level: byte)
    requires Told(s, item, level) && Of(t, item) == Of(s, item)
    ensures Told(t, item, level)
  {
  }

  lemma DownPublished(s: State)
    requires Sane(s) && Published(s) && s.last != []
    ensures Published(Down(s))
  {
    hide Told, Raise;
    RaiseTold(s, 1, CRITICAL, NORMAL);
    var b := Raise(s, 1, CRITICAL, NORMAL).(daemon := CRITICAL);
    ToldOther(s.sent, b.sent, 2, s.channel);
    if b.channel == NORMAL {
      RaiseTold(b, 2, CRITICAL, NORMAL);
      ToldOther(b.sent, Raise(b, 2, CRITICAL, NORMAL).sent, 1, CRITICAL);
    }
  }

  lemma UpPublished(s: State, cur: seq<Server>)
    requires Sane(s) && Published(s) && s.last == []
    ensures Published(Up(s, cur))
  {
    hide Told, Raise;
    if s.daemon == CRITICAL {
      RaiseTold(s, 1, NORMAL, CRITICAL);
      ToldOther(s.sent, Raise(s, 1, NORMAL, CRITICAL).sent, 2, s.channel);
    } else if s.daemon == 0 {
      ToldNothing(s.sent, 1, NORMAL);
    }
  }

  lemma WatchPublished(s: State, cur: seq<Server>)
    requires Sane(s) && Published(s) && s.last != []
    ensures Published(Watch(s, cur))
  {
    hide Told, Raise, AnyHealthy;
    var t := Level(cur);
    var b := Counted(s.(last := cur), t);
    if b.channel == CRITICAL && t == NORMAL {
      RaiseTold(b, 2, NORMAL, CRITICAL);
      ToldOther(b.sent, Raise(b, 2, NORMAL, CRITICAL).sent, 1, b.daemon);
    } else if b.channel == NORMAL && t == CRITICAL && b.flag > 3 {
      RaiseTold(b.(flag := 3), 2, CRITICAL, NORMAL);
      ToldOther(b.sent, Raise(b.(flag := 3), 2, CRITICAL, NORMAL).sent, 1, b.daemon);
    } else if b.channel == 0 {
      ToldNothing(b.sent, 2, t);
    }
  }

  /** With the masks off, what is published is always the internal level, and the alarms on each item
      strictly alternate, each naming the level before it. */
  lemma {:induction false} AlarmsAlternate(ps: seq<seq<Server>>)
    ensures Published(After(0, 0, ps))
    ensures Alternating(Of(After(0, 0, ps).sent, 1)) && Alternating(Of(After(0, 0, ps).sent, 2))
  {
    if ps != [] {
      var before, p := ps[..|ps| - 1], ps[|ps| - 1];
      AlarmsAlternate(before);
      RunSane(0, 0, before);
      var s := After(0, 0, before);
      hide Down, Up, Watch, Of, Alternating;
      if p == [] {
        if s.last != [] { DownPublished(s); }
      } else if s.last == [] {
        UpPublished(s, p);
      } else {
        WatchPublished(s, p);
      }
    }
  }

  // ---- masks ----

  /** A poll sends no alarm of a masked item. */
  lemma MaskSilences(s: State, cur: seq<Server>)
    requires s.channel < 0x80
    ensures s.hw0 >= 0x80 ==> Of(Poll(s, cur).sent, 1) == Of(s.sent, 1)
    ensures s.hw1 >= 0x80 ==> Of(Poll(s, cur).sent, 2) == Of(s.sent, 2)
  {
    hide Of, AnyHealthy, Publish;
    forall a: Alarm | a.item in {1, 2} ensures Of(s.sent + [a], 3 - a.item) == Of(s.sent, 3 - a.item) {
      OfAppend(s.sent, a, 3 - a.item);
    }
  }

  lemma NothingSent()
    ensures Of([], 1) == [] && Of([], 2) == []
  {
  }

  lemma RunLevel(hw0: byte, hw1: byte, ps: seq<seq<Server>>)
    ensures After(hw0, hw1, ps).channel < 0x80
  {
    hide Poll;
    RunSane(hw0, hw1, ps);
  }

  /** In every run the mask bits stay as they were put, and a masked item raises no alarm. */
  lemma {:induction false} RunMasked(hw0: byte, hw1: byte, ps: seq<seq<Server>>)
    ensures After(hw0, hw1, ps).hw0 / 0x80 == hw0 / 0x80 && After(hw0, hw1, ps).hw1 / 0x80 == hw1 / 0x80
    ensures hw0 >= 0x80 ==> Of(After(hw0, hw1, ps).sent, 1) == []
    ensures hw1 >= 0x80 ==> Of(After(hw0, hw1, ps).sent, 2) == []
  {
    hide Poll, Of, Sane;
    if ps == [] {
      NothingSent();
    } else {
      var before := ps[..|ps| - 1];
      var s := After(hw0, hw1, before);
      RunMasked(hw0, hw1, before);
      RunLevel(hw0, hw1, before);
      MaskKept(s, ps[|ps| - 1]);
      MaskSilences(s, ps[|ps| - 1]);
    }
  }

  // ---- the routine itself ----

  class Monitor {
    var ucStatus: byte
    var ucDStatus: byte
    var ucStatusFlag: byte
    var oldNTPSTS: seq<Server>
    var hwntp: array<byte>
    var sent: seq<Alarm>

    ghost predicate Valid()
      reads this
    {
      hwntp.Length == 2 && ucStatus in {0, NORMAL, CRITICAL}
    }

    ghost function Now(): (s: State)
      requires Valid()
      reads this, hwntp
    {
      State(ucStatus, ucDStatus, ucStatusFlag, oldNTPSTS, hwntp[0], hwntp[1], sent)
    }

    constructor (fidb: array<byte>)
      requires fidb.Length == 2
      ensures Valid() && hwntp == fidb && Now() == START.(hw0 := fidb[0], hw1 := fidb[1])
      ensures ucStatus == 0 && ucDStatus == 0 && ucStatusFlag == 0 && oldNTPSTS == [] && sent == []
    {
      ucStatus, ucDStatus, ucStatusFlag, oldNTPSTS, hwntp, sent := 0, 0, 0, [], fidb, [];
    }

    /** `SetNTPSTS`, up to the message. */
    method SetNTPSTS(dType: int, ucCur: byte, ucOld: byte)
      requires Valid() && ucCur < 0x80
      modifies this`sent, hwntp
      ensures Valid() && Now() == SetLevel(old(Now()), dType, ucCur, ucOld)
      ensures var i := if dType == 1 then 0 else 1;
              && hwntp[i] == old(hwntp[i]) / 0x80 * 0x80 + ucCur && hwntp[1 - i] == old(hwntp[1 - i])
              && sent == old(sent) + if hwntp[i] < 0x80 then [Alarm(dType, ucCur, ucOld)] else []
    {
      if dType == 1 {
        hwntp[0] := Publish(hwntp[0], ucCur);
        if hwntp[0] >= 0x80 {
          return;
        }
      } else {
        hwntp[1] := Publish(hwntp[1], ucCur);
        if hwntp[1] >= 0x80 {
          return;
        }
      }
      sent := sent + [Alarm(dType, ucCur, ucOld)];
    }

    /** The loop over the peer list. */
    static method Judge(cur: seq<Server>) returns (ucTStatus: byte)
      ensures ucTStatus == Level(cur)
    {
      ucTStatus := CRITICAL;
      var i := 0;
      while i < |cur|
        invariant 0 <= i <= |cur| && ucTStatus in {NORMAL, CRITICAL}
        invariant ucTStatus == NORMAL <==> exists j :: 0 <= j < i && Healthy(cur[j])
      {
        if cur[i].sym == '*' || cur[i].sym == '+' {
          var usMaxVal := cur[i].poll;
          if usMaxVal < cur[i].reach {
            usMaxVal := cur[i].reach;
          }
          if cur[i].when <= usMaxVal {
            ucTStatus := NORMAL;
          }
        }
        i := i + 1;
      }
    }

    method ChangeLevel(level: byte)
      requires Valid() && level in {NORMAL, CRITICAL}
      modifies this`ucStatus, this`ucStatusFlag, this`sent, hwntp
      ensures Valid() && Now() == Changed(old(Now()), level)
    {
      hide Publish;
      var ucTStatus := level;
      if ucTStatus != ucStatus {
        if ucStatus == CRITICAL {
          if hwntp[1] < 0x80 {
            SetNTPSTS(2, NORMAL, ucStatus);
          }
        } else if ucStatus == NORMAL {
          if ucStatusFlag > 3 {
            ucStatusFlag := 3;
            if hwntp[1] < 0x80 {
              SetNTPSTS(2, CRITICAL, ucStatus);
            }
          } else {
            ucTStatus := NORMAL;
          }
        } else if ucStatus == 0 {
          hwntp[1] := Publish(hwntp[1], ucTStatus);
        }
        ucStatus := ucTStatus;
      }
    }

    /** Its last branch. */
    method WatchChannel(cur: seq<Server>)
      requires Valid()
      modifies this`ucStatus, this`ucStatusFlag, this`oldNTPSTS, this`sent, hwntp
      ensures Valid() && Now() == Watch(old(Now()), cur)
    {
      hide AnyHealthy, Changed;
      oldNTPSTS := cur;
      var ucTStatus := Judge(cur);
      if hwntp[0] == 0 {
        hwntp[0] := Publish(hwntp[0], NORMAL);
      }
      if ucTStatus == CRITICAL && ucDStatus == NORMAL {
        ucStatusFlag := (ucStatusFlag + 1) % 0x100;
        if ucStatusFlag > 4 {
          ucStatusFlag := ucStatusFlag - 1;
        }
      } else {
        ucStatusFlag := 0;
      }
      ChangeLevel(ucTStatus);
      if hwntp[1] == 0 {
        hwntp[1] := Publish(hwntp[1], ucStatus);
      }
    }

    /** `CompareNTPSTS` */
    method CompareNTPSTS(cur: seq<Server>)
      requires Valid()
      modifies this`ucStatus, this`ucDStatus, this`ucStatusFlag, this`oldNTPSTS, this`sent, hwntp
      ensures Valid() && Now() == Poll(old(Now()), cur)
    {
      hide AnyHealthy;
      if cur == [] {
        if oldNTPSTS == [] {
          return;
        }
        if ucDStatus != CRITICAL {
          if ucDStatus == NORMAL && hwntp[0] < 0x80 {
            SetNTPSTS(1, CRITICAL, ucDStatus);
          }
          ucDStatus := CRITICAL;
          if ucStatus == NORMAL {
            if hwntp[1] < 0x80 {
              SetNTPSTS(2, CRITICAL, ucStatus);
            }
            ucStatus := CRITICAL;
          }
        }
        oldNTPSTS := cur;
      } else if oldNTPSTS == [] {
        oldNTPSTS := cur;
        if ucDStatus != NORMAL {
          if ucDStatus == CRITICAL && hwntp[0] < 0x80 {
            SetNTPSTS(1, NORMAL, ucDStatus);
          }
          hwntp[0] := Publish(hwntp[0], NORMAL);
          ucDStatus := NORMAL;
        }
      } else {
        WatchChannel(cur);
      }
    }
  }
}
