/** `percentages` of load.c: counter changes as rounded per mille of their total. */
module CpuLoad {

  function Sum(s: seq<int>): (t: int) {
    if s == [] then 0 else Sum(s[..|s| - 1]) + s[|s| - 1]
  }

  /** One rounded share. */
  function Share(d: nat, total: nat): (p: nat)
    requires total > 0
  {
    (d * 1000 + total / 2) / total
  }

  /** A rounded share is off by at most half, and by half only upwards. */
  lemma ShareBound(d: nat, total: nat)
    requires total > 0
    ensures 0 - total < 2 * (total * Share(d, total) - 1000 * d) <= total
  {
    var a := d * 1000 + total / 2;
    var r := a % total;
    assert a == total * (a / total) + r;
    assert total * Share(d, total) == a - r;
  }

  lemma Distribute(t: int, a: int, b: int)
    ensures t * (a + b) == t * a + t * b
  {
  }

  lemma NotNegative(t: nat, e: nat)
    ensures t * e >= 0
  {
  }

  lemma Apart(t: nat, p: int, q: int)
    requires p > q
    ensures t * p >= t * q + t
  {
    Distribute(t, q + 1, p - q - 1);
    Distribute(t, q, 1);
    NotNegative(t, p - q - 1);
  }

  /** No other number is that close: ties go up. */
  lemma ShareExact(d: nat, total: nat, p: int)
    requires total > 0
    ensures p == Share(d, total) <==> 0 - total < 2 * (total * p - 1000 * d) <= total
  {
    ShareBound(d, total);
    var q := Share(d, total);
    hide Share;
    if p > q {
      Apart(total, p, q);
    } else if p < q {
      Apart(total, q, p);
    }
  }

  /** The shares of `ds`, all of one total. */
  function Shares(ds: seq<int>, total: nat): (ps: seq<int>)
    requires total > 0 && forall k :: 0 <= k < |ds| ==> ds[k] >= 0
    ensures |ps| == |ds|
    ensures forall k :: 0 <= k < |ds| ==> ps[k] == Share(ds[k], total)
  {
    seq(|ds|, k requires 0 <= k < |ds| => Share(ds[k], total))
  }

  lemma {:induction false} SharesBound(ds: seq<int>, total: nat)
    requires total > 0 && forall k :: 0 <= k < |ds| ==> ds[k] >= 0
    ensures 0 - |ds| * total <= 2 * (total * Sum(Shares(ds, total)) - 1000 * Sum(ds)) <= |ds| * total
  {
    hide Share;
    if ds != [] {
      var n := |ds| - 1;
      SharesBound(ds[..n], total);
      ShareBound(ds[n], total);
      assert Shares(ds, total)[..n] == Shares(ds[..n], total);
      Distribute(total, Sum(Shares(ds[..n], total)), Share(ds[n], total));
    }
  }

  lemma Cancel(t: int, x: int, n: int)
    requires t > 0 && 0 - n * t <= t * x <= n * t
    ensures -n <= x <= n
  {
  }

  /** The shares of all changes add up to 1000, give or take half of their number. */
  lemma TotalIsThousand(ds: seq<int>)
    requires (forall k :: 0 <= k < |ds| ==> ds[k] >= 0) && Sum(ds) > 0
    ensures -|ds| <= 2 * (Sum(Shares(ds, Sum(ds))) - 1000) <= |ds|
  {
    hide Shares, Sum;
    var total := Sum(ds);
    SharesBound(ds, total);
    var t := Sum(Shares(ds, total));
    Distribute(total, t, -1000);
    Cancel(total, 2 * (t - 1000), |ds|);
  }

  lemma ShareIs(d: nat, total: nat)
    requires total > 0
    ensures Share(d, total) == (d * 1000 + total / 2) / total
  {
  }

  /** `percentages`, for counters that have not wrapped. */
  method Percentages(cnt: nat, out: array<int>, new_: array<int>, old_: array<int>, diffs: array<int>)
    returns (totalChange: nat)
    requires cnt <= out.Length && cnt <= new_.Length && cnt <= old_.Length && cnt <= diffs.Length
    requires out != new_ && out != old_ && out != diffs && new_ != old_ && new_ != diffs && old_ != diffs
    requires forall k :: 0 <= k < cnt ==> old_[k] <= new_[k]
    modifies out, old_, diffs
    ensures forall k :: 0 <= k < cnt ==> diffs[k] == new_[k] - old(old_[k]) && old_[k] == new_[k]
    ensures totalChange == if Sum(diffs[..cnt]) == 0 then 1 else Sum(diffs[..cnt])
    ensures totalChange > 0 && (forall k :: 0 <= k < cnt ==> diffs[k] >= 0)
            && out[..cnt] == Shares(diffs[..cnt], totalChange)
  {
    hide Share;
    totalChange := 0;
    var i := 0;
    while i < cnt
      invariant 0 <= i <= cnt
      invariant forall k :: 0 <= k < i ==> diffs[k] == new_[k] - old(old_[k]) && old_[k] == new_[k]
      invariant forall k :: i <= k < cnt ==> old_[k] == old(old_[k])
      invariant totalChange == Sum(diffs[..i])
    {
      var change := new_[i] - old_[i];
      ghost var done := diffs[..i];
      diffs[i] := change;
      assert diffs[..i + 1][..i] == done;
      totalChange := totalChange + change;
      old_[i] := new_[i];
      i := i + 1;
    }
    if totalChange == 0 {
      totalChange := 1;
    }
    var halfTotal := totalChange / 2;
    ghost var ds := diffs[..cnt];
    i := 0;
    while i < cnt
      invariant 0 <= i <= cnt && diffs[..cnt] == ds
      invariant forall k :: 0 <= k < cnt ==> old_[k] == new_[k]
      invariant forall k :: 0 <= k < i ==> out[k] == Share(ds[k], totalChange)
    {
      out[i] := (diffs[i] * 1000 + halfTotal) / totalChange;
      ShareIs(ds[i], totalChange);
      i := i + 1;
    }
  }

  // ---- one reading after another ----

  /** The counters read: user, nice, system and idle. */
  const STATES: nat := 4

  predicate Reading(r: seq<int>) {
    |r| == STATES && forall k :: 0 <= k < STATES ==> r[k] >= 0
  }

  /** No counter wraps from one reading to the next. */
  predicate Rising(r: seq<int>, r': seq<int>)
    requires Reading(r) && Reading(r')
  {
    forall k :: 0 <= k < STATES ==> r[k] <= r'[k]
  }

  lemma SumOfFour(s: seq<int>)
    requires |s| == 4
    ensures Sum(s) == s[0] + s[1] + s[2] + s[3]
  {
    assert s[..1][..0] == [] && s[..2][..1] == s[..1] && s[..3][..2] == s[..2];
    assert Sum(s[..1]) == Sum([]) + s[0];
    assert Sum(s[..2]) == Sum(s[..1]) + s[1];
    assert Sum(s[..3]) == Sum(s[..2]) + s[2];
  }

  /** The shares of changes of which none is negative: all of them 0, or close to 1000 in total. */
  lemma FourShares(ds: seq<int>, total: nat)
    requires |ds| == 4 && forall k :: 0 <= k < 4 ==> ds[k] >= 0
    requires total == if Sum(ds) == 0 then 1 else Sum(ds)
    ensures if Sum(ds) == 0 then Sum(Shares(ds, total)) == 0 else 998 <= Sum(Shares(ds, total)) <= 1002
  {
    SumOfFour(ds);
    SumOfFour(Shares(ds, total));
    if Sum(ds) == 0 {
      assert Share(0, 1) == 0;
    } else {
      TotalIsThousand(ds);
    }
  }

  /** What is recorded is the change since the reading before, and the total tells whether there was one. */
  predicate Recorded(r: seq<int>, r': seq<int>, ds: seq<int>, total: int) {
    && |r| == |r'| == |ds| == STATES && (forall k :: 0 <= k < STATES ==> ds[k] == r'[k] - r[k] >= 0)
    && if r' == r then total == 0 else 998 <= total <= 1002
  }

  lemma NoChange(r: seq<int>, r': seq<int>, ds: seq<int>)
    requires Reading(r) && Reading(r') && Rising(r, r') && |ds| == STATES
    requires forall k :: 0 <= k < STATES ==> ds[k] == r'[k] - r[k]
    ensures Sum(ds) == 0 <==> r' == r
  {
    SumOfFour(ds);
  }

  /** The static arrays of `Read_CpuLoad`. */
  class Meter {
    const oldstate: array<int>
    const newstate: array<int>
    const diffstate: array<int>

    ghost predicate Valid()
      reads oldstate
    {
      && oldstate.Length == newstate.Length == diffstate.Length == STATES && Reading(oldstate[..])
      && oldstate != newstate && oldstate != diffstate && newstate != diffstate
    }

    constructor ()
      ensures Valid() && fresh(oldstate) && fresh(newstate) && fresh(diffstate)
      ensures forall k :: 0 <= k < STATES ==> oldstate[k] == 0
    {
      oldstate := new int[STATES](_ => 0);
      newstate := new int[STATES](_ => 0);
      diffstate := new int[STATES](_ => 0);
    }

    /** `Read_CpuLoad`, from the counters on. */
    method ReadCpuLoad(counters: seq<int>) returns (system: int, user: int, nice: int, idle: int, total: int)
      requires Valid() && Reading(counters) && Rising(oldstate[..], counters)
      modifies oldstate, newstate, diffstate
      ensures Valid() && oldstate[..] == counters
      ensures Recorded(old(oldstate[..]), counters, diffstate[..], total) && total == user + nice + system + idle
      ensures var sum := Sum(diffstate[..]);
              sum >= 0 && [user, nice, system, idle] == Shares(diffstate[..], if sum == 0 then 1 else sum)
    {
      var cpustate := new int[STATES];
      ghost var was := oldstate[..];
      newstate[0], newstate[1], newstate[2], newstate[3] := counters[0], counters[1], counters[2], counters[3];
      var change := Percentages(STATES, cpustate, newstate, oldstate, diffstate);
      user, nice, system, idle := cpustate[0], cpustate[1], cpustate[2], cpustate[3];
      total := user + nice + system + idle;
      ghost var ds := diffstate[..];
      assert diffstate[..STATES] == ds && cpustate[..STATES] == cpustate[..];
      FourShares(ds, change);
      SumOfFour(ds);
      SumOfFour(cpustate[..]);
      NoChange(was, counters, ds);
    }
  }

  /** Readings without a wrap, the first one after counters that stood at 0. */
  predicate Readings(rs: seq<seq<int>>) {
    && (forall i :: 0 <= i < |rs| ==> Reading(rs[i]))
    && (forall i :: 0 < i < |rs| ==> Rising(rs[i - 1], rs[i]))
  }

  /** What the counters stood at before reading `i`. */
  function Before(rs: seq<seq<int>>, i: nat): (r: seq<int>)
    requires i < |rs|
  {
    if i == 0 then [0, 0, 0, 0] else rs[i - 1]
  }

  /** The first `n` readings of a run have been recorded. */
  predicate RecordedTo(rs: seq<seq<int>>, log: seq<seq<int>>, totals: seq<int>, n: nat) {
    && |log| == |totals| == n <= |rs|
    && forall i :: 0 <= i < n ==> Recorded(Before(rs, i), rs[i], log[i], totals[i])
  }

  lemma NothingRecorded(rs: seq<seq<int>>)
    ensures RecordedTo(rs, [], [], 0)
  {
  }

  lemma AppendRecorded(rs: seq<seq<int>>, log: seq<seq<int>>, totals: seq<int>, ds: seq<int>, total: int, n: nat)
    requires n < |rs| && RecordedTo(rs, log, totals, n) && Recorded(Before(rs, n), rs[n], ds, total)
    ensures RecordedTo(rs, log + [ds], totals + [total], n + 1)
  {
    hide Recorded, Before;
  }

  lemma RisesFrom(rs: seq<seq<int>>, i: nat)
    requires Readings(rs) && i < |rs|
    ensures Reading(Before(rs, i)) && Reading(rs[i]) && Rising(Before(rs, i), rs[i])
  {
  }

  /** All readings of a run: the changes recorded at each, and the totals returned. */
  method ReadAll(rs: seq<seq<int>>) returns (log: seq<seq<int>>, totals: seq<int>)
    requires Readings(rs)
    ensures RecordedTo(rs, log, totals, |rs|)
  {
    hide Recorded, Rising, Reading, Readings, Sum, Shares, RecordedTo;
    var meter := new Meter();
    log, totals := [], [];
    NothingRecorded(rs);
    var i := 0;
    assert meter.oldstate[..] == [0, 0, 0, 0];
    while i < |rs|
      invariant 0 <= i <= |rs| && meter.Valid() && |log| == |totals| == i
      invariant fresh(meter.oldstate) && fresh(meter.newstate) && fresh(meter.diffstate)
      invariant i < |rs| ==> meter.oldstate[..] == Before(rs, i)
      invariant RecordedTo(rs, log, totals, i)
    {
      RisesFrom(rs, i);
      var system, user, nice, idle, total := meter.ReadCpuLoad(rs[i]);
      AppendRecorded(rs, log, totals, meter.diffstate[..], total, i);
      log, totals := log + [meter.diffstate[..]], totals + [total];
      i := i + 1;
    }
  }

  predicate Widths(log: seq<seq<int>>) { forall i :: 0 <= i < |log| ==> |log[i]| == STATES }

  lemma AllWidths(rs: seq<seq<int>>, log: seq<seq<int>>, totals: seq<int>)
    requires RecordedTo(rs, log, totals, |rs|)
    ensures Widths(log)
  {
    hide Before;
    forall i | 0 <= i < |log| ensures |log[i]| == STATES {
      assert Recorded(Before(rs, i), rs[i], log[i], totals[i]);
    }
  }

  lemma RecordedAt(rs: seq<seq<int>>, log: seq<seq<int>>, totals: seq<int>, j: nat, k: nat)
    requires RecordedTo(rs, log, totals, |rs|) && j < |rs| && k < STATES
    ensures |log| == |rs| && |log[j]| == |rs[j]| == STATES
    ensures j > 0 ==> |rs[j - 1]| == STATES
    ensures log[j][k] == rs[j][k] - if j == 0 then 0 else rs[j - 1][k]
  {
    assert Recorded(Before(rs, j), rs[j], log[j], totals[j]);
  }

  /** The recorded changes of counter `k`, added up. */
  function ColumnSum(log: seq<seq<int>>, k: nat): (t: int)
    requires k < STATES && Widths(log)
  {
    if log == [] then 0 else ColumnSum(log[..|log| - 1], k) + log[|log| - 1][k]
  }

  lemma ColumnStep(log: seq<seq<int>>, i: nat, j: nat, k: nat)
    requires i <= j < |log| && k < STATES && Widths(log)
    ensures Widths(log[i..j + 1]) && Widths(log[i..j]) && |log[j]| == STATES
    ensures ColumnSum(log[i..j + 1], k) == ColumnSum(log[i..j], k) + log[j][k]
  {
    assert log[i..j + 1][..j - i] == log[i..j];
  }

  lemma EmptyColumn(k: nat)
    requires k < STATES
    ensures ColumnSum([], k) == 0
  {
  }

  /** Over every run without a wrap the changes recorded between two readings add up to the later reading
      less the earlier one, for each counter; and from the start they add up to the reading itself. */
  lemma {:induction false} ChangesTelescope(rs: seq<seq<int>>, log: seq<seq<int>>, totals: seq<int>,
                                            i: nat, j: nat, k: nat)
    requires RecordedTo(rs, log, totals, |rs|) && i <= j < |rs| && k < STATES
    ensures Widths(log)
    ensures ColumnSum(log[i + 1..j + 1], k) == rs[j][k] - rs[i][k]
    ensures ColumnSum(log[0..j + 1], k) == rs[j][k]
  {
    hide ColumnSum, RecordedTo, Widths;
    AllWidths(rs, log, totals);
    RecordedAt(rs, log, totals, j, k);
    EmptyColumn(k);
    ColumnStep(log, 0, j, k);
    if j > 0 {
      ChangesTelescope(rs, log, totals, if i < j then i else j - 1, j - 1, k);
      if i < j {
        ColumnStep(log, i + 1, j, k);
      }
    }
    assert log[0..0] == [] && log[j + 1..j + 1] == [];
  }
}
