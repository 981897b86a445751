/** The synthetic-check scheduler (backend/cmd/blackbox-service/prober.go): when each check is probed over
    a whole run of ticks. Times are nanoseconds. */
module Prober {
  import Clock
  import opened Wrappers

  type Id = nat

  datatype Check = Check(id: Id, intervalSeconds: int)

  function Interval(c: Check): int { c.intervalSeconds * 1_000_000_000 }

  /** What can happen once a check has been picked: none of it matters to the schedule. */
  datatype Outcome = Pushed | BuildFailed | PushFailed | Panicked

  predicate Due(last: map<Id, int>, c: Check, now: int) {
    c.id !in last || now - last[c.id] >= Interval(c)
  }

  function AfterChecks(last: map<Id, int>, checks: seq<Check>, now: int): map<Id, int>
    decreases |checks|
  {
    if checks == [] then last
    else
      var before, c := AfterChecks(last, checks[..|checks| - 1], now), checks[|checks| - 1];
      if Due(before, c, now) then before[c.id := now] else before
  }

  /** A load is by primary key: no check comes twice. */
  predicate DistinctIds(checks: seq<Check>) {
    forall i, j | 0 <= i < j < |checks| :: checks[i].id != checks[j].id
  }

  class Scheduler {
    var lastProbed: map<Id, int>

    constructor ()
      ensures lastProbed == map[]
    {
      lastProbed := map[];
    }

    predicate IsDue(c: Check, now: int)
      reads this
      ensures IsDue(c, now) <==> Due(lastProbed, c, now)
    {
      if c.id !in lastProbed then true else now - lastProbed[c.id] >= c.intervalSeconds * 1_000_000_000
    }

    method MarkProbed(id: Id, at: int)
      modifies this
      ensures lastProbed == old(lastProbed)[id := at]
    {
      lastProbed := lastProbed[id := at];
    }

    /** The mark comes first, so a failed or panicking probe is not retried early. */
    method ProcessCheck(c: Check, now: int, outcome: Outcome) returns (pushed: bool)
      modifies this
      ensures lastProbed == old(lastProbed)[c.id := now]
      ensures pushed <==> outcome.Pushed?
    {
      MarkProbed(c.id, now);
      if outcome.Panicked? || outcome.BuildFailed? {
        return false;
      }
      return !outcome.PushFailed?;
    }

    /** A failed load aborts the tick. */
    method Tick(checks: Option<seq<Check>>, now: int, fate: Check -> Outcome)
      modifies this
      ensures lastProbed == if checks.None? then old(lastProbed) else AfterChecks(old(lastProbed), checks.value, now)
    {
      if checks.None? {
        return;
      }
      for i := 0 to |checks.value|
        invariant lastProbed == AfterChecks(old(lastProbed), checks.value[..i], now)
      {
        var c := checks.value[i];
        assert checks.value[..i + 1][..i] == checks.value[..i];
        if !IsDue(c, now) {
          continue;
        }
        var pushed := ProcessCheck(c, now, fate(c));
      }
      assert checks.value[..|checks.value|] == checks.value;
    }
  }

  /* Runs. */

  datatype Event = Event(now: int, checks: Option<seq<Check>>)

  /** The scheduler's memory after the first `k` ticks. */
  function Last(run: seq<Event>, k: nat): map<Id, int>
    requires k <= |run|
  {
    if k == 0 then map[]
    else if run[k - 1].checks.None? then Last(run, k - 1)
    else AfterChecks(Last(run, k - 1), run[k - 1].checks.value, run[k - 1].now)
  }

  ghost predicate IsRun(run: seq<Event>) {
    forall k | 0 <= k < |run| :: run[k].checks.Some? ==> DistinctIds(run[k].checks.value)
  }

  function TimeOf(e: Event): int { e.now }

  ghost predicate ClockAdvances(run: seq<Event>) { Clock.Advances(run, TimeOf) }

  /** Tick `k` probes check `c`. */
  predicate Probes(run: seq<Event>, k: nat, c: Check) {
    k < |run| && run[k].checks.Some? && c in run[k].checks.value && Due(Last(run, k), c, run[k].now)
  }

  predicate ProbesId(run: seq<Event>, k: nat, id: Id) {
    k < |run| && run[k].checks.Some? && exists c | c in run[k].checks.value :: c.id == id && Probes(run, k, c)
  }

  predicate SomeDue(last: map<Id, int>, checks: seq<Check>, now: int, id: Id) {
    exists c | c in checks :: c.id == id && Due(last, c, now)
  }

  lemma SomeDueSnoc(last: map<Id, int>, init: seq<Check>, c: Check, now: int, id: Id)
    ensures SomeDue(last, init + [c], now, id) <==> SomeDue(last, init, now, id) || (c.id == id && Due(last, c, now))
  {
    assert forall d :: d in init + [c] <==> d in init || d == c;
  }

  /** What one tick does to one check. */
  lemma {:induction false} TickEffect(last: map<Id, int>, checks: seq<Check>, now: int, id: Id)
    requires DistinctIds(checks)
    ensures var after := AfterChecks(last, checks, now);
      if SomeDue(last, checks, now, id) then id in after && after[id] == now
      else (id in after <==> id in last) && (id in after ==> after[id] == last[id])
    decreases |checks|
  {
    if checks != [] {
      var init, c := checks[..|checks| - 1], checks[|checks| - 1];
      assert checks == init + [c];
      TickEffect(last, init, now, id);
      SomeDueSnoc(last, init, c, now, id);
      if c.id == id { assert !SomeDue(last, init, now, id); }
    }
  }

  lemma StepEffect(run: seq<Event>, k: nat, id: Id)
    requires IsRun(run) && k < |run|
    ensures var before, after := Last(run, k), Last(run, k + 1);
      if ProbesId(run, k, id) then id in after && after[id] == run[k].now
      else (id in after <==> id in before) && (id in after ==> after[id] == before[id])
  {
    if run[k].checks.Some? {
      TickEffect(Last(run, k), run[k].checks.value, run[k].now, id);
    }
  }

  /** Between probes the memory of the last one stays. */
  lemma {:induction false} LastStays(run: seq<Event>, i: nat, j: nat, id: Id)
    requires IsRun(run) && i < j <= |run| && ProbesId(run, i, id)
    requires forall k | i < k < j :: !ProbesId(run, k, id)
    ensures id in Last(run, j) && Last(run, j)[id] == run[i].now
    decreases j
  {
    StepEffect(run, j - 1, id);
    if i < j - 1 { LastStays(run, i, j - 1, id); }
  }

  /** The most recent probe before tick `j`. */
  lemma {:induction false} LatestProbe(run: seq<Event>, i: nat, j: nat, id: Id) returns (latest: nat)
    requires i < j <= |run| && ProbesId(run, i, id)
    ensures i <= latest < j && ProbesId(run, latest, id) && forall k | latest < k < j :: !ProbesId(run, k, id)
    decreases j
  {
    if ProbesId(run, j - 1, id) { latest := j - 1; } else { latest := LatestProbe(run, i, j - 1, id); }
  }

  /** Main theorem: two probes of one check are at least its interval apart, whatever happened to
      either of them and to any other check. */
  lemma ProbesAreSpaced(run: seq<Event>, i: nat, j: nat, c: Check)
    requires IsRun(run) && ClockAdvances(run)
    requires i < j && ProbesId(run, i, c.id) && Probes(run, j, c)
    ensures run[j].now - run[i].now >= c.intervalSeconds * 1_000_000_000
  {
    var latest := LatestProbe(run, i, j, c.id);
    LastStays(run, latest, j, c.id);
    Clock.Order(run, TimeOf, i, latest);
  }

  /** The check is loaded at every tick, with one positive interval. */
  ghost predicate AlwaysLoaded(run: seq<Event>, c: Check) {
    c.intervalSeconds > 0 && forall k | 0 <= k < |run| :: run[k].checks.Some? && c in run[k].checks.value
  }

  ghost predicate GapsAtMost(run: seq<Event>, gap: int) {
    forall k | 0 < k < |run| :: run[k].now - run[k - 1].now <= gap
  }

  lemma OnlyThatCheck(run: seq<Event>, k: nat, c: Check)
    requires IsRun(run) && AlwaysLoaded(run, c) && k < |run|
    ensures ProbesId(run, k, c.id) <==> Probes(run, k, c)
  {
    var checks := run[k].checks.value;
    var i :| 0 <= i < |checks| && checks[i] == c;
    forall d | d in checks && d.id == c.id ensures d == c {
      var j :| 0 <= j < |checks| && checks[j] == d;
    }
  }

  /** At every tick the last probe was less than the interval ago, the first one being immediate. */
  lemma {:induction false} NeverStale(run: seq<Event>, k: nat, c: Check) returns (i: nat)
    requires IsRun(run) && AlwaysLoaded(run, c) && k < |run|
    ensures i <= k && Probes(run, i, c) && run[k].now - run[i].now < c.intervalSeconds * 1_000_000_000
    ensures forall j | i < j <= k :: !ProbesId(run, j, c.id)
  {
    OnlyThatCheck(run, k, c);
    if k == 0 || Probes(run, k, c) {
      i := k;
    } else {
      i := NeverStale(run, k - 1, c);
      OnlyThatCheck(run, i, c);
      LastStays(run, i, k, c.id);
    }
  }

  /** Main theorem: consecutive probes of an always-loaded check are less than its interval plus the
      largest gap between ticks apart. */
  lemma ProbesKeepUp(run: seq<Event>, i: nat, j: nat, c: Check, gap: int)
    requires IsRun(run) && AlwaysLoaded(run, c) && GapsAtMost(run, gap)
    requires i < j < |run| && Probes(run, i, c) && Probes(run, j, c) && forall k | i < k < j :: !Probes(run, k, c)
    ensures run[j].now - run[i].now < c.intervalSeconds * 1_000_000_000 + gap
  {
    var latest := NeverStale(run, j - 1, c);
    OnlyThatCheck(run, i, c);
    assert latest == i;
  }
}
