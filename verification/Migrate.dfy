/** The migration runner (backend/internal/db/db.go, Migrate) as a protocol: any number of services
    run it at start-up against one database, and any of them can fail or die at any point. */
module Migrate {
  import opened Text

  /** Byte order on file names, which sort.Strings uses. */
  predicate Before(a: string, b: string) {
    b != "" && (a == "" || a[0] < b[0] || (a[0] == b[0] && Before(a[1..], b[1..])))
  }

  /** The names first differ at `k`, and there the first has the smaller character. */
  predicate SmallerAt(a: string, b: string, k: nat) {
    k < |a| && k < |b| && a[..k] == b[..k] && a[k] < b[k]
  }

  lemma SmallerLater(a: string, b: string, k: nat)
    requires a != "" && b != "" && a[0] == b[0]
    ensures SmallerAt(a, b, k + 1) <==> SmallerAt(a[1..], b[1..], k)
    ensures !SmallerAt(a, b, 0)
  {
    if k < |a[1..]| && k < |b[1..]| {
      assert a[..k + 1] == [a[0]] + a[1..][..k] && b[..k + 1] == [b[0]] + b[1..][..k];
      assert a[1..][..k] == a[..k + 1][1..] && b[1..][..k] == b[..k + 1][1..];
    }
  }

  lemma FirstAgrees(a: string, b: string)
    requires a != "" && b != ""
    ensures forall k: nat :: SmallerAt(a, b, k) ==> k == 0 || a[0] == b[0]
  {
    forall k: nat | SmallerAt(a, b, k) && k > 0 ensures a[0] == b[0] { assert a[..k][0] == b[..k][0]; }
  }

  lemma PrefixLater(a: string, b: string)
    requires a != "" && b != "" && a[0] == b[0]
    ensures a < b <==> a[1..] < b[1..]
  {
    assert a == [a[0]] + a[1..] && b == [b[0]] + b[1..];
  }

  /** One name comes before another when it is a proper beginning of it, or has the smaller character where they first
      differ. */
  lemma {:induction false} BeforeIsLexicographic(a: string, b: string)
    ensures Before(a, b) <==> a < b || exists k: nat :: SmallerAt(a, b, k)
  {
    if a != "" && b != "" {
      if a[0] == b[0] {
        BeforeIsLexicographic(a[1..], b[1..]);
        PrefixLater(a, b);
        hide SmallerAt;
        SmallerLater(a, b, 0);
        if k: nat :| SmallerAt(a[1..], b[1..], k) { SmallerLater(a, b, k); }
        if k: nat :| SmallerAt(a, b, k) { SmallerLater(a, b, k - 1); }
      } else if a[0] < b[0] {
        assert SmallerAt(a, b, 0);
      } else {
        FirstAgrees(a, b);
      }
    }
  }

  predicate Sorted(files: seq<string>) {
    forall i | 0 < i < |files| :: Before(files[i - 1], files[i])
  }

  lemma {:induction false} BeforeIsTransitive(a: string, b: string, c: string)
    requires Before(a, b) && Before(b, c)
    ensures Before(a, c) && a != c
  {
    if a != "" && a[0] == b[0] && b[0] == c[0] {
      BeforeIsTransitive(a[1..], b[1..], c[1..]);
    }
  }

  lemma {:induction false} BeforeIsIrreflexive(a: string)
    ensures !Before(a, a)
  {
    if a != "" { BeforeIsIrreflexive(a[1..]); }
  }

  lemma {:induction false} SortedOrder(files: seq<string>, i: nat, j: nat)
    requires Sorted(files) && i < j < |files|
    ensures Before(files[i], files[j])
    decreases j
  {
    if i < j - 1 {
      SortedOrder(files, i, j - 1);
      BeforeIsTransitive(files[i], files[j - 1], files[j]);
    }
  }

  lemma SortedIsDistinct(files: seq<string>)
    requires Sorted(files)
    ensures NoDuplicates(files)
  {
    forall i, j | 0 <= i < j < |files| ensures files[i] != files[j] {
      SortedOrder(files, i, j);
      BeforeIsIrreflexive(files[i]);
    }
  }

  /** Where a runner is: looking file `i` up, about to begin its transaction, having executed it, having
      also recorded it (and so holding its primary key until the transaction ends), or finished. */
  datatype Runner =
    | Checking(i: nat)
    | Beginning(i: nat)
    | Executed(i: nat)
    | Recorded(i: nat)
    | Succeeded
    | Failed

  /** `applied` is the committed migrations in commit order, `table` the bookkeeping rows. */
  datatype State = State(applied: seq<string>, table: set<string>, runners: map<nat, Runner>)

  datatype Step =
    | Start(r: nat)
    | Check(r: nat)
    | Execute(r: nat)
    | Record(r: nat)
    | Commit(r: nat)
    | CommitUnacknowledged(r: nat)
    | Fail(r: nat)
    | Crash(r: nat)

  const INITIAL := State([], {}, map[])

  /** Someone else's open transaction holds the primary key `name`. */
  predicate KeyHeld(s: State, r: nat, name: string, files: seq<string>) {
    exists o | o in s.runners :: o != r && s.runners[o].Recorded? && s.runners[o].i < |files| &&
      files[s.runners[o].i] == name
  }

  function MoveTo(s: State, r: nat, to: Runner): State {
    s.(runners := s.runners[r := to])
  }

  function Committed(s: State, name: string): State {
    s.(applied := s.applied + [name], table := s.table + {name})
  }

  /** A step that is not enabled changes nothing. A transaction's effects stay private until it commits;
      an INSERT of a key held by an open transaction waits. */
  function Apply(s: State, step: Step, files: seq<string>): State {
    if step.Start? then if step.r in s.runners then s else MoveTo(s, step.r, Checking(0))
    else if step.r !in s.runners then s
    else match (step, s.runners[step.r])
      case (Check(r), Checking(i)) =>
        if i >= |files| then MoveTo(s, r, Succeeded)
        else if files[i] in s.table then MoveTo(s, r, Checking(i + 1))
        else MoveTo(s, r, Beginning(i))
      case (Execute(r), Beginning(i)) => MoveTo(s, r, Executed(i))
      case (Record(r), Executed(i)) =>
        if i >= |files| || KeyHeld(s, r, files[i], files) then s
        else if files[i] in s.table then MoveTo(s, r, Failed)
        else MoveTo(s, r, Recorded(i))
      case (Commit(r), Recorded(i)) => if i < |files| then MoveTo(Committed(s, files[i]), r, Checking(i + 1)) else s
      case (CommitUnacknowledged(r), Recorded(i)) =>
        if i < |files| then MoveTo(Committed(s, files[i]), r, Failed) else s
      case (Fail(r), runner) => if runner.Succeeded? then s else MoveTo(s, r, Failed)
      case (Crash(r), _) => s.(runners := s.runners - {r})
      case _ => s
  }

  function Run(steps: seq<Step>, files: seq<string>): State
    decreases |steps|
  {
    if steps == [] then INITIAL else Apply(Run(steps[..|steps| - 1], files), steps[|steps| - 1], files)
  }

  ghost predicate RunnerOk(runner: Runner, done: nat, total: nat) {
    match runner
    case Checking(i) => i <= done
    case Beginning(i) => i <= done && i < total
    case Executed(i) => i <= done && i < total
    case Recorded(i) => i == done && i < total
    case Succeeded => done == total
    case Failed => true
  }

  ghost predicate Inv(s: State, files: seq<string>) {
    && |s.applied| <= |files| && s.applied == files[..|s.applied|]
    && s.table == (set name | name in s.applied)
    && (forall r | r in s.runners :: RunnerOk(s.runners[r], |s.applied|, |files|))
    && (forall r, o | r in s.runners && o in s.runners && s.runners[r].Recorded? && s.runners[o].Recorded? :: r == o)
  }

  lemma CommitKeepsInv(s: State, r: nat, to: Runner, files: seq<string>)
    requires NoDuplicates(files) && Inv(s, files)
    requires r in s.runners && s.runners[r].Recorded? && (to == Failed || to == Checking(s.runners[r].i + 1))
    ensures Inv(MoveTo(Committed(s, files[s.runners[r].i]), r, to), files)
  {
    var k := |s.applied|;
    assert files[..k + 1] == files[..k] + [files[k]];
  }

  /** The only way the history grows is by the next file in order. */
  lemma StepKeepsInv(s: State, step: Step, files: seq<string>)
    requires NoDuplicates(files) && Inv(s, files)
    ensures Inv(Apply(s, step, files), files)
    ensures Apply(s, step, files).applied == s.applied ||
      (|s.applied| < |files| && Apply(s, step, files).applied == s.applied + [files[|s.applied|]])
  {
    if step.r in s.runners {
      var runner := s.runners[step.r];
      if runner.Recorded? && (step.Commit? || step.CommitUnacknowledged?) {
        CommitKeepsInv(s, step.r, if step.Commit? then Checking(runner.i + 1) else Failed, files);
      } else if (runner.Checking? || runner.Executed?) && runner.i < |files| {
        assert files[runner.i] in s.table <==> runner.i < |s.applied|;
      }
    }
  }

  /** Main theorem: over every interleaving the committed migrations are a prefix of the sorted files,
      each applied once and in order, the table lists exactly them, and a runner that has returned
      success means all of them are applied. */
  lemma {:induction false} EveryRunAppliesAPrefix(steps: seq<Step>, files: seq<string>)
    requires Sorted(files)
    ensures Inv(Run(steps, files), files)
    ensures Run(steps, files).applied <= files && NoDuplicates(Run(steps, files).applied)
    ensures forall r | r in Run(steps, files).runners && Run(steps, files).runners[r].Succeeded? ::
      Run(steps, files).applied == files
    decreases |steps|
  {
    SortedIsDistinct(files);
    if steps != [] {
      var before := steps[..|steps| - 1];
      EveryRunAppliesAPrefix(before, files);
      StepKeepsInv(Run(before, files), steps[|steps| - 1], files);
    }
  }

  /** Once everything is applied, no continuation of the run by any number of runners changes the database. */
  lemma {:induction false} LaterRunsChangeNothing(steps: seq<Step>, later: seq<Step>, files: seq<string>)
    requires Sorted(files) && Run(steps, files).applied == files
    ensures Run(steps + later, files).applied == files && Run(steps + later, files).table == Run(steps, files).table
    decreases |later|
  {
    if later == [] {
      assert steps + later == steps;
    } else {
      var before, last := steps + later[..|later| - 1], later[|later| - 1];
      assert (steps + later)[..|steps + later| - 1] == before;
      LaterRunsChangeNothing(steps, later[..|later| - 1], files);
      EveryRunAppliesAPrefix(before, files);
      SortedIsDistinct(files);
      StepKeepsInv(Run(before, files), last, files);
    }
  }

  /* Progress. */

  /** A run that goes on from a state. */
  function After(s: State, steps: seq<Step>, files: seq<string>): State
    decreases |steps|
  {
    if steps == [] then s else Apply(After(s, steps[..|steps| - 1], files), steps[|steps| - 1], files)
  }

  lemma {:induction false} RunAfter(steps: seq<Step>, later: seq<Step>, files: seq<string>)
    ensures Run(steps + later, files) == After(Run(steps, files), later, files)
    decreases |later|
  {
    if later == [] {
      assert steps + later == steps;
    } else {
      var init, last := later[..|later| - 1], later[|later| - 1];
      assert (steps + later)[..|steps + later| - 1] == steps + init;
      RunAfter(steps, init, files);
    }
  }

  lemma {:induction false} AfterAppend(s: State, a: seq<Step>, b: seq<Step>, files: seq<string>)
    ensures After(s, a + b, files) == After(After(s, a, files), b, files)
    decreases |b|
  {
    if b == [] {
      assert a + b == a;
    } else {
      var init, last := b[..|b| - 1], b[|b| - 1];
      assert (a + b)[..|a + b| - 1] == a + init;
      AfterAppend(s, a, init, files);
    }
  }

  /** `n` lookups. */
  function Checks(r: nat, n: nat): seq<Step> {
    if n == 0 then [] else Checks(r, n - 1) + [Check(r)]
  }

  lemma {:induction false} ChecksPass(s: State, r: nat, n: nat, files: seq<string>)
    requires r in s.runners && s.runners[r] == Checking(0) && s.table == (set name | name in files)
    requires n <= |files|
    ensures After(s, Checks(r, n), files) == MoveTo(s, r, Checking(n))
    decreases n
  {
    if n > 0 {
      ChecksPass(s, r, n - 1, files);
      var steps := Checks(r, n);
      assert steps[..|steps| - 1] == Checks(r, n - 1) && files[n - 1] in s.table;
    }
  }

  /** Main theorem: once all files are applied, a service that starts looks each one up, has nothing to do, and
      succeeds,
      with the database as it was. */
  lemma RestartSucceeds(steps: seq<Step>, r: nat, files: seq<string>)
    requires Sorted(files) && Run(steps, files).applied == files && r !in Run(steps, files).runners
    ensures
      var after := Run(steps + ([Start(r)] + Checks(r, |files| + 1)), files);
      after == MoveTo(Run(steps, files), r, Succeeded)
  {
    var s := Run(steps, files);
    EveryRunAppliesAPrefix(steps, files);
    RunAfter(steps, [Start(r)] + Checks(r, |files| + 1), files);
    AfterAppend(s, [Start(r)], Checks(r, |files| + 1), files);
    assert [Start(r)][..0] == [] && After(s, [], files) == s;
    var started := After(s, [Start(r)], files);
    assert started == MoveTo(s, r, Checking(0));
    ChecksPass(started, r, |files|, files);
    var all := Checks(r, |files| + 1);
    assert all[..|all| - 1] == Checks(r, |files|) && all[|all| - 1] == Check(r);
    assert MoveTo(MoveTo(started, r, Checking(|files|)), r, Succeeded) == MoveTo(s, r, Succeeded);
  }

  /** What a runner does for one file when nothing fails. */
  function Round(r: nat): seq<Step> { [Check(r), Execute(r), Record(r), Commit(r)] }

  function Rounds(r: nat, n: nat): seq<Step> {
    if n == 0 then [] else Rounds(r, n - 1) + Round(r)
  }

  /** Nobody else has a file recorded whose transaction is open. */
  ghost predicate NoKeyHeld(s: State, r: nat) {
    forall o | o in s.runners && o != r :: !s.runners[o].Recorded?
  }

  ghost predicate SameOthers(s: State, later: State, r: nat) {
    later.runners.Keys == s.runners.Keys && forall o | o in s.runners && o != r :: later.runners[o] == s.runners[o]
  }

  lemma AfterSnoc(s: State, steps: seq<Step>, step: Step, files: seq<string>)
    ensures After(s, steps + [step], files) == Apply(After(s, steps, files), step, files)
    ensures After(s, [], files) == s
  {
    hide Apply;
    assert (steps + [step])[..|steps|] == steps;
  }

  lemma RoundUnfolds(s: State, r: nat, files: seq<string>)
    ensures
      After(s, Round(r), files) ==
        Apply(Apply(Apply(Apply(s, Check(r), files), Execute(r), files), Record(r), files), Commit(r), files)
  {
    hide Apply, After;
    AfterSnoc(s, [], Check(r), files);
    AfterSnoc(s, [Check(r)], Execute(r), files);
    AfterSnoc(s, [Check(r), Execute(r)], Record(r), files);
    AfterSnoc(s, [Check(r), Execute(r), Record(r)], Commit(r), files);
    assert [] + [Check(r)] == [Check(r)] && [Check(r)] + [Execute(r)] == [Check(r), Execute(r)];
    assert [Check(r), Execute(r)] + [Record(r)] == [Check(r), Execute(r), Record(r)];
    assert [Check(r), Execute(r), Record(r)] + [Commit(r)] == Round(r);
  }

  /** A round passes a file that is applied over, and applies another. */
  lemma RoundResult(s: State, r: nat, files: seq<string>)
    requires NoKeyHeld(s, r) && r in s.runners && s.runners[r].Checking? && s.runners[r].i < |files|
    ensures
      var i := s.runners[r].i;
      After(s, Round(r), files) ==
        MoveTo(if files[i] in s.table then s else Committed(s, files[i]), r, Checking(i + 1))
  {
    var i := s.runners[r].i;
    RoundUnfolds(s, r, files);
    hide After, Round;
    if files[i] !in s.table {
      assert Apply(s, Check(r), files) == MoveTo(s, r, Beginning(i));
      assert Apply(MoveTo(s, r, Beginning(i)), Execute(r), files) == MoveTo(s, r, Executed(i));
      assert Apply(MoveTo(s, r, Executed(i)), Record(r), files) == MoveTo(s, r, Recorded(i));
    }
  }

  lemma RecordKeepsInv(s: State, r: nat, files: seq<string>)
    requires Inv(s, files) && NoKeyHeld(s, r) && r in s.runners && |s.applied| < |files|
    ensures Inv(MoveTo(s, r, Recorded(|s.applied|)), files)
  {}

  lemma RoundAdvances(s: State, r: nat, files: seq<string>)
    requires NoDuplicates(files) && Inv(s, files) && NoKeyHeld(s, r)
    requires r in s.runners && s.runners[r].Checking? && s.runners[r].i < |files|
    ensures
      var i, after := s.runners[r].i, After(s, Round(r), files);
      && Inv(after, files) && SameOthers(s, after, r)
      && after.runners[r] == Checking(i + 1) && |after.applied| == if i < |s.applied| then |s.applied| else i + 1
  {
    var i := s.runners[r].i;
    RoundResult(s, r, files);
    hide Apply, After, Round, NoKeyHeld;
    if files[i] in s.table {
      assert i < |s.applied| && Inv(MoveTo(s, r, Checking(i + 1)), files);
    } else {
      assert i == |s.applied|;
      var recorded := MoveTo(s, r, Recorded(i));
      RecordKeepsInv(s, r, files);
      CommitKeepsInv(recorded, r, Checking(i + 1), files);
      assert MoveTo(Committed(recorded, files[i]), r, Checking(i + 1)) ==
        MoveTo(Committed(s, files[i]), r, Checking(i + 1));
    }
  }

  ghost predicate HasReached(s: State, after: State, r: nat, i: nat, files: seq<string>) {
    && Inv(after, files) && SameOthers(s, after, r) && r in after.runners
    && after.runners[r] == Checking(i) && |after.applied| == if i <= |s.applied| then |s.applied| else i
  }

  lemma OneMoreRound(s: State, before: State, r: nat, i: nat, files: seq<string>)
    requires NoDuplicates(files) && NoKeyHeld(s, r) && HasReached(s, before, r, i, files) && i < |files|
    ensures HasReached(s, After(before, Round(r), files), r, i + 1, files)
  {
    RoundAdvances(before, r, files);
    hide Inv, Round, After;
  }

  lemma {:induction false} RoundsAdvance(s: State, r: nat, n: nat, files: seq<string>)
    requires NoDuplicates(files) && Inv(s, files) && NoKeyHeld(s, r)
    requires r in s.runners && s.runners[r].Checking? && s.runners[r].i + n <= |files|
    ensures HasReached(s, After(s, Rounds(r, n), files), r, s.runners[r].i + n, files)
    decreases n
  {
    if n == 0 {
      AfterSnoc(s, [], Check(r), files);
      assert s.runners[r].i <= |s.applied|;
    } else {
      hide Inv, Round, After, HasReached, NoKeyHeld;
      RoundsAdvance(s, r, n - 1, files);
      AfterAppend(s, Rounds(r, n - 1), Round(r), files);
      OneMoreRound(s, After(s, Rounds(r, n - 1), files), r, s.runners[r].i + n - 1, files);
    }
  }

  /** Main theorem: from every reachable state in which nobody else holds a key, a runner that is looking files up
      succeeds by its own steps, one round for each file that is left, and then all files are applied. */
  lemma LoneRunnerSucceeds(steps: seq<Step>, r: nat, files: seq<string>)
    requires Sorted(files)
    requires
      var s := Run(steps, files);
      r in s.runners && s.runners[r].Checking? && NoKeyHeld(s, r)
    ensures
      var left := |files| - Run(steps, files).runners[r].i;
      left >= 0 &&
      var after := Run(steps + (Rounds(r, left) + [Check(r)]), files);
      r in after.runners && after.runners[r] == Succeeded && after.applied == files
  {
    var s := Run(steps, files);
    EveryRunAppliesAPrefix(steps, files);
    SortedIsDistinct(files);
    assert s.runners[r].i <= |files|;
    var left := |files| - s.runners[r].i;
    hide Run, Rounds, After, NoKeyHeld;
    RunAfter(steps, Rounds(r, left) + [Check(r)], files);
    RoundsAdvance(s, r, left, files);
    AfterSnoc(s, Rounds(r, left), Check(r), files);
  }

  /** A runner that goes from looking up or executing to failure by a step of its own, and not by a fault, has lost a
      race:
      another one has committed the file since it was looked up. */
  lemma OnlyLostRacesFail(s: State, step: Step, files: seq<string>)
    requires NoDuplicates(files) && Inv(s, files) && step.r in s.runners && !s.runners[step.r].Failed?
    requires !step.Fail? && !step.Crash? && !step.CommitUnacknowledged?
    requires Apply(s, step, files).runners[step.r].Failed?
    ensures step.Record? && s.runners[step.r].Executed? && files[s.runners[step.r].i] in s.table
  {}

  /** The steps of one runner, 0, that has the database to itself; `faulty` says whose transaction fails. */
  function Alone(files: seq<string>, faulty: set<string>, table: set<string>, i: nat): seq<Step>
    requires i <= |files|
    decreases |files| - i
  {
    if i == |files| then [Check(0)]
    else if files[i] in table then [Check(0)] + Alone(files, faulty, table, i + 1)
    else if files[i] in faulty then [Check(0), Fail(0)]
    else Round(0) + Alone(files, faulty, table, i + 1)
  }

  function OneRunner(applied: seq<string>, table: set<string>, runner: Runner): State {
    State(applied, table, map[0 := runner])
  }

  lemma NobodyElse(applied: seq<string>, table: set<string>, runner: Runner, name: string, files: seq<string>)
    ensures !KeyHeld(OneRunner(applied, table, runner), 0, name, files)
  {}

  lemma Moved(applied: seq<string>, table: set<string>, runner: Runner, to: Runner)
    ensures MoveTo(OneRunner(applied, table, runner), 0, to) == OneRunner(applied, table, to)
  {
    assert map[0 := runner][0 := to] == map[0 := to];
  }

  lemma AloneChecks(applied: seq<string>, table: set<string>, files: seq<string>, i: nat)
    requires i <= |files|
    ensures
      After(OneRunner(applied, table, Checking(i)), [Check(0)], files) ==
        OneRunner(applied, table,
          if i == |files| then Succeeded else if files[i] in table then Checking(i + 1) else Beginning(i))
  {
    var s := OneRunner(applied, table, Checking(i));
    assert [] + [Check(0)] == [Check(0)];
    AfterSnoc(s, [], Check(0), files);
    Moved(applied, table, Checking(i), Succeeded);
    Moved(applied, table, Checking(i), Checking(i + 1));
    Moved(applied, table, Checking(i), Beginning(i));
    hide After, MoveTo;
  }

  lemma AloneFails(applied: seq<string>, table: set<string>, files: seq<string>, i: nat)
    requires i < |files| && files[i] !in table
    ensures
      After(OneRunner(applied, table, Checking(i)), [Check(0), Fail(0)], files) == OneRunner(applied, table, Failed)
  {
    AloneChecks(applied, table, files, i);
    AfterSnoc(OneRunner(applied, table, Checking(i)), [Check(0)], Fail(0), files);
    assert [Check(0)] + [Fail(0)] == [Check(0), Fail(0)];
    Moved(applied, table, Beginning(i), Failed);
    hide After, MoveTo;
  }

  lemma AloneApplies(applied: seq<string>, table: set<string>, files: seq<string>, i: nat)
    requires i < |files| && files[i] !in table
    ensures
      After(OneRunner(applied, table, Checking(i)), Round(0), files) ==
        OneRunner(applied + [files[i]], table + {files[i]}, Checking(i + 1))
  {
    var s0, s1 := OneRunner(applied, table, Checking(i)), OneRunner(applied, table, Beginning(i));
    var s2, s3 := OneRunner(applied, table, Executed(i)), OneRunner(applied, table, Recorded(i));
    RoundUnfolds(s0, 0, files);
    NobodyElse(applied, table, Executed(i), files[i], files);
    Moved(applied, table, Checking(i), Beginning(i));
    Moved(applied, table, Beginning(i), Executed(i));
    Moved(applied, table, Executed(i), Recorded(i));
    hide After, Round, KeyHeld, MoveTo;
    assert Apply(s0, Check(0), files) == s1;
    assert Apply(s1, Execute(0), files) == s2;
    assert Apply(s2, Record(0), files) == s3;
    LastMove(applied, table, files, i);
  }

  lemma LastMove(applied: seq<string>, table: set<string>, files: seq<string>, i: nat)
    requires i < |files|
    ensures
      Apply(OneRunner(applied, table, Recorded(i)), Commit(0), files) ==
        OneRunner(applied + [files[i]], table + {files[i]}, Checking(i + 1))
  {
    Moved(applied + [files[i]], table + {files[i]}, Recorded(i), Checking(i + 1));
  }

  lemma AloneEnds(applied: seq<string>, table: set<string>, files: seq<string>, faulty: set<string>, known: set<string>)
    ensures
      After(OneRunner(applied, table, Checking(|files|)), Alone(files, faulty, known, |files|), files) ==
        OneRunner(applied, table, Succeeded)
  {
    hide After, OneRunner;
    AloneChecks(applied, table, files, |files|);
  }

  /** What the steps of one runner come to, from its next file on. */
  lemma AloneGoesOn(applied: seq<string>, table: set<string>, files: seq<string>, faulty: set<string>,
      known: set<string>, i: nat)
    requires i < |files| && (files[i] in table <==> files[i] in known)
    ensures
      After(OneRunner(applied, table, Checking(i)), Alone(files, faulty, known, i), files) ==
        if files[i] in known then
          After(OneRunner(applied, table, Checking(i + 1)), Alone(files, faulty, known, i + 1), files)
        else if files[i] in faulty then OneRunner(applied, table, Failed)
        else
          After(OneRunner(applied + [files[i]], table + {files[i]}, Checking(i + 1)),
                Alone(files, faulty, known, i + 1), files)
  {
    var s, rest := OneRunner(applied, table, Checking(i)), Alone(files, faulty, known, i + 1);
    hide After, OneRunner, Round;
    if files[i] in known {
      AloneChecks(applied, table, files, i);
      AfterAppend(s, [Check(0)], rest, files);
    } else if files[i] in faulty {
      AloneFails(applied, table, files, i);
    } else {
      AloneApplies(applied, table, files, i);
      AfterAppend(s, Round(0), rest, files);
    }
  }

  /** What a runner with the database to itself ends with: everything, or all before the first file that fails. */
  ghost predicate IsOutcome(before: seq<string>, after: seq<string>, ok: bool, files: seq<string>,
      faulty: set<string>) {
    && before <= after <= files && (ok ==> after == files)
    && (forall name | name in files[|before|..|after|] :: name !in faulty)
    && (!ok ==> |after| < |files| && files[|after|] in faulty)
  }

  function Listed(names: seq<string>): set<string> { set name | name in names }

  function Reached(before: seq<string>, files: seq<string>, i: nat): seq<string>
    requires i <= |files|
  {
    if i < |before| then before else files[..i]
  }

  lemma OutcomeStep(before: seq<string>, after: seq<string>, ok: bool, files: seq<string>, faulty: set<string>, i: nat)
    requires NoDuplicates(files) && IsOutcome(before, after, ok, files, faulty) && i < |files|
    requires i <= |after|
    ensures
      var now := Reached(before, files, i);
      && (files[i] in Listed(before) <==> i < |before|) && (files[i] in Listed(now) <==> i < |before|)
      && (i < |before| ==> Reached(before, files, i + 1) == now)
      && (i >= |before| ==> Reached(before, files, i + 1) == now + [files[i]])
      && (i >= |before| ==> Listed(now + [files[i]]) == Listed(now) + {files[i]})
      && (|before| <= i < |after| ==> files[i] !in faulty) && (i == |after| ==> files[i] in faulty)
  {
    if |before| <= i < |after| { assert files[|before|..|after|][i - |before|] == files[i]; }
    if i + 1 == |before| { assert before == files[..i + 1]; }
  }

  lemma ReachedAll(before: seq<string>, after: seq<string>, ok: bool, files: seq<string>, faulty: set<string>)
    requires IsOutcome(before, after, ok, files, faulty)
    ensures Reached(before, files, |after|) == after
  {}

  /** The protocol ends there too. */
  lemma {:induction false} AloneReaches(before: seq<string>, after: seq<string>, ok: bool, files: seq<string>,
      faulty: set<string>, i: nat)
    requires NoDuplicates(files) && IsOutcome(before, after, ok, files, faulty) && i <= |files| && i <= |after|
    ensures
      var now := Reached(before, files, i);
      After(OneRunner(now, Listed(now), Checking(i)), Alone(files, faulty, Listed(before), i), files) ==
        OneRunner(after, Listed(after), if ok then Succeeded else Failed)
    decreases |files| - i
  {
    var now := Reached(before, files, i);
    if i == |files| {
      ReachedAll(before, after, ok, files, faulty);
      AloneEnds(now, Listed(now), files, faulty, Listed(before));
    } else {
      hide After, OneRunner, Alone, Listed, NoDuplicates, Reached;
      OutcomeStep(before, after, ok, files, faulty, i);
      AloneGoesOn(now, Listed(now), files, faulty, Listed(before), i);
      if i < |after| {
        AloneReaches(before, after, ok, files, faulty, i + 1);
      } else {
        ReachedAll(before, after, ok, files, faulty);
      }
    }
  }

  lemma ProtocolAgrees(before: seq<string>, known: set<string>, after: seq<string>, table: set<string>, ok: bool,
      files: seq<string>, faulty: set<string>)
    requires Sorted(files) && IsOutcome(before, after, ok, files, faulty)
    requires known == Listed(before) && table == Listed(after)
    ensures
      OneRunner(after, table, if ok then Succeeded else Failed) ==
        After(OneRunner(before, known, Checking(0)), Alone(files, faulty, known, 0), files)
  {
    SortedIsDistinct(files);
    assert Reached(before, files, 0) == before;
    hide After, OneRunner, Alone, Listed, IsOutcome;
    AloneReaches(before, after, ok, files, faulty, 0);
  }

  /** What the loop has done by its `i`th round. */
  ghost predicate IsUnderway(before: seq<string>, applied: seq<string>, table: set<string>, files: seq<string>,
      faulty: set<string>, i: nat) {
    && before <= applied <= files && table == Listed(applied) && i <= |files|
    && |applied| == (if i < |before| then |before| else i)
    && forall name | name in files[|before|..|applied|] :: name !in faulty
  }

  lemma FileIsListed(before: seq<string>, applied: seq<string>, table: set<string>, files: seq<string>,
      faulty: set<string>, i: nat)
    requires NoDuplicates(files) && IsUnderway(before, applied, table, files, faulty, i) && i < |files|
    ensures files[i] in table <==> i < |before|
  {}

  lemma Skipped(before: seq<string>, applied: seq<string>, table: set<string>, files: seq<string>, faulty: set<string>,
      i: nat)
    requires NoDuplicates(files) && IsUnderway(before, applied, table, files, faulty, i)
    requires i < |files| && files[i] in table
    ensures IsUnderway(before, applied, table, files, faulty, i + 1)
  {
    FileIsListed(before, applied, table, files, faulty, i);
    hide Listed, NoDuplicates;
  }

  lemma Applied(before: seq<string>, applied: seq<string>, table: set<string>, files: seq<string>, faulty: set<string>,
      i: nat)
    requires NoDuplicates(files) && IsUnderway(before, applied, table, files, faulty, i)
    requires i < |files| && files[i] !in table && files[i] !in faulty
    ensures IsUnderway(before, applied + [files[i]], table + {files[i]}, files, faulty, i + 1)
  {
    FileIsListed(before, applied, table, files, faulty, i);
    assert Listed(applied + [files[i]]) == Listed(applied) + {files[i]};
    assert files[..i + 1] == files[..i] + [files[i]] && files[|before|..i + 1] == files[|before|..i] + [files[i]];
    hide Listed, NoDuplicates;
  }

  lemma Ended(before: seq<string>, applied: seq<string>, table: set<string>, files: seq<string>, faulty: set<string>,
      i: nat)
    requires NoDuplicates(files) && IsUnderway(before, applied, table, files, faulty, i)
    requires i < |files| ==> files[i] !in table && files[i] in faulty
    ensures IsOutcome(before, applied, i == |files|, files, faulty)
  {
    if i < |files| { FileIsListed(before, applied, table, files, faulty, i); }
    hide Listed, NoDuplicates;
  }

  lemma OutcomeMeans(before: seq<string>, after: seq<string>, ok: bool, files: seq<string>, faulty: set<string>)
    requires IsOutcome(before, after, ok, files, faulty)
    ensures ok <==> forall name | name in files[|before|..] :: name !in faulty
  {
    if ok {
      assert files[|before|..|after|] == files[|before|..];
    } else {
      assert files[|before|..][|after| - |before|] == files[|after|];
    }
  }

  /** The loop of one runner with the database to itself: it takes the steps of the protocol. */
  class Store {
    var applied: seq<string>
    var table: set<string>

    ghost predicate Valid(files: seq<string>)
      reads this
    {
      applied <= files && table == Listed(applied)
    }

    method Migrate(files: seq<string>, faulty: set<string>) returns (ok: bool)
      requires Sorted(files) && Valid(files)
      modifies this
      ensures Valid(files) && old(applied) <= applied
      ensures ok <==> forall name | name in files[|old(applied)|..] :: name !in faulty
      ensures ok ==> applied == files
      ensures !ok ==> |applied| < |files| && files[|applied|] in faulty
      ensures !ok ==> forall name | name in files[|old(applied)|..|applied|] :: name !in faulty
      ensures
        OneRunner(applied, table, if ok then Succeeded else Failed) ==
          After(OneRunner(old(applied), old(table), Checking(0)), Alone(files, faulty, old(table), 0), files)
    {
      SortedIsDistinct(files);
      ghost var before, known := applied, table;
      hide After, OneRunner, Alone, Listed, NoDuplicates, Sorted;
      var i := 0;
      assert IsUnderway(before, applied, table, files, faulty, 0) by { assert files[|before|..|before|] == []; }
      while i < |files|
        invariant 0 <= i <= |files|
        invariant IsUnderway(before, applied, table, files, faulty, i)
      {
        var name := files[i];
        if name !in table {
          if name in faulty {
            Ended(before, applied, table, files, faulty, i);
            OutcomeMeans(before, applied, false, files, faulty);
            ProtocolAgrees(before, known, applied, table, false, files, faulty);
            return false;
          }
          Applied(before, applied, table, files, faulty, i);
          applied := applied + [name];
          table := table + {name};
        } else {
          Skipped(before, applied, table, files, faulty, i);
        }
        i := i + 1;
      }
      Ended(before, applied, table, files, faulty, i);
      OutcomeMeans(before, applied, true, files, faulty);
      ProtocolAgrees(before, known, applied, table, true, files, faulty);
      return true;
    }
  }
}
