/** The multi-target table (frontend/src/dashboard/usePanelData.ts, buildMergedTableRows): the series of several
    queries joined into one row for each combination of the labels the queries share. */
module TableJoin {
  import opened Wrappers
  import opened Text
  import opened SeriesNames

  datatype Series = Series(name: string, points: seq<real>)

  /** An entry of `columnSources`; the empty string is an absent field, as the source's truth tests have it. */
  datatype Source = Source(labelName: string, refId: string)

  /** `seriesByTarget` in the order in which its values are enumerated. */
  type Targets = seq<(string, seq<Series>)>

  datatype Cell = Text(text: string) | Number(value: real)

  type Row = map<string, Cell>

  const DASH := Text("\U{2014}")
  const NUL := "\0"

  function LatestValue(s: Series): real {
    if s.points == [] then 0.0 else s.points[|s.points| - 1]
  }

  function SeriesOf(targets: Targets, refId: string): seq<Series>
    decreases |targets|
  {
    if targets == [] then [] else if targets[0].0 == refId then targets[0].1 else SeriesOf(targets[1..], refId)
  }

  function AllSeries(targets: Targets): seq<Series>
    decreases |targets|
  {
    if targets == [] then [] else targets[0].1 + AllSeries(targets[1..])
  }

  function SourceSeries(source: Source, targets: Targets): seq<Series> {
    if source.refId != "" then SeriesOf(targets, source.refId) else AllSeries(targets)
  }

  /* The labels to join on. */

  /** Every target that returned anything has a series with this label. */
  predicate IsShared(name: string, targets: Targets) {
    forall t | t in targets && t.1 != [] :: exists s | s in t.1 :: name in LabelsOf(s.name)
  }

  function JoinLabels(columns: seq<string>, sources: map<string, Source>, targets: Targets): (r: seq<string>)
    ensures forall name :: name in r <==>
      && (exists c | c in columns :: c in sources && sources[c].labelName == name && name != "")
      && forall t | t in targets && t.1 != [] :: exists s | s in t.1 :: name in SeriesNames.Parsed(s.name).labels
  {
    if columns == [] then []
    else
      var init := JoinLabels(columns[..|columns| - 1], sources, targets);
      var c := columns[|columns| - 1];
      assert columns == columns[..|columns| - 1] + [c];
      if c in sources && sources[c].labelName != "" && IsShared(sources[c].labelName, targets)
      then init + [sources[c].labelName] else init
  }

  /** The values a series has for the labels; an absent one counts as empty. */
  function Tuple(names: seq<string>, labels: map<string, string>): seq<string> {
    seq(|names|, i requires 0 <= i < |names| => if names[i] in labels then labels[names[i]] else "")
  }

  function KeyOf(tuple: seq<string>): string { Join(tuple, NUL) }

  /** Two series share their values exactly when they agree on every label, an absent one reading as empty. */
  lemma TupleAgrees(names: seq<string>, a: map<string, string>, b: map<string, string>)
    ensures Tuple(names, a) == Tuple(names, b) <==>
      forall name | name in names ::
        (if name in a then a[name] else "") == (if name in b then b[name] else "")
  {
    var x, y := Tuple(names, a), Tuple(names, b);
    if x == y {
      forall name | name in names ensures (if name in a then a[name] else "") == (if name in b then b[name] else "") {
        var i :| 0 <= i < |names| && names[i] == name;
        assert x[i] == y[i];
      }
    } else {
      var i :| 0 <= i < |names| && x[i] != y[i];
      assert names[i] in names;
    }
  }

  /* The traversal: columns outside, series inside. */

  /** What one round of the inner loop works with. */
  datatype Step = Step(col: string, source: Source, labels: map<string, string>, latest: real)

  function StepFor(col: string, source: Source, s: Series): Step { Step(col, source, LabelsOf(s.name), LatestValue(s)) }

  function ColumnSteps(col: string, source: Source, list: seq<Series>): seq<Step> {
    seq(|list|, i requires 0 <= i < |list| => StepFor(col, source, list[i]))
  }

  function StepsOf(col: string, sources: map<string, Source>, targets: Targets): seq<Step> {
    if col in sources then ColumnSteps(col, sources[col], SourceSeries(sources[col], targets)) else []
  }

  function Steps(columns: seq<string>, sources: map<string, Source>, targets: Targets): seq<Step>
    decreases |columns|
  {
    if columns == [] then []
    else Steps(columns[..|columns| - 1], sources, targets) + StepsOf(columns[|columns| - 1], sources, targets)
  }

  /** What a step writes into its row, if anything. `round` is the rounding to two decimals. */
  function CellOf(step: Step, round: real -> real): Option<Cell> {
    if step.source.labelName != "" then
      if step.source.labelName in step.labels then Some(Text(step.labels[step.source.labelName])) else None
    else Some(Number(round(step.latest)))
  }

  function Written(row: Row, step: Step, round: real -> real): Row {
    var cell := CellOf(step, round);
    if cell.Some? then row[step.col := cell.value] else row
  }

  function KeyAt(step: Step, names: seq<string>): string { KeyOf(Tuple(names, step.labels)) }

  function KeysOf(steps: seq<Step>, names: seq<string>): seq<string> {
    seq(|steps|, i requires 0 <= i < |steps| => KeyAt(steps[i], names))
  }

  /** The distinct elements, in the order of their first occurrences. */
  function FirstSeen<T(==)>(xs: seq<T>): seq<T>
    decreases |xs|
  {
    if xs == [] then []
    else
      var init, x := FirstSeen(xs[..|xs| - 1]), xs[|xs| - 1];
      if x in init then init else init + [x]
  }

  function RowOf(steps: seq<Step>, names: seq<string>, key: string, round: real -> real): Row
    decreases |steps|
  {
    if steps == [] then map[]
    else
      var init, last := RowOf(steps[..|steps| - 1], names, key, round), steps[|steps| - 1];
      if KeyAt(last, names) == key then Written(init, last, round) else init
  }

  function Completed(columns: seq<string>, row: Row): Row {
    map c | c in columns :: CellIn(row, c)
  }

  function CellIn(row: Row, col: string): Cell { if col in row then row[col] else DASH }

  function RowsFrom(columns: seq<string>, keys: seq<string>, steps: seq<Step>, names: seq<string>,
      round: real -> real): seq<Row> {
    seq(|keys|, i requires 0 <= i < |keys| => Completed(columns, RowOf(steps, names, keys[i], round)))
  }

  function MergedRows(columns: seq<string>, sources: map<string, Source>, targets: Targets,
      round: real -> real): (r: seq<Row>) {
    var names := JoinLabels(columns, sources, targets);
    var steps := Steps(columns, sources, targets);
    RowsFrom(columns, FirstSeen(KeysOf(steps, names)), steps, names, round)
  }

  /* The code: an insertion-ordered map of rows, filled in place. */

  function RowIn(rows: map<string, Row>, key: string): Row { if key in rows then rows[key] else map[] }

  /** `keys` and `rows` are the map after the steps. */
  ghost predicate Holds(keys: seq<string>, rows: map<string, Row>, steps: seq<Step>, names: seq<string>,
      round: real -> real) {
    && keys == FirstSeen(KeysOf(steps, names))
    && (forall k :: k in rows <==> k in keys)
    && forall k :: RowOf(steps, names, k, round) == RowIn(rows, k)
  }

  lemma KeysSnoc(steps: seq<Step>, step: Step, names: seq<string>)
    ensures KeysOf(steps + [step], names) == KeysOf(steps, names) + [KeyAt(step, names)]
  {}

  lemma FirstSeenSnoc<T>(xs: seq<T>, x: T)
    ensures FirstSeen(xs + [x]) == if x in FirstSeen(xs) then FirstSeen(xs) else FirstSeen(xs) + [x]
  {
    assert (xs + [x])[..|xs|] == xs;
  }

  lemma RowSnoc(steps: seq<Step>, step: Step, names: seq<string>, key: string, round: real -> real)
    ensures
      var row := RowOf(steps, names, key, round);
      RowOf(steps + [step], names, key, round) == if KeyAt(step, names) == key then Written(row, step, round) else row
  {
    assert (steps + [step])[..|steps|] == steps;
  }

  lemma StepHolds(keys: seq<string>, rows: map<string, Row>, steps: seq<Step>, step: Step, names: seq<string>,
      round: real -> real, key: string)
    requires Holds(keys, rows, steps, names, round) && key == KeyAt(step, names)
    ensures
      var keys' := if key in rows then keys else keys + [key];
      Holds(keys', rows[key := Written(RowIn(rows, key), step, round)], steps + [step], names, round)
  {
    hide KeysOf, FirstSeen, RowOf, Written, KeyAt;
    KeysSnoc(steps, step, names);
    FirstSeenSnoc(KeysOf(steps, names), key);
    forall k
      ensures RowOf(steps + [step], names, k, round) ==
        if k == key then Written(RowIn(rows, k), step, round) else RowIn(rows, k) {
      RowSnoc(steps, step, names, k, round);
    }
  }

  /** One round of the inner loop. */
  method FillRow(step: Step, names: seq<string>, round: real -> real, before: seq<string>, filled: map<string, Row>,
      ghost steps: seq<Step>)
      returns (keys: seq<string>, rows: map<string, Row>)
    requires Holds(before, filled, steps, names, round)
    ensures Holds(keys, rows, steps + [step], names, round)
  {
    var key := KeyOf(Tuple(names, step.labels));
    var row := if key in filled then filled[key] else map[];
    if step.source.labelName != "" {
      if step.source.labelName in step.labels { row := row[step.col := Text(step.labels[step.source.labelName])]; }
    } else {
      row := row[step.col := Number(round(step.latest))];
    }
    StepHolds(before, filled, steps, step, names, round, key);
    keys := if key in filled then before else before + [key];
    rows := filled[key := row];
  }

  /** The inner loop: one column, all its series. */
  method FillColumn(col: string, source: Source, list: seq<Series>, names: seq<string>, round: real -> real,
                    before: seq<string>, filled: map<string, Row>, ghost steps: seq<Step>)
      returns (keys: seq<string>, rows: map<string, Row>)
    requires Holds(before, filled, steps, names, round)
    ensures Holds(keys, rows, steps + ColumnSteps(col, source, list), names, round)
  {
    hide Holds, LabelsOf, LatestValue;
    keys, rows := before, filled;
    ghost var done := steps;
    for j := 0 to |list|
      invariant done == steps + ColumnSteps(col, source, list)[..j]
      invariant Holds(keys, rows, done, names, round)
    {
      keys, rows := FillRow(StepFor(col, source, list[j]), names, round, keys, rows, done);
      done := done + [StepFor(col, source, list[j])];
    }
    assert ColumnSteps(col, source, list)[..|list|] == ColumnSteps(col, source, list);
  }

  /** The final map over the rows. */
  method CompleteRows(columns: seq<string>, keys: seq<string>, rows: map<string, Row>, ghost steps: seq<Step>,
      names: seq<string>, round: real -> real)
      returns (table: seq<Row>)
    requires Holds(keys, rows, steps, names, round)
    ensures table == RowsFrom(columns, FirstSeen(KeysOf(steps, names)), steps, names, round)
  {
    table := [];
    for i := 0 to |keys|
      invariant table == RowsFrom(columns, keys, steps, names, round)[..i]
    {
      assert rows[keys[i]] == RowIn(rows, keys[i]);
      table := table + [Completed(columns, rows[keys[i]])];
    }
  }

  method BuildMergedTableRows(columns: seq<string>, sources: map<string, Source>, targets: Targets, round: real -> real)
      returns (table: seq<Row>)
    ensures table == MergedRows(columns, sources, targets, round)
  {
    var names := JoinLabels(columns, sources, targets);
    var keys: seq<string>, rows: map<string, Row> := [], map[];
    ghost var steps: seq<Step> := [];
    assert Holds(keys, rows, steps, names, round);
    hide Holds, JoinLabels, RowsFrom, FirstSeen, KeysOf, ColumnSteps, SourceSeries;
    for i := 0 to |columns|
      invariant steps == Steps(columns[..i], sources, targets)
      invariant Holds(keys, rows, steps, names, round)
    {
      var col := columns[i];
      assert columns[..i + 1][..i] == columns[..i];
      if col in sources {
        var list := SourceSeries(sources[col], targets);
        keys, rows := FillColumn(col, sources[col], list, names, round, keys, rows, steps);
        steps := steps + ColumnSteps(col, sources[col], list);
      }
    }
    assert columns[..|columns|] == columns;
    table := CompleteRows(columns, keys, rows, steps, names, round);
  }

  /* What the table is. */

  ghost predicate NulFree(tuple: seq<string>) { forall s | s in tuple :: '\0' !in s }

  /** The key is this tuple's alone. */
  ghost predicate Keyed(tuple: seq<string>) { |tuple| < 2 || NulFree(tuple) }

  lemma JoinUnfold(tuple: seq<string>)
    requires tuple != []
    ensures KeyOf(tuple) == if |tuple| == 1 then tuple[0] else tuple[0] + NUL + KeyOf(tuple[1..])
  {}

  /** Text before the first NUL is the first value. */
  lemma SplitAtNul(a: string, x: string, b: string, y: string)
    requires '\0' !in a && '\0' !in b && a + NUL + x == b + NUL + y
    ensures a == b && x == y
  {
    var s := a + NUL + x;
    assert s[|a|] == '\0' && s[|b|] == '\0';
    assert forall k | 0 <= k < |a| :: s[k] == a[k] && s[k] != '\0';
    assert forall k | 0 <= k < |b| :: s[k] == b[k] && s[k] != '\0';
    assert |a| == |b|;
    assert s[..|a|] == a && s[..|b|] == b && s[|a| + 1..] == x && s[|b| + 1..] == y;
  }

  function Nuls(s: string): nat
    decreases |s|
  {
    if s == "" then 0 else (if s[0] == '\0' then 1 else 0) + Nuls(s[1..])
  }

  function NulsIn(tuple: seq<string>): nat
    decreases |tuple|
  {
    if tuple == [] then 0 else Nuls(tuple[0]) + NulsIn(tuple[1..])
  }

  lemma {:induction false} NulsAppend(a: string, b: string)
    ensures Nuls(a + b) == Nuls(a) + Nuls(b)
    decreases |a|
  {
    if a == "" {
      assert a + b == b;
    } else {
      assert (a + b)[1..] == a[1..] + b;
      NulsAppend(a[1..], b);
    }
  }

  lemma {:induction false} NoNuls(s: string)
    ensures Nuls(s) == 0 <==> '\0' !in s
    decreases |s|
  {
    if s != "" {
      NoNuls(s[1..]);
      assert forall c :: c in s <==> c == s[0] || c in s[1..];
    }
  }

  lemma {:induction false} NulsOfKey(tuple: seq<string>)
    ensures Nuls(KeyOf(tuple)) == NulsIn(tuple) + if tuple == [] then 0 else |tuple| - 1
    ensures NulsIn(tuple) == 0 <==> NulFree(tuple)
    decreases |tuple|
  {
    if tuple != [] {
      NoNuls(tuple[0]);
      NulsOfKey(tuple[1..]);
      JoinUnfold(tuple);
      assert forall s :: s in tuple <==> s == tuple[0] || s in tuple[1..];
      if |tuple| > 1 {
        NulsAppend(tuple[0] + NUL, KeyOf(tuple[1..]));
        NulsAppend(tuple[0], NUL);
        assert Nuls(NUL) == 1;
      }
    }
  }

  lemma {:induction false} NulFreeKeys(a: seq<string>, b: seq<string>)
    requires |a| == |b| && NulFree(a) && NulFree(b) && KeyOf(a) == KeyOf(b)
    ensures a == b
    decreases |a|
  {
    if |a| > 0 {
      JoinUnfold(a);
      JoinUnfold(b);
      if |a| > 1 {
        SplitAtNul(a[0], KeyOf(a[1..]), b[0], KeyOf(b[1..]));
        NulFreeKeys(a[1..], b[1..]);
        assert a == [a[0]] + a[1..] && b == [b[0]] + b[1..];
      }
    }
  }

  /** A tuple of fewer than two values, or of NUL-free ones, shares its key with no other of its length. */
  lemma KeyIsInjective(a: seq<string>, b: seq<string>)
    requires |a| == |b| && Keyed(a) && KeyOf(a) == KeyOf(b)
    ensures a == b
  {
    if |a| >= 2 {
      NulsOfKey(a);
      NulsOfKey(b);
      NulFreeKeys(a, b);
    } else if |a| == 1 {
      JoinUnfold(a);
      JoinUnfold(b);
    }
  }

  /** Where the boundary between two neighbours is drawn makes no difference to the key. */
  lemma {:induction false} MovedBoundary(a: seq<string>, b: seq<string>, i: nat)
    requires i + 1 < |a| == |b| && a[i] + NUL + a[i + 1] == b[i] + NUL + b[i + 1]
    requires forall k | 0 <= k < |a| && k != i && k != i + 1 :: a[k] == b[k]
    ensures KeyOf(a) == KeyOf(b)
    decreases i
  {
    JoinUnfold(a);
    JoinUnfold(b);
    if i > 0 {
      MovedBoundary(a[1..], b[1..], i - 1);
    } else {
      JoinUnfold(a[1..]);
      JoinUnfold(b[1..]);
      assert a[1..][1..] == b[1..][1..];
      if |a| > 2 { SameEnd(a[0], a[1], b[0], b[1], KeyOf(a[1..][1..])); }
    }
  }

  lemma SameEnd(a: string, x: string, b: string, y: string, rest: string)
    requires a + NUL + x == b + NUL + y
    ensures a + NUL + (x + NUL + rest) == b + NUL + (y + NUL + rest)
  {
    assert a + NUL + (x + NUL + rest) == (a + NUL + x) + NUL + rest;
    assert b + NUL + (y + NUL + rest) == (b + NUL + y) + NUL + rest;
  }

  /** A value that holds a NUL gives its part of the key to another tuple as well. */
  lemma SharedKey(a: seq<string>, i: nat) returns (b: seq<string>)
    requires |a| >= 2 && i < |a| && '\0' in a[i]
    ensures |b| == |a| && b != a && KeyOf(b) == KeyOf(a)
  {
    var k :| 0 <= k < |a[i]| && a[i][k] == '\0';
    var u, v := a[i][..k], a[i][k + 1..];
    assert a[i] == u + NUL + v;
    if i + 1 < |a| {
      b := a[i := u][i + 1 := v + NUL + a[i + 1]];
      assert a[i] + NUL + a[i + 1] == u + NUL + (v + NUL + a[i + 1]);
      MovedBoundary(a, b, i);
      assert |b[i]| < |a[i]|;
    } else {
      b := a[i - 1 := a[i - 1] + NUL + u][i := v];
      assert a[i - 1] + NUL + a[i] == a[i - 1] + NUL + u + NUL + v;
      MovedBoundary(a, b, i - 1);
      assert |b[i]| < |a[i]|;
    }
  }

  /** Exactly when a key is one tuple's alone: of two or more values, when none of them holds a NUL. */
  lemma KeyIsUniqueIffNulFree(a: seq<string>)
    requires |a| >= 2
    ensures (forall b | |b| == |a| && KeyOf(b) == KeyOf(a) :: b == a) <==> NulFree(a)
  {
    if NulFree(a) {
      forall b | |b| == |a| && KeyOf(b) == KeyOf(a) ensures b == a { KeyIsInjective(a, b); }
    } else {
      var i :| 0 <= i < |a| && '\0' in a[i];
      var b := SharedKey(a, i);
    }
  }

  lemma {:induction false} FirstSeenOnce<T(!new)>(xs: seq<T>)
    ensures NoDuplicates(FirstSeen(xs)) && forall x :: x in FirstSeen(xs) <==> x in xs
    decreases |xs|
  {
    if xs != [] {
      FirstSeenOnce(xs[..|xs| - 1]);
      assert xs == xs[..|xs| - 1] + [xs[|xs| - 1]];
    }
  }

  /** Target `k` is the first one with a name. */
  predicate IsNamed(targets: Targets, k: nat, refId: string) {
    k < |targets| && targets[k].0 == refId && forall j | 0 <= j < k :: targets[j].0 != refId
  }

  lemma {:induction false} NamedSeries(targets: Targets, refId: string)
    ensures forall k: nat | IsNamed(targets, k, refId) :: SeriesOf(targets, refId) == targets[k].1
    ensures (forall t | t in targets :: t.0 != refId) ==> SeriesOf(targets, refId) == []
    decreases |targets|
  {
    if targets != [] {
      var rest := targets[1..];
      NamedSeries(rest, refId);
      if targets[0].0 != refId {
        forall k: nat | IsNamed(targets, k, refId) ensures SeriesOf(targets, refId) == targets[k].1 {
          assert forall j | 0 <= j < k - 1 :: rest[j] == targets[j + 1];
          assert IsNamed(rest, k - 1, refId);
        }
      }
    }
  }

  /** How many series the targets before `k` have. */
  function Before(targets: Targets, k: nat): nat
    requires k <= |targets|
    decreases k
  {
    if k == 0 then 0 else Before(targets, k - 1) + |targets[k - 1].1|
  }

  lemma {:induction false} BeforeLater(targets: Targets, k: nat)
    requires targets != [] && k < |targets|
    ensures Before(targets, k + 1) == |targets[0].1| + Before(targets[1..], k)
    decreases k
  {
    if k > 0 {
      BeforeLater(targets, k - 1);
      assert targets[1..][k - 1] == targets[k];
    } else {
      assert Before(targets, 0) == 0 && Before(targets[1..], 0) == 0;
    }
  }

  /** All series, target after target. */
  lemma {:induction false} EverySeries(targets: Targets, k: nat, i: nat)
    ensures |AllSeries(targets)| == Before(targets, |targets|)
    ensures k < |targets| && i < |targets[k].1| ==>
      Before(targets, k) + i < |AllSeries(targets)| && AllSeries(targets)[Before(targets, k) + i] == targets[k].1[i]
    decreases |targets|
  {
    if targets != [] {
      var rest := targets[1..];
      EverySeries(rest, if k > 0 then k - 1 else 0, i);
      BeforeLater(targets, |targets| - 1);
      if 0 < k < |targets| {
        BeforeLater(targets, k - 1);
        assert rest[k - 1] == targets[k];
      }
    }
  }

  /** One step for each series, in order. */
  ghost predicate AreStepsOf(steps: seq<Step>, col: string, source: Source, list: seq<Series>) {
    |steps| == |list| && forall i | 0 <= i < |list| :: steps[i] == StepFor(col, source, list[i])
  }

  /** One step for each series of every target, in order, target after target. */
  ghost predicate AreStepsOfAll(steps: seq<Step>, col: string, source: Source, targets: Targets) {
    && |steps| == Before(targets, |targets|)
    && forall k: nat, i: nat | k < |targets| && i < |targets[k].1| ::
         Before(targets, k) + i < |steps| && steps[Before(targets, k) + i] == StepFor(col, source, targets[k].1[i])
  }

  lemma StepsOfList(col: string, sources: map<string, Source>, targets: Targets)
    requires col in sources
    ensures AreStepsOf(StepsOf(col, sources, targets), col, sources[col], SourceSeries(sources[col], targets))
  {
    hide StepFor, SourceSeries;
  }

  lemma NamedSteps(col: string, sources: map<string, Source>, targets: Targets)
    requires col in sources && sources[col].refId != ""
    ensures
      var source, steps := sources[col], StepsOf(col, sources, targets);
      && ((forall t | t in targets :: t.0 != source.refId) ==> steps == [])
      && forall k: nat | IsNamed(targets, k, source.refId) :: AreStepsOf(steps, col, source, targets[k].1)
  {
    StepsOfList(col, sources, targets);
    hide StepFor, SeriesOf, IsNamed, StepsOf;
    NamedSeries(targets, sources[col].refId);
  }

  lemma UnnamedSteps(col: string, sources: map<string, Source>, targets: Targets)
    requires col in sources && sources[col].refId == ""
    ensures AreStepsOfAll(StepsOf(col, sources, targets), col, sources[col], targets)
  {
    hide StepFor, AllSeries, StepsOf, Before;
    StepsOfList(col, sources, targets);
    EverySeries(targets, 0, 0);
    forall k: nat, i: nat | k < |targets| && i < |targets[k].1|
      ensures
        Before(targets, k) + i < |AllSeries(targets)| && AllSeries(targets)[Before(targets, k) + i] == targets[k].1[i] {
      EverySeries(targets, k, i);
    }
  }

  /** The steps of a column: none without a source; those of the series of the target that it names, in order, and none
      if there is no such target; otherwise those of all series, target after target. */
  lemma StepsOfColumn(col: string, sources: map<string, Source>, targets: Targets)
    ensures
      var steps := StepsOf(col, sources, targets);
      if col !in sources then steps == []
      else if sources[col].refId == "" then AreStepsOfAll(steps, col, sources[col], targets)
      else
        && ((forall t | t in targets :: t.0 != sources[col].refId) ==> steps == [])
        && forall k: nat | IsNamed(targets, k, sources[col].refId) :: AreStepsOf(steps, col, sources[col], targets[k].1)
  {
    hide IsNamed, AreStepsOf, AreStepsOfAll;
    if col in sources && sources[col].refId == "" {
      UnnamedSteps(col, sources, targets);
    } else if col in sources {
      NamedSteps(col, sources, targets);
    }
  }

  lemma StepsHaveColumn(col: string, sources: map<string, Source>, targets: Targets)
    ensures forall step | step in StepsOf(col, sources, targets) :: step.col == col
  {}

  /** The traversal visits exactly the steps of its columns, one column after another. */
  lemma {:induction false} StepsAreTraversal(columns: seq<string>, sources: map<string, Source>, targets: Targets)
    ensures forall step :: step in Steps(columns, sources, targets) <==>
      step.col in columns && step in StepsOf(step.col, sources, targets)
    ensures forall k | 0 <= k <= |columns| :: Steps(columns[..k], sources, targets) <= Steps(columns, sources, targets)
    decreases |columns|
  {
    if columns != [] {
      var init, last := columns[..|columns| - 1], columns[|columns| - 1];
      StepsAreTraversal(init, sources, targets);
      assert columns == init + [last];
      StepsHaveColumn(last, sources, targets);
      forall k | 0 <= k <= |columns| ensures Steps(columns[..k], sources, targets) <= Steps(columns, sources, targets) {
        if k == |columns| { assert columns[..k] == columns; } else { assert columns[..k] == init[..k]; }
      }
    }
  }

  /** First occurrences: what comes earlier in the result was seen before. */
  lemma {:induction false} FirstSeenIsOrdered<T(!new)>(xs: seq<T>, a: nat, b: nat)
    requires a < b < |FirstSeen(xs)|
    ensures exists i | 0 <= i < |xs| :: xs[i] == FirstSeen(xs)[a] && FirstSeen(xs)[b] !in xs[..i + 1]
    decreases |xs|
  {
    var n := |xs| - 1;
    var init := FirstSeen(xs[..n]);
    FirstSeenOnce(xs[..n]);
    if b < |init| {
      FirstSeenIsOrdered(xs[..n], a, b);
      var i :| 0 <= i < n && xs[..n][i] == init[a] && init[b] !in xs[..n][..i + 1];
      assert xs[..n][..i + 1] == xs[..i + 1];
    } else {
      assert init[a] in xs[..n];
      var i :| 0 <= i < n && xs[i] == init[a];
      assert forall x | x in xs[..i + 1] :: x in xs[..n];
    }
  }

  function TuplesOf(steps: seq<Step>, names: seq<string>): seq<seq<string>> {
    seq(|steps|, i requires 0 <= i < |steps| => Tuple(names, steps[i].labels))
  }

  function Joined(tuples: seq<seq<string>>): seq<string> {
    seq(|tuples|, i requires 0 <= i < |tuples| => KeyOf(tuples[i]))
  }

  lemma JoinedSnoc(tuples: seq<seq<string>>, tuple: seq<string>)
    ensures Joined(tuples + [tuple]) == Joined(tuples) + [KeyOf(tuple)]
  {}

  lemma KeySeen(seen: seq<seq<string>>, tuple: seq<string>)
    requires Keyed(tuple) && forall t | t in seen :: |t| == |tuple| && Keyed(t)
    ensures KeyOf(tuple) in Joined(seen) <==> tuple in seen
  {
    if KeyOf(tuple) in Joined(seen) {
      var i :| 0 <= i < |seen| && Joined(seen)[i] == KeyOf(tuple);
      KeyIsInjective(seen[i], tuple);
    }
    if tuple in seen {
      var i :| 0 <= i < |seen| && seen[i] == tuple;
      assert Joined(seen)[i] == KeyOf(tuple);
    }
  }

  lemma {:induction false} FirstSeenOfKeys(tuples: seq<seq<string>>, width: nat)
    requires forall t | t in tuples :: |t| == width && Keyed(t)
    ensures FirstSeen(Joined(tuples)) == Joined(FirstSeen(tuples))
    decreases |tuples|
  {
    if tuples != [] {
      var init, last := tuples[..|tuples| - 1], tuples[|tuples| - 1];
      assert tuples == init + [last];
      FirstSeenOfKeys(init, width);
      FirstSeenOnce(init);
      KeySeen(FirstSeen(init), last);
      FirstSeenSnoc(init, last);
      FirstSeenSnoc(Joined(init), KeyOf(last));
      JoinedSnoc(init, last);
      JoinedSnoc(FirstSeen(init), last);
    }
  }

  /** The step writes the column of the row for this combination of values. */
  ghost predicate Gives(step: Step, names: seq<string>, tuple: seq<string>, col: string, round: real -> real) {
    step.col == col && Tuple(names, step.labels) == tuple && CellOf(step, round).Some?
  }

  /** The value from the last contributing series, else the dash. */
  ghost predicate IsCell(cell: Cell, steps: seq<Step>, names: seq<string>, tuple: seq<string>, col: string,
      round: real -> real) {
    if forall i | 0 <= i < |steps| :: !Gives(steps[i], names, tuple, col, round) then cell == DASH
    else exists i | 0 <= i < |steps| ::
      && Gives(steps[i], names, tuple, col, round) && CellOf(steps[i], round) == Some(cell)
      && forall j | i < j < |steps| :: !Gives(steps[j], names, tuple, col, round)
  }

  lemma CellSnoc(cell: Cell, steps: seq<Step>, step: Step, names: seq<string>, tuple: seq<string>, col: string,
      round: real -> real)
    requires IsCell(cell, steps, names, tuple, col, round)
    ensures
      var after := if Gives(step, names, tuple, col, round) then CellOf(step, round).value else cell;
      IsCell(after, steps + [step], names, tuple, col, round)
  {
    var after := steps + [step];
    assert after[|steps|] == step && forall i | 0 <= i < |steps| :: after[i] == steps[i];
    if !Gives(step, names, tuple, col, round) &&
      exists i | 0 <= i < |steps| :: Gives(steps[i], names, tuple, col, round) {
      var i :| 0 <= i < |steps| && Gives(steps[i], names, tuple, col, round) && CellOf(steps[i], round) == Some(cell)
        && forall j | i < j < |steps| :: !Gives(steps[j], names, tuple, col, round);
      assert Gives(after[i], names, tuple, col, round);
    }
  }

  lemma {:induction false} CellIsLast(steps: seq<Step>, names: seq<string>, tuple: seq<string>, col: string,
      round: real -> real)
    requires |tuple| == |names| && Keyed(tuple) && forall s | s in steps :: Keyed(Tuple(names, s.labels))
    ensures IsCell(CellIn(RowOf(steps, names, KeyOf(tuple), round), col), steps, names, tuple, col, round)
    decreases |steps|
  {
    if steps != [] {
      var init, last := steps[..|steps| - 1], steps[|steps| - 1];
      assert steps == init + [last];
      CellIsLast(init, names, tuple, col, round);
      RowSnoc(init, last, names, KeyOf(tuple), round);
      if KeyAt(last, names) == KeyOf(tuple) { KeyIsInjective(Tuple(names, last.labels), tuple); }
      CellSnoc(CellIn(RowOf(init, names, KeyOf(tuple), round), col), init, last, names, tuple, col, round);
    }
  }

  /** The table, said of combinations of label values. */
  ghost predicate IsJoin(table: seq<Row>, columns: seq<string>, tuples: seq<seq<string>>, steps: seq<Step>,
      names: seq<string>, round: real -> real) {
    && |table| == |tuples|
    && forall r | 0 <= r < |table| ::
      && table[r].Keys == (set c | c in columns)
      && forall c | c in columns :: IsCell(table[r][c], steps, names, tuples[r], c, round)
  }

  lemma RowsAreCells(columns: seq<string>, tuples: seq<seq<string>>, steps: seq<Step>, names: seq<string>,
      round: real -> real)
    requires forall s | s in steps :: Keyed(Tuple(names, s.labels))
    requires forall t | t in tuples :: |t| == |names| && Keyed(t)
    ensures IsJoin(RowsFrom(columns, Joined(tuples), steps, names, round), columns, tuples, steps, names, round)
  {
    var table := RowsFrom(columns, Joined(tuples), steps, names, round);
    forall r, c | 0 <= r < |table| && c in columns ensures IsCell(table[r][c], steps, names, tuples[r], c, round) {
      assert tuples[r] in tuples;
      CellIsLast(steps, names, tuples[r], c, round);
    }
  }

  /** Main theorem: a declarative join. There is one row for each distinct combination of join-label values
      among the visited series, in first-seen order; each has exactly the configured columns; and each cell
      is the value from the last series that contributes to it, else the dash. */
  lemma RowsAreTheJoin(columns: seq<string>, sources: map<string, Source>, targets: Targets, round: real -> real)
    requires var names := JoinLabels(columns, sources, targets);
      forall s | s in Steps(columns, sources, targets) :: Keyed(Tuple(names, s.labels))
    ensures
      var names := JoinLabels(columns, sources, targets);
      var steps := Steps(columns, sources, targets);
      IsJoin(MergedRows(columns, sources, targets, round), columns, FirstSeen(TuplesOf(steps, names)), steps, names,
        round)
  {
    var names := JoinLabels(columns, sources, targets);
    var steps := Steps(columns, sources, targets);
    var tuples := TuplesOf(steps, names);
    forall t | t in tuples ensures |t| == |names| && Keyed(t) {
      var i :| 0 <= i < |tuples| && tuples[i] == t;
      assert steps[i] in steps;
    }
    assert KeysOf(steps, names) == Joined(tuples);
    hide Joined, KeysOf, FirstSeen, RowsFrom, IsJoin, Steps, JoinLabels, Keyed, TuplesOf;
    FirstSeenOfKeys(tuples, |names|);
    FirstSeenOnce(tuples);
    RowsAreCells(columns, FirstSeen(tuples), steps, names, round);
  }

  /** What a visited series gives to a cell: for a column of values its last point, rounded, or the rounded zero when it
      has none; for a column of labels what the label reads as in its name, if it is there. */
  lemma SeriesGives(col: string, source: Source, s: Series, round: real -> real)
    ensures
      var step, labels := StepFor(col, source, s), SeriesNames.Parsed(s.name).labels;
      && step.labels == labels
      && (source.labelName == "" && s.points == [] ==> CellOf(step, round) == Some(Number(round(0.0))))
      && (source.labelName == "" ==>
           forall before: seq<real>, x: real | s.points == before + [x] ::
             CellOf(step, round) == Some(Number(round(x))))
      && (source.labelName != "" ==>
           CellOf(step, round) ==
             if source.labelName in labels then Some(Text(labels[source.labelName])) else None)
  {
    forall before: seq<real>, x: real | s.points == before + [x] ensures LatestValue(s) == x {
      assert s.points[|s.points| - 1] == x;
    }
  }

  /** Series `s` is the last one to contribute to column `c` in row `r`. */
  ghost predicate ContributesLast(columns: seq<string>, sources: map<string, Source>, targets: Targets, r: nat,
      c: string,
      s: Series, round: real -> real) {
    var names, steps := JoinLabels(columns, sources, targets), Steps(columns, sources, targets);
    var tuples := FirstSeen(TuplesOf(steps, names));
    && c in sources && r < |tuples|
    && exists i | 0 <= i < |steps| ::
      && steps[i] == StepFor(c, sources[c], s) && Gives(steps[i], names, tuples[r], c, round)
      && forall j | i < j < |steps| :: !Gives(steps[j], names, tuples[r], c, round)
  }

  /** Main theorem: the cell of a row in a column is what the last contributing series says: its last point, rounded, in
      a column of values, and the value of the label in its name in a column of labels. */
  lemma CellFromLastSeries(columns: seq<string>, sources: map<string, Source>, targets: Targets, round: real -> real,
      r: nat, c: string, s: Series)
    requires
      var names := JoinLabels(columns, sources, targets);
      forall step | step in Steps(columns, sources, targets) :: Keyed(Tuple(names, step.labels))
    requires c in columns && ContributesLast(columns, sources, targets, r, c, s, round)
    ensures
      var table := MergedRows(columns, sources, targets, round);
      r < |table| && c in table[r] &&
      if sources[c].labelName != "" then
        var labels := SeriesNames.Parsed(s.name).labels;
        sources[c].labelName in labels && table[r][c] == Text(labels[sources[c].labelName])
      else if s.points == [] then table[r][c] == Number(round(0.0))
      else forall before: seq<real>, x: real | s.points == before + [x] :: table[r][c] == Number(round(x))
  {
    var names, steps := JoinLabels(columns, sources, targets), Steps(columns, sources, targets);
    var tuples := FirstSeen(TuplesOf(steps, names));
    hide JoinLabels, Steps, FirstSeen, TuplesOf, MergedRows, Keyed, CellOf, StepFor, LabelsOf, LatestValue, Tuple;
    RowsAreTheJoin(columns, sources, targets, round);
    SeriesGives(c, sources[c], s, round);
    var i :| 0 <= i < |steps| && steps[i] == StepFor(c, sources[c], s) && Gives(steps[i], names, tuples[r], c, round) &&
      forall j | i < j < |steps| :: !Gives(steps[j], names, tuples[r], c, round);
    var cell := MergedRows(columns, sources, targets, round)[r][c];
    assert IsCell(cell, steps, names, tuples[r], c, round);
    LastGiverIsOne(cell, steps, names, tuples[r], c, round, i);
  }

  /** A cell to which no series contributes holds a dash. */
  lemma CellWithoutSeries(columns: seq<string>, sources: map<string, Source>, targets: Targets, round: real -> real,
      r: nat, c: string)
    requires
      var names := JoinLabels(columns, sources, targets);
      forall step | step in Steps(columns, sources, targets) :: Keyed(Tuple(names, step.labels))
    requires
      var names, steps := JoinLabels(columns, sources, targets), Steps(columns, sources, targets);
      var tuples := FirstSeen(TuplesOf(steps, names));
      && c in columns && r < |tuples|
      && forall i | 0 <= i < |steps| :: !Gives(steps[i], names, tuples[r], c, round)
    ensures
      var table := MergedRows(columns, sources, targets, round);
      r < |table| && c in table[r] && table[r][c] == Text("\U{2014}")
  {
    var names, steps := JoinLabels(columns, sources, targets), Steps(columns, sources, targets);
    hide JoinLabels, Steps, FirstSeen, TuplesOf, MergedRows, Keyed, CellOf, Gives, Tuple;
    RowsAreTheJoin(columns, sources, targets, round);
    assert IsCell(MergedRows(columns, sources, targets, round)[r][c], steps, names,
      FirstSeen(TuplesOf(steps, names))[r], c, round);
  }

  lemma LastGiverIsOne(cell: Cell, steps: seq<Step>, names: seq<string>, tuple: seq<string>, col: string,
      round: real -> real, i: nat)
    requires IsCell(cell, steps, names, tuple, col, round) && i < |steps|
    requires Gives(steps[i], names, tuple, col, round)
    requires forall j | i < j < |steps| :: !Gives(steps[j], names, tuple, col, round)
    ensures CellOf(steps[i], round) == Some(cell)
  {
    hide Gives, CellOf;
  }

  /** Two visited series go to the same row exactly when they agree on every join label, an absent one reading as
      empty. */
  lemma SameRowIff(col: string, source: Source, s: Series, col': string, source': Source, s': Series,
      names: seq<string>)
    requires Keyed(Tuple(names, SeriesNames.Parsed(s.name).labels))
    ensures KeyAt(StepFor(col, source, s), names) == KeyAt(StepFor(col', source', s'), names) <==>
      var a, b := SeriesNames.Parsed(s.name).labels, SeriesNames.Parsed(s'.name).labels;
      forall name | name in names :: (if name in a then a[name] else "") == (if name in b then b[name] else "")
  {
    var a, b := SeriesNames.Parsed(s.name).labels, SeriesNames.Parsed(s'.name).labels;
    TupleAgrees(names, a, b);
    if KeyOf(Tuple(names, a)) == KeyOf(Tuple(names, b)) { KeyIsInjective(Tuple(names, a), Tuple(names, b)); }
  }
}
