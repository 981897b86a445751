/** The metrics explorer's builder: printing a query (frontend/src/components/explore/MetricsExplorer.tsx,
    toPromQLString) and the forgiving reader that goes back (frontend/src/lib/promqlQuery.ts). */
module MetricBuilder {
  import opened Wrappers
  import opened Text
  import opened LabelText

  datatype MetricQuery = MetricQuery(metric: string, namespace: string, pod: string, container: string,
    aggregation: string, groupBy: string)

  const AGGREGATION_OPTIONS := ["Average", "Sum", "Max", "Min", "p95"]
  const GROUP_BY_OPTIONS := ["None", "Pod", "Namespace", "Container"]

  const PROMQL_AGGREGATION: map<string, string> :=
    map["average" := "avg", "sum" := "sum", "max" := "max", "min" := "min", "p95" := "quantile"]
  const AGG_MAP: map<string, string> :=
    map["sum" := "Sum", "avg" := "Average", "average" := "Average", "max" := "Max", "min" := "Min",
        "quantile" := "p95", "topk" := "Max"]
  const GROUP_BY_MAP: map<string, string> :=
    map["pod" := "Pod", "namespace" := "Namespace", "container" := "Container"]

  /* Printing. */

  function Optional(key: string, value: string): seq<Entry> {
    if value != "all" then [(key, value)] else []
  }

  function Filters(q: MetricQuery): seq<Entry> {
    Optional("container", q.container) + Optional("namespace", q.namespace) + Optional("pod", q.pod)
  }

  function Selector(metric: string, filters: seq<Entry>): string {
    var labels := LabelBlock(filters);
    if labels != "" then metric + "{" + labels + "}" else metric
  }

  function FunctionOf(aggregation: string): string {
    var lowered := ToLowerAscii(aggregation);
    if lowered in PROMQL_AGGREGATION then PROMQL_AGGREGATION[lowered] else lowered
  }

  function ByClause(groupBy: string): string {
    if groupBy != "None" then " by (" + ToLowerAscii(groupBy) + ")" else ""
  }

  function ToPromQL(q: MetricQuery): string {
    var selector := Selector(q.metric, Filters(q));
    var fn := FunctionOf(q.aggregation);
    var inner := if fn == "quantile" then "0.95, " + selector else selector;
    fn + "(" + inner + ")" + ByClause(q.groupBy)
  }

  /* Reading. */

  function SpaceEnd(s: string, i: nat): (e: nat)
    requires i <= |s|
    ensures i <= e <= |s|
    decreases |s| - i
  {
    if i < |s| && IsSpace(s[i]) then SpaceEnd(s, i + 1) else i
  }

  predicate IsChar(s: string, i: nat, c: char) { i < |s| && s[i] == c }

  /** `by`, in either case, at position `i`. */
  predicate IsBy(s: string, i: nat) { i + 2 <= |s| && s[i] in "bB" && s[i + 1] in "yY" }

  datatype Found = Found(key: string, value: string, end: nat)

  /** `(\w+)\s*=~?\s*"([^"]*)"` at position `i`. */
  function LabelAt(s: string, i: nat): (r: Option<Found>)
    requires i <= |s|
    ensures r.Some? ==> i < r.value.end <= |s|
  {
    var w := WordEnd(s, i);
    var j := SpaceEnd(s, w);
    if w == i || !IsChar(s, j, '=') then None
    else
      var k := SpaceEnd(s, if IsChar(s, j + 1, '~') then j + 2 else j + 1);
      if !IsChar(s, k, '"') then None
      else
        var e := FindFrom(s, k + 1, '"');
        if e == |s| then None else Some(Found(s[i..w], s[k + 1..e], e + 1))
  }

  function ScanLabels(s: string, i: nat, labels: map<string, string>): map<string, string>
    requires i <= |s|
    decreases |s| - i
  {
    if i == |s| then labels
    else match LabelAt(s, i)
      case Some(f) => ScanLabels(s, f.end, labels[ToLowerAscii(f.key) := f.value])
      case None => ScanLabels(s, i + 1, labels)
  }

  /** parseLabels: a loop over the matches of a global regular expression. */
  method ParseLabels(block: string) returns (labels: map<string, string>)
    ensures labels == ScanLabels(block, 0, map[])
  {
    labels := map[];
    var lastIndex := 0;
    while lastIndex < |block|
      invariant lastIndex <= |block|
      invariant ScanLabels(block, lastIndex, labels) == ScanLabels(block, 0, map[])
      decreases |block| - lastIndex
    {
      var m := LabelAt(block, lastIndex);
      if m.Some? {
        labels := labels[ToLowerAscii(m.value.key) := m.value.value];
        lastIndex := m.value.end;
      } else {
        lastIndex := lastIndex + 1;
      }
    }
  }

  datatype CallShape = CallShape(fn: string, grouping: Option<string>, inner: string)

  /** `^(\w+)\s+by\s*\(([^)]*)\)\s*\(([\s\S]*)\)$` */
  function PreBy(s: string): Option<CallShape> {
    var w := WordEnd(s, 0);
    var j := SpaceEnd(s, w);
    if w == 0 || j == w || !IsBy(s, j) then None
    else
      var open := SpaceEnd(s, j + 2);
      if !IsChar(s, open, '(') then None
      else
        var close := FindFrom(s, open + 1, ')');
        if close == |s| then None
        else
          var body := SpaceEnd(s, close + 1);
          if IsChar(s, body, '(') && body + 1 < |s| && s[|s| - 1] == ')'
          then Some(CallShape(s[..w], Some(s[open + 1..close]), s[body + 1..|s| - 1]))
          else None
  }

  /** `\s*(?:by\s*\(([^)]*)\))?$` from position `i`: the grouping, if the rest of the text is that. */
  function Grouping(s: string, i: nat): Option<Option<string>>
    requires i <= |s|
  {
    var j := SpaceEnd(s, i);
    if j == |s| then Some(None)
    else if !IsBy(s, j) then None
    else
      var open := SpaceEnd(s, j + 2);
      if !IsChar(s, open, '(') then None
      else
        var close := FindFrom(s, open + 1, ')');
        if close + 1 == |s| then Some(Some(s[open + 1..close])) else None
  }

  /** The first `)` from position `i` after which only a grouping follows: the inner group is lazy. */
  function LazyEnd(s: string, i: nat): (k: nat)
    requires i <= |s|
    ensures i <= k <= |s|
    decreases |s| - i
  {
    if i == |s| || (s[i] == ')' && Grouping(s, i + 1).Some?) then i else LazyEnd(s, i + 1)
  }

  /** `^(\w+)\s*\(([\s\S]*?)\)\s*(?:by\s*\(([^)]*)\))?$` */
  function PostBy(s: string): Option<CallShape> {
    var w := WordEnd(s, 0);
    var open := SpaceEnd(s, w);
    if w == 0 || !IsChar(s, open, '(') then None
    else
      var close := LazyEnd(s, open + 1);
      if close == |s| then None
      else
        var grouping := Grouping(s, close + 1);
        if grouping.None? then None else Some(CallShape(s[..w], grouping.value, s[open + 1..close]))
  }

  predicate IsMetricStart(c: char) { IsLetter(c) || c == '_' || c == ':' }

  predicate IsMetricChar(c: char) { IsMetricStart(c) || IsDigit(c) }

  predicate IsMetricName(s: string) { s != "" && IsMetricStart(s[0]) && All(s, IsMetricChar) }

  function MetricEnd(s: string, i: nat): (e: nat)
    requires i <= |s|
    ensures i <= e <= |s|
    decreases |s| - i
  {
    if i < |s| && IsMetricChar(s[i]) then MetricEnd(s, i + 1) else i
  }

  /** `^([a-zA-Z_:][a-zA-Z0-9_:]*)\s*(?:\{([^}]*)\})?$`: the metric and the label block. */
  function ParseSelector(s: string): Option<(string, string)> {
    if s == "" || !IsMetricStart(s[0]) then None
    else
      var m := MetricEnd(s, 0);
      var j := SpaceEnd(s, m);
      if j == |s| then Some((s[..m], ""))
      else if s[j] != '{' then None
      else
        var close := FindFrom(s, j + 1, '}');
        if close + 1 == |s| then Some((s[..m], s[j + 1..close])) else None
  }

  datatype ParsedPromQL = ParsedPromQL(query: MetricQuery, recognized: bool)

  function Lookup(m: map<string, string>, key: string, default: string): string {
    if key in m then m[key] else default
  }

  function Shape(trimmed: string): CallShape {
    match PreBy(trimmed)
    case Some(shape) => shape
    case None =>
      match PostBy(trimmed)
      case Some(shape) => if ToLowerAscii(shape.fn) in AGG_MAP then shape else CallShape("", None, trimmed)
      case None => CallShape("", None, trimmed)
  }

  function QueryOf(metric: string, labels: map<string, string>, shape: CallShape): MetricQuery {
    MetricQuery(
      metric,
      Lookup(labels, "namespace", "all"),
      Lookup(labels, "pod", "all"),
      Lookup(labels, "container", "all"),
      if shape.fn != "" then Lookup(AGG_MAP, ToLowerAscii(shape.fn), "Average") else "Average",
      if shape.grouping.Some? && shape.grouping.value != "" then
        Lookup(GROUP_BY_MAP, ToLowerAscii(Trim(shape.grouping.value, IsSpace)), "None") else "None")
  }

  function ParsePromQL(raw: string): ParsedPromQL {
    var trimmed := Trim(raw, IsSpace);
    var fallback := ParsedPromQL(
      MetricQuery(if trimmed != "" then trimmed else "unknown_metric", "all", "all", "all", "Average", "None"), false);
    if trimmed == "" then fallback
    else
      var shape := Shape(trimmed);
      match ParseSelector(Trim(shape.inner, IsSpace))
      case None => fallback
      case Some((metric, block)) => ParsedPromQL(QueryOf(metric, ScanLabels(block, 0, map[]), shape), true)
  }

  /* Reading what was printed. */

  /** A label value the reader can give back. */
  predicate Readable(value: string) { forall k | 0 <= k < |value| :: value[k] != '"' && value[k] != '}' }

  predicate HasReadableValues(q: MetricQuery) { Readable(q.namespace) && Readable(q.pod) && Readable(q.container) }

  predicate IsBuilt(q: MetricQuery) {
    && IsMetricName(q.metric)
    && q.aggregation in AGGREGATION_OPTIONS && q.groupBy in GROUP_BY_OPTIONS
  }

  predicate IsReadable(e: Entry) { e.0 != "" && AllWord(e.0) && ToLowerAscii(e.0) == e.0 && Readable(e.1) }

  ghost predicate AllReadable(entries: seq<Entry>) {
    forall e | e in entries :: IsReadable(e)
  }

  lemma {:induction false} FindAt(s: string, i: nat, e: nat, c: char)
    requires i <= e < |s| && s[e] == c && forall k | i <= k < e :: s[k] != c
    ensures FindFrom(s, i, c) == e
    decreases e - i
  {
    if i < e { FindAt(s, i + 1, e, c); }
  }

  lemma LabelReads(s: string, i: nat, e: Entry)
    requires e.0 != "" && AllWord(e.0) && Readable(e.1) && At(s, i, Rendered(e))
    ensures LabelAt(s, i) == Some(Found(e.0, e.1, i + |Rendered(e)|))
  {
    var w := i + |e.0|;
    var q := w + 2 + |e.1|;
    RenderedChars(s, i, e);
    forall k | i <= k < w ensures IsWord(s[k]) { assert s[i..w][k - i] == s[k]; }
    WordEndAt(s, i, w);
    forall k | w + 2 <= k < q ensures s[k] != '"' { assert s[w + 2..q][k - (w + 2)] == s[k]; }
    FindAt(s, w + 2, q, '"');
    hide WordEnd, FindFrom, IsWord, Rendered, At;
  }

  /** Where the pieces of a printed label are. */
  lemma RenderedChars(s: string, i: nat, e: Entry)
    requires At(s, i, Rendered(e))
    ensures var w := i + |e.0|; var q := w + 2 + |e.1|;
      && q < |s| && q + 1 == i + |Rendered(e)| && s[w] == '=' && s[w + 1] == '"' && s[q] == '"'
      && s[i..w] == e.0 && s[w + 2..q] == e.1
  {
    var w, text := i + |e.0|, Rendered(e);
    var q := w + 2 + |e.1|;
    assert text == e.0 + "=\"" + e.1 + "\"";
    assert text[|e.0|] == '=' && text[|e.0| + 1] == '"' && text[|text| - 1] == '"';
    assert text[..|e.0|] == e.0 && text[|e.0| + 2..|text| - 1] == e.1;
    hide Rendered;
    assert s[i + |e.0|] == text[|e.0|] && s[i + (|e.0| + 1)] == text[|e.0| + 1] &&
      s[i + (|text| - 1)] == text[|text| - 1];
    forall k | i <= k < q ensures s[k] == text[k - i] { assert s[i + (k - i)] == text[k - i]; }
    assert s[i..w] == text[..|e.0|] && s[w + 2..q] == text[|e.0| + 2..|text| - 1];
  }

  lemma ScanFound(s: string, i: nat, f: Found, labels: map<string, string>)
    requires i < |s| && LabelAt(s, i) == Some(f) && ToLowerAscii(f.key) == f.key
    ensures ScanLabels(s, i, labels) == ScanLabels(s, f.end, labels[f.key := f.value])
  {}

  lemma ScanComma(s: string, i: nat, labels: map<string, string>)
    requires i < |s| && s[i] == ','
    ensures ScanLabels(s, i, labels) == ScanLabels(s, i + 1, labels)
  {
    assert WordEnd(s, i) == i && LabelAt(s, i) == None;
  }

  lemma LabelThenComma(s: string, i: nat, f: Found, labels: map<string, string>)
    requires i < |s| && LabelAt(s, i) == Some(f) && ToLowerAscii(f.key) == f.key && IsChar(s, f.end, ',')
    ensures ScanLabels(s, i, labels) == ScanLabels(s, f.end + 1, labels[f.key := f.value])
  {
    hide ScanLabels, LabelAt, ToLowerAscii;
    ScanFound(s, i, f, labels);
    ScanComma(s, f.end, labels[f.key := f.value]);
  }

  lemma LastLabel(s: string, i: nat, entries: seq<Entry>, labels: map<string, string>)
    requires |entries| == 1 && IsReadable(entries[0]) && At(s, i, LabelBlock(entries)) &&
      i + |LabelBlock(entries)| == |s|
    ensures ScanLabels(s, i, labels) == labels[entries[0].0 := entries[0].1]
  {
    var e := entries[0];
    LabelBlockCons(entries);
    assert LabelBlock(entries) == Rendered(e);
    LabelReads(s, i, e);
    ScanFound(s, i, Found(e.0, e.1, |s|), labels);
  }

  lemma FirstLabel(s: string, i: nat, entries: seq<Entry>, labels: map<string, string>) returns (next: nat)
    requires |entries| > 1 && IsReadable(entries[0]) && At(s, i, LabelBlock(entries)) &&
      i + |LabelBlock(entries)| == |s|
    ensures At(s, next, LabelBlock(entries[1..])) && next + |LabelBlock(entries[1..])| == |s|
    ensures ScanLabels(s, i, labels) == ScanLabels(s, next, labels[entries[0].0 := entries[0].1])
  {
    hide ScanLabels, LabelBlock, Rendered, LabelAt, At, AllWord, Readable, ToLowerAscii;
    next := BlockParts(s, i, entries);
    LabelReads(s, i, entries[0]);
    LabelThenComma(s, i, Found(entries[0].0, entries[0].1, next - 1), labels);
  }

  lemma {:induction false} BlockReads(s: string, i: nat, entries: seq<Entry>, labels: map<string, string>)
    requires AllReadable(entries) && At(s, i, LabelBlock(entries)) && i + |LabelBlock(entries)| == |s|
    ensures ScanLabels(s, i, labels) == Fill(labels, entries)
    decreases |entries|
  {
    if |entries| == 1 {
      LastLabel(s, i, entries, labels);
    } else if entries != [] {
      var next := FirstLabel(s, i, entries, labels);
      BlockReads(s, next, entries[1..], labels[entries[0].0 := entries[0].1]);
    }
  }

  /** No character of a selector can be taken for the end of it. */
  lemma {:induction false} BlockShape(entries: seq<Entry>)
    requires AllReadable(entries)
    ensures forall k | 0 <= k < |LabelBlock(entries)| :: LabelBlock(entries)[k] != '}'
    ensures entries != [] ==> LabelBlock(entries) != ""
    decreases |entries|
  {
    if entries != [] {
      var e := entries[0];
      var n, text := |e.0|, Rendered(e);
      assert e in entries;
      LabelBlockCons(entries);
      forall k | 0 <= k < |text| ensures text[k] != '}' {
        assert text[n] == '=' && text[n + 1] == '"' && text[|text| - 1] == '"';
        if k < n {
          assert text[k] == e.0[k] && IsWord(e.0[k]);
        } else if n + 2 <= k < |text| - 1 {
          assert text[k] == e.1[k - n - 2];
        }
      }
      if |entries| > 1 { BlockShape(entries[1..]); }
    }
  }

  lemma {:induction false} MetricEndAt(s: string, i: nat, e: nat)
    requires i <= e <= |s| && (forall k | i <= k < e :: IsMetricChar(s[k])) && (e < |s| ==> !IsMetricChar(s[e]))
    ensures MetricEnd(s, i) == e
    decreases e - i
  {
    if i < e { MetricEndAt(s, i + 1, e); }
  }

  lemma SelectorReads(metric: string, entries: seq<Entry>)
    requires IsMetricName(metric) && AllReadable(entries)
    ensures var s := Selector(metric, entries);
      && ParseSelector(s) == Some((metric, LabelBlock(entries)))
      && IsTrimmed(s, IsSpace) && s != ""
  {
    var s, block, n := Selector(metric, entries), LabelBlock(entries), |metric|;
    BlockShape(entries);
    forall k | 0 <= k < n ensures s[k] == metric[k] && IsMetricChar(s[k]) {}
    MetricEndAt(s, 0, n);
    if entries == [] {
      assert block == "" && s == metric && s[..n] == metric && SpaceEnd(s, n) == n;
    } else {
      assert s == metric + "{" + block + "}" && s[n] == '{' && s[|s| - 1] == '}' && SpaceEnd(s, n) == n;
      assert forall k | n < k < |s| - 1 :: s[k] == block[k - n - 1];
      FindAt(s, n + 1, |s| - 1, '}');
      assert s[n + 1..|s| - 1] == block && s[..n] == metric;
    }
  }

  /** A grouping clause as it is printed. */
  predicate IsByClause(clause: string, wanted: Option<string>) {
    if wanted.None? then clause == ""
    else clause == " by (" + wanted.value + ")" && wanted.value != "" && AllWord(wanted.value)
  }

  lemma ClauseChars(s: string, i: nat, word: string)
    requires At(s, i, " by (" + word + ")")
    ensures var e := i + 5 + |word|;
      && e < |s| && s[i] == ' ' && s[i + 1] == 'b' && s[i + 2] == 'y' && s[i + 3] == ' ' && s[i + 4] == '('
      && s[e] == ')' && s[i + 5..e] == word
  {
    var clause, e := " by (" + word + ")", i + 5 + |word|;
    assert |clause| == 6 + |word|;
    assert s[i + 0] == clause[0] && s[i + 1] == clause[1] && s[i + 2] == clause[2] && s[i + 3] == clause[3] &&
      s[i + 4] == clause[4];
    assert s[i + (5 + |word|)] == clause[5 + |word|];
    forall k | 0 <= k < |word| ensures s[i + 5 + k] == word[k] { assert s[i + (5 + k)] == clause[5 + k]; }
  }

  lemma GroupingAt(s: string, i: nat, e: nat)
    requires i + 5 <= e < |s| && s[i] == ' ' && s[i + 1] == 'b' && s[i + 2] == 'y' && s[i + 3] == ' ' && s[i + 4] == '('
    requires s[e] == ')' && e + 1 == |s| && AllWord(s[i + 5..e])
    ensures Grouping(s, i) == Some(Some(s[i + 5..e]))
  {
    forall k | i + 5 <= k < e ensures s[k] != ')' { assert IsWord(s[i + 5..e][k - i - 5]); }
    FindAt(s, i + 5, e, ')');
    assert SpaceEnd(s, i + 1) == i + 1 && SpaceEnd(s, i + 4) == i + 4;
  }

  lemma GroupingReads(s: string, i: nat, clause: string, wanted: Option<string>)
    requires IsByClause(clause, wanted) && At(s, i, clause) && i + |clause| == |s|
    ensures Grouping(s, i) == Some(wanted)
  {
    if wanted.Some? {
      ClauseChars(s, i, wanted.value);
      GroupingAt(s, i, i + 5 + |wanted.value|);
    }
  }

  /** A parenthesis after which only a grouping follows. */
  predicate ClosesAt(s: string, k: nat) { IsChar(s, k, ')') && Grouping(s, k + 1).Some? }

  predicate ClosesBefore(s: string, i: nat, close: nat) { exists k | i <= k < close :: ClosesAt(s, k) }

  /** The lazy group ends at the first such parenthesis. */
  lemma {:induction false} LazyEndIsFirst(s: string, i: nat, close: nat)
    requires i <= close && ClosesAt(s, close)
    ensures var e := LazyEnd(s, i);
      i <= e <= close && ClosesAt(s, e) && (e < close <==> ClosesBefore(s, i, close))
    decreases close - i
  {
    hide Grouping;
    if i < close && !ClosesAt(s, i) {
      LazyEndIsFirst(s, i + 1, close);
      if ClosesBefore(s, i, close) {
        var k :| i <= k < close && ClosesAt(s, k);
        assert ClosesBefore(s, i + 1, close);
      }
    }
  }

  lemma NoSpaceNoPreBy(s: string, w: nat)
    requires w < |s| && WordEnd(s, 0) == w && SpaceEnd(s, w) == w
    ensures PreBy(s) == None
  {}

  lemma PostByAt(s: string, w: nat, e: nat)
    requires 0 < w < e < |s| && WordEnd(s, 0) == w && SpaceEnd(s, w) == w && s[w] == '('
    requires LazyEnd(s, w + 1) == e && Grouping(s, e + 1).Some?
    ensures PostBy(s) == Some(CallShape(s[..w], Grouping(s, e + 1).value, s[w + 1..e]))
  {}

  /** `s` is `fn(inner)` followed by the clause. */
  ghost predicate IsCall(s: string, fn: string, inner: string, clause: string) {
    var w, close := |fn|, |fn| + 1 + |inner|;
    && |s| == close + 1 + |clause| && s[w] == '(' && s[close] == ')'
    && At(s, 0, fn) && At(s, w + 1, inner) && At(s, close + 1, clause)
  }

  lemma CallText(fn: string, inner: string, clause: string)
    ensures IsCall(fn + "(" + inner + ")" + clause, fn, inner, clause)
  {}

  lemma CallInner(s: string, w: nat, close: nat, inner: string)
    requires At(s, w + 1, inner) && close == w + 1 + |inner|
    ensures close <= |s| && s[w + 1..close] == inner
  {}

  lemma CallName(s: string, fn: string)
    requires fn != "" && AllWord(fn) && At(s, 0, fn) && IsChar(s, |fn|, '(')
    ensures WordEnd(s, 0) == |fn| && SpaceEnd(s, |fn|) == |fn| && s[..|fn|] == fn
  {
    forall k | 0 <= k < |fn| ensures s[k] == fn[k] { assert s[0 + k] == fn[k]; }
    WordEndAt(s, 0, |fn|);
  }

  /** Where the pieces of a printed call are. */
  lemma CallPieces(s: string, fn: string, inner: string, clause: string, wanted: Option<string>, w: nat, close: nat)
    requires IsCall(s, fn, inner, clause) && fn != "" && AllWord(fn) && IsByClause(clause, wanted)
    requires w == |fn| && close == w + 1 + |inner|
    ensures close < |s| && WordEnd(s, 0) == w && SpaceEnd(s, w) == w && s[w] == '(' && s[..w] == fn &&
      s[w + 1..close] == inner
    ensures ClosesAt(s, close) && Grouping(s, close + 1) == Some(wanted)
  {
    hide WordEnd, SpaceEnd, Grouping, AllWord, IsByClause;
    CallName(s, fn);
    CallInner(s, w, close, inner);
    GroupingReads(s, close + 1, clause, wanted);
  }

  /** `fn(inner)` with or without a grouping, as it is printed: read as far as its first closing parenthesis
      that only a grouping follows. */
  lemma CallReads(s: string, fn: string, inner: string, clause: string, wanted: Option<string>, w: nat, close: nat)
      returns (e: nat)
    requires IsCall(s, fn, inner, clause) && fn != "" && AllWord(fn) && IsByClause(clause, wanted)
    requires w == |fn| && close == w + 1 + |inner|
    ensures w < e <= close < |s| && s[e] == ')' && (e < close <==> ClosesBefore(s, w + 1, close)) &&
      s[w + 1..close] == inner
    ensures Grouping(s, e + 1).Some? && (e == close ==> Grouping(s, e + 1) == Some(wanted))
    ensures PreBy(s) == None && PostBy(s) == Some(CallShape(fn, Grouping(s, e + 1).value, s[w + 1..e]))
  {
    hide IsCall, LazyEnd, Grouping, ClosesBefore, PreBy, PostBy, WordEnd, SpaceEnd, IsByClause, AllWord;
    CallPieces(s, fn, inner, clause, wanted, w, close);
    e := LazyEnd(s, w + 1);
    LazyEndIsFirst(s, w + 1, close);
    NoSpaceNoPreBy(s, w);
    PostByAt(s, w, e);
  }

  lemma CallIsTrimmed(fn: string, inner: string, clause: string, wanted: Option<string>)
    requires fn != "" && AllWord(fn) && IsByClause(clause, wanted)
    ensures var s := fn + "(" + inner + ")" + clause; s != "" && Trim(s, IsSpace) == s
  {
    var s := fn + "(" + inner + ")" + clause;
    assert s[0] == fn[0] && IsWord(fn[0]) && s[|s| - 1] == ')';
    TrimTrimmed(s, IsSpace);
  }

  lemma LowerNames()
    ensures ToLowerAscii("Average") == "average" && ToLowerAscii("Sum") == "sum" && ToLowerAscii("Max") == "max" &&
      ToLowerAscii("Min") == "min"
    ensures ToLowerAscii("p95") == "p95"
    ensures ToLowerAscii("Pod") == "pod" && ToLowerAscii("Namespace") == "namespace" &&
      ToLowerAscii("Container") == "container"
  {}

  /** The offered aggregations, printed and looked up again. */
  lemma Aggregations(aggregation: string)
    requires aggregation in AGGREGATION_OPTIONS
    ensures FunctionOf(aggregation) in ["avg", "sum", "max", "min", "quantile"]
    ensures FunctionOf(aggregation) in AGG_MAP && AGG_MAP[FunctionOf(aggregation)] == aggregation
    ensures FunctionOf(aggregation) == "quantile" <==> aggregation == "p95"
  {
    LowerNames();
  }

  lemma FunctionNames(fn: string)
    requires fn in ["avg", "sum", "max", "min", "quantile"]
    ensures fn != "" && AllWord(fn) && ToLowerAscii(fn) == fn
  {
    assert forall i | 0 <= i < |fn| :: IsLower(fn[i]);
  }

  predicate IsLabelName(name: string) { name in ["pod", "namespace", "container"] }

  lemma LabelNames(name: string)
    requires IsLabelName(name)
    ensures name != "" && AllWord(name) && ToLowerAscii(name) == name && Trim(name, IsSpace) == name
  {
    assert forall i | 0 <= i < |name| :: IsLower(name[i]);
    TrimTrimmed(name, IsSpace);
  }

  /** The offered groupings, printed and looked up again. */
  lemma Groupings(groupBy: string)
    requires groupBy in GROUP_BY_OPTIONS && groupBy != "None"
    ensures IsLabelName(ToLowerAscii(groupBy))
    ensures ToLowerAscii(groupBy) in GROUP_BY_MAP && GROUP_BY_MAP[ToLowerAscii(groupBy)] == groupBy
  {
    LowerNames();
  }

  ghost function WantedLabel(groupBy: string): Option<string> {
    if groupBy == "None" then None else Some(ToLowerAscii(groupBy))
  }

  lemma ByClauseReads(groupBy: string)
    requires groupBy in GROUP_BY_OPTIONS
    ensures IsByClause(ByClause(groupBy), WantedLabel(groupBy))
    ensures groupBy != "None" ==>
      var name := ToLowerAscii(groupBy);
        name != "" && Lookup(GROUP_BY_MAP, ToLowerAscii(Trim(name, IsSpace)), "None") == groupBy
  {
    if groupBy != "None" {
      Groupings(groupBy);
      LabelNames(ToLowerAscii(groupBy));
    }
  }

  lemma FiltersAre(q: MetricQuery)
    ensures DistinctKeys(Filters(q))
    ensures forall e :: e in Filters(q) <==>
      (e == ("container", q.container) || e == ("namespace", q.namespace) || e == ("pod", q.pod)) && e.1 != "all"
  {
    NamesDiffer();
    var c, n, p := ("container", q.container), ("namespace", q.namespace), ("pod", q.pod);
    assert forall e :: e in Optional(c.0, c.1) <==> e == c && e.1 != "all";
    assert forall e :: e in Optional(n.0, n.1) <==> e == n && e.1 != "all";
    assert forall e :: e in Optional(p.0, p.1) <==> e == p && e.1 != "all";
    OptionalDistinct(Optional(c.0, c.1), Optional(n.0, n.1), Optional(p.0, p.1));
    hide Optional;
  }

  lemma NamesDiffer()
    ensures "container" != "namespace" && "container" != "pod" && "namespace" != "pod"
  {}

  lemma OptionalDistinct(a: seq<Entry>, b: seq<Entry>, c: seq<Entry>)
    requires |a| <= 1 && |b| <= 1 && |c| <= 1
    requires forall x, y | x in a && y in b :: x.0 != y.0
    requires forall x, y | x in a && y in c :: x.0 != y.0
    requires forall x, y | x in b && y in c :: x.0 != y.0
    ensures DistinctKeys(a + b + c)
  {}

  lemma FiltersAreReadable(q: MetricQuery)
    requires HasReadableValues(q)
    ensures AllReadable(Filters(q))
  {
    LabelNames("pod");
    LabelNames("namespace");
    LabelNames("container");
    FiltersAre(q);
    hide Filters, Readable, AllWord, ToLowerAscii;
  }

  lemma FilledAs(key: string, value: string, entries: seq<Entry>)
    requires DistinctKeys(entries) && ((key, value) in entries <==> value != "all")
    requires forall e | e in entries && e.0 == key :: e.1 == value
    ensures Lookup(Fill(map[], entries), key, "all") == value
  {
    FillKeeps(map[], entries, key);
    assert forall e | e in entries && e.0 == key :: e == (key, value);
  }

  lemma FilledFilters(q: MetricQuery)
    ensures var labels := Fill(map[], Filters(q));
      && Lookup(labels, "namespace", "all") == q.namespace
      && Lookup(labels, "pod", "all") == q.pod
      && Lookup(labels, "container", "all") == q.container
  {
    NamesDiffer();
    FiltersAre(q);
    hide Filters, Fill, Lookup, DistinctKeys;
    FilledAs("namespace", q.namespace, Filters(q));
    FilledAs("pod", q.pod, Filters(q));
    FilledAs("container", q.container, Filters(q));
  }

  /* Where the call can end too early. */

  /** A parenthesis inside the selector after which the rest reads as a grouping. */
  predicate ClosesEarly(selector: string) { ClosesBefore(selector + ")", 0, |selector|) }

  lemma {:induction false} SpaceEndShift(s: string, d: nat, i: nat)
    requires d <= i <= |s|
    ensures SpaceEnd(s, i) == d + SpaceEnd(s[d..], i - d)
    decreases |s| - i
  {
    if i < |s| && IsSpace(s[i]) { SpaceEndShift(s, d, i + 1); }
  }

  lemma {:induction false} FindShift(s: string, d: nat, i: nat, c: char)
    requires d <= i <= |s|
    ensures FindFrom(s, i, c) == d + FindFrom(s[d..], i - d, c)
    decreases |s| - i
  {
    if i < |s| && s[i] != c { FindShift(s, d, i + 1, c); }
  }

  lemma CharactersShift(s: string, d: nat, i: nat)
    requires d <= i <= |s|
    ensures IsBy(s, i) <==> IsBy(s[d..], i - d)
    ensures forall c :: IsChar(s, i, c) <==> IsChar(s[d..], i - d, c)
  {}

  lemma GroupingShift(s: string, d: nat, i: nat)
    requires d <= i <= |s|
    ensures Grouping(s, i).Some? <==> Grouping(s[d..], i - d).Some?
  {
    hide SpaceEnd, FindFrom, IsBy, IsChar;
    var j := SpaceEnd(s, i);
    SpaceEndShift(s, d, i);
    CharactersShift(s, d, j);
    if IsBy(s, j) {
      IsByFits(s, j);
      SpaceEndShift(s, d, j + 2);
      var open := SpaceEnd(s, j + 2);
      CharactersShift(s, d, open);
      if IsChar(s, open, '(') {
        IsCharFits(s, open, '(');
        FindShift(s, d, open + 1, ')');
      }
    }
  }

  lemma IsByFits(s: string, i: nat)
    requires IsBy(s, i)
    ensures i + 2 <= |s|
  {}

  lemma IsCharFits(s: string, i: nat, c: char)
    requires IsChar(s, i, c)
    ensures i < |s|
  {}

  /** What closes early in a call without a grouping closes early in its argument. */
  lemma ClosesInArgument(s: string, d: nat)
    requires d < |s|
    ensures ClosesBefore(s, d, |s| - 1) <==> ClosesBefore(s[d..], 0, |s| - 1 - d)
  {
    var t, close := s[d..], |s| - 1;
    hide Grouping;
    forall k: nat | d <= k < |s| ensures ClosesAt(s, k) <==> ClosesAt(t, k - d) { GroupingShift(s, d, k + 1); }
    hide ClosesAt;
    if ClosesBefore(s, d, close) {
      var k :| d <= k < close && ClosesAt(s, k);
      assert ClosesAt(t, k - d);
    }
    if ClosesBefore(t, 0, close - d) {
      var k :| 0 <= k < close - d && ClosesAt(t, k);
      assert ClosesAt(s, k + d) <==> ClosesAt(t, k + d - d);
    }
  }

  lemma {:induction false} SpaceEndStops(s: string, i: nat, e: nat)
    requires i <= e < |s| && !IsSpace(s[e])
    ensures SpaceEnd(s, i) <= e
    decreases e - i
  {
    if i < e && IsSpace(s[i]) { SpaceEndStops(s, i + 1, e); }
  }

  lemma FindStops(s: string, i: nat, e: nat, c: char)
    requires i <= e < |s| && s[e] == c
    ensures FindFrom(s, i, c) <= e
  {}

  /** Before another closing parenthesis that is not the last character, nothing reads as a grouping. */
  lemma NoGroupingBefore(s: string, i: nat, close: nat)
    requires i <= close && close + 1 < |s| && s[close] == ')'
    ensures Grouping(s, i) == None
  {
    SpaceEndStops(s, i, close);
    var j := SpaceEnd(s, i);
    if IsBy(s, j) {
      assert j + 2 <= close;
      SpaceEndStops(s, j + 2, close);
      var open := SpaceEnd(s, j + 2);
      if IsChar(s, open, '(') { FindStops(s, open + 1, close, ')'); }
    }
  }

  lemma GroupedCallDoesNotCloseEarly(s: string, i: nat, close: nat)
    requires close + 1 < |s| && s[close] == ')'
    ensures !ClosesBefore(s, i, close)
  {
    forall k: nat | i <= k < close ensures !ClosesAt(s, k) { NoGroupingBefore(s, k + 1, close); }
  }

  /* What the reader can give back. */

  lemma {:induction false} ScannedAreReadable(s: string, i: nat, labels: map<string, string>)
    requires i <= |s| && '}' !in s && forall k | k in labels :: Readable(labels[k])
    ensures forall k | k in ScanLabels(s, i, labels) :: Readable(ScanLabels(s, i, labels)[k])
    decreases |s| - i
  {
    if i < |s| {
      match LabelAt(s, i)
      case None => ScannedAreReadable(s, i + 1, labels);
      case Some(f) =>
        FoundIsReadable(s, i, f);
        ScannedAreReadable(s, f.end, labels[ToLowerAscii(f.key) := f.value]);
    }
  }

  lemma FoundIsReadable(s: string, i: nat, f: Found)
    requires i <= |s| && '}' !in s && LabelAt(s, i) == Some(f)
    ensures Readable(f.value)
  {
    hide WordEnd, SpaceEnd;
    forall k | 0 <= k < |f.value| ensures f.value[k] != '"' && f.value[k] != '}' {
      assert f.value[k] in s;
    }
  }

  /** Whatever the text, no label value that is read holds a quote or a closing brace. */
  lemma ParsedAreReadable(raw: string)
    ensures HasReadableValues(ParsePromQL(raw).query)
  {
    var shape := Shape(Trim(raw, IsSpace));
    hide Shape, ParseSelector, ScanLabels, Trim;
    match ParseSelector(Trim(shape.inner, IsSpace))
    case None =>
    case Some((metric, block)) =>
      BlockHoldsNoBrace(Trim(shape.inner, IsSpace));
      ScannedAreReadable(block, 0, map[]);
  }

  lemma BlockHoldsNoBrace(s: string)
    ensures ParseSelector(s).Some? ==> '}' !in ParseSelector(s).value.1
  {}

  lemma TrimKeepsStart(s: string, n: nat)
    requires n < |s| && !IsSpace(s[0]) && !IsSpace(s[n])
    ensures var t := Trim(s, IsSpace); n < |t| <= |s| && t == s[..|t|]
  {
    var t := Trim(s, IsSpace);
    var before, after := TrimParts(s, IsSpace);
    assert |before| == 0 && s == t + after;
    assert forall i | |t| <= i < |s| :: s[i] == after[i - |t|] && IsSpace(s[i]);
  }

  /** A selector cut off before its closing brace is none. */
  lemma CutSelectorFails(metric: string, entries: seq<Entry>, n: nat)
    requires IsMetricName(metric) && AllReadable(entries) && n < |Selector(metric, entries)| &&
      Selector(metric, entries)[n] == ')'
    ensures ParseSelector(Trim(Selector(metric, entries)[..n], IsSpace)) == None
  {
    var s, block, m := Selector(metric, entries), LabelBlock(entries), |metric|;
    BlockShape(entries);
    forall k | 0 <= k < m ensures s[k] == metric[k] && IsMetricChar(s[k]) {}
    assert n >= m;
    assert s == metric + "{" + block + "}" && s[m] == '{';
    assert forall k | m < k < |s| - 1 :: s[k] == block[k - m - 1];
    var cut := s[..n];
    assert cut[m] == '{' && cut[0] == metric[0];
    assert '}' !in block;
    TrimKeepsStart(cut, m);
    var t := Trim(cut, IsSpace);
    hide Selector, LabelBlock, AllReadable, Trim, IsMetricChar, IsMetricStart;
    forall k | 0 <= k < |t| ensures t[k] == s[k] && t[k] != '}' {
      if k > m { assert s[k] == block[k - m - 1]; }
    }
    CutFails(t, m);
  }

  lemma CutFails(t: string, m: nat)
    requires 0 < m < |t| && (forall k | 0 <= k < m :: IsMetricChar(t[k])) && IsMetricStart(t[0]) && t[m] == '{' &&
      '}' !in t
    ensures ParseSelector(t) == None
  {
    MetricEndAt(t, 0, m);
    assert SpaceEnd(t, m) == m;
  }

  /* The round trip. */

  /** Main theorem: what the builder prints is recognised and read back as the same query, "all" standing
      for an absent label, if and only if the aggregation is not p95, no label value holds a quote or a closing
      brace, and the selector of an ungrouped call does not read as a shorter call with a grouping. */
  lemma BuilderRoundTrips(q: MetricQuery)
    requires IsBuilt(q)
    ensures ParsePromQL(ToPromQL(q)) == ParsedPromQL(q, true) <==>
      && q.aggregation != "p95" && HasReadableValues(q)
      && !(q.groupBy == "None" && ClosesEarly(Selector(q.metric, Filters(q))))
    ensures q.aggregation == "p95" ==> !ParsePromQL(ToPromQL(q)).recognized
  {
    var filters, fn, clause := Filters(q), FunctionOf(q.aggregation), ByClause(q.groupBy);
    Aggregations(q.aggregation);
    ByClauseReads(q.groupBy);
    ParsedAreReadable(ToPromQL(q));
    if fn == "quantile" {
      QuantileFails(Selector(q.metric, filters), clause, WantedLabel(q.groupBy));
    } else if HasReadableValues(q) {
      FiltersAreReadable(q);
      CallParses(q, fn, clause);
    }
  }

  /** A printed call on a selector. */
  lemma CallParses(q: MetricQuery, fn: string, clause: string)
    requires IsBuilt(q) && HasReadableValues(q)
    requires fn == FunctionOf(q.aggregation) && fn != "quantile" && clause == ByClause(q.groupBy)
    ensures ParsePromQL(ToPromQL(q)) == ParsedPromQL(q, true) <==>
      !(q.groupBy == "None" && ClosesEarly(Selector(q.metric, Filters(q))))
  {
    var selector := Selector(q.metric, Filters(q));
    Aggregations(q.aggregation);
    FunctionNames(fn);
    ByClauseReads(q.groupBy);
    CallText(fn, selector, clause);
    CallIsTrimmed(fn, selector, clause, WantedLabel(q.groupBy));
    FiltersAreReadable(q);
    PrintedCall(q, ToPromQL(q), fn, selector, clause, |fn|, |fn| + 1 + |selector|);
  }

  lemma CloseOfCall(q: MetricQuery, s: string, selector: string, clause: string, w: nat, close: nat)
    requires clause == ByClause(q.groupBy) && w < close < |s| && |s| == close + 1 + |clause| && s[close] == ')' &&
      s[w + 1..close] == selector
    ensures ClosesBefore(s, w + 1, close) <==> q.groupBy == "None" && ClosesEarly(selector)
  {
    if q.groupBy == "None" {
      ClosesInArgument(s, w + 1);
      assert s[w + 1..] == s[w + 1..close] + ")";
    } else {
      GroupedCallDoesNotCloseEarly(s, w + 1, close);
    }
  }

  lemma CutCall(q: MetricQuery, s: string, w: nat, e: nat, close: nat)
    requires IsMetricName(q.metric) && AllReadable(Filters(q)) && w < e < close <= |s| && s[e] == ')'
    requires s[w + 1..close] == Selector(q.metric, Filters(q))
    ensures ParseSelector(Trim(s[w + 1..e], IsSpace)) == None
  {
    var n := e - w - 1;
    assert s[w + 1..e] == s[w + 1..close][..n] && s[e] == s[w + 1..close][n];
    CutSelectorFails(q.metric, Filters(q), n);
  }

  lemma PrintedCall(q: MetricQuery, s: string, fn: string, selector: string, clause: string, w: nat, close: nat)
    requires IsBuilt(q) && AllReadable(Filters(q)) && fn == FunctionOf(q.aggregation) && fn != "quantile"
    requires fn != "" && AllWord(fn) && ToLowerAscii(fn) in AGG_MAP && s != "" && Trim(s, IsSpace) == s
    requires selector == Selector(q.metric, Filters(q)) && clause == ByClause(q.groupBy) &&
      IsByClause(clause, WantedLabel(q.groupBy))
    requires IsCall(s, fn, selector, clause) && w == |fn| && close == w + 1 + |selector|
    ensures ParsePromQL(s) == ParsedPromQL(q, true) <==> !(q.groupBy == "None" && ClosesEarly(selector))
  {
    assert |s| == close + 1 + |clause| && s[close] == ')';
    hide IsCall, Selector, ByClause, IsByClause, ClosesEarly, ClosesBefore, Grouping, PreBy, PostBy, ParsePromQL,
      Filters, Trim, AllWord, ToLowerAscii;
    var e := CallReads(s, fn, selector, clause, WantedLabel(q.groupBy), w, close);
    CloseOfCall(q, s, selector, clause, w, close);
    if e == close {
      ReadInFull(q, s, CallShape(fn, WantedLabel(q.groupBy), selector));
    } else {
      CutCall(q, s, w, e, close);
      Unreadable(s, CallShape(fn, Grouping(s, e + 1).value, s[w + 1..e]));
    }
  }

  lemma Unreadable(s: string, shape: CallShape)
    requires s != "" && Trim(s, IsSpace) == s && PreBy(s) == None && PostBy(s) == Some(shape)
    requires ToLowerAscii(shape.fn) in AGG_MAP && ParseSelector(Trim(shape.inner, IsSpace)) == None
    ensures !ParsePromQL(s).recognized
  {
    hide PreBy, PostBy, ParseSelector, Trim;
    assert Shape(s) == shape;
  }

  lemma ReadInFull(q: MetricQuery, s: string, shape: CallShape)
    requires IsBuilt(q) && AllReadable(Filters(q)) && FunctionOf(q.aggregation) != "quantile"
    requires shape == CallShape(FunctionOf(q.aggregation), WantedLabel(q.groupBy), Selector(q.metric, Filters(q)))
    requires s != "" && Trim(s, IsSpace) == s && PreBy(s) == None && PostBy(s) == Some(shape)
    ensures ParsePromQL(s) == ParsedPromQL(q, true)
  {
    var filters := Filters(q);
    Aggregations(q.aggregation);
    FunctionNames(shape.fn);
    ByClauseReads(q.groupBy);
    SelectorReads(q.metric, filters);
    TrimTrimmed(shape.inner, IsSpace);
    BlockReads(LabelBlock(filters), 0, filters, map[]);
    FilledFilters(q);
    hide PreBy, PostBy, ParseSelector, Trim, Selector, LabelBlock, ScanLabels, Fill, Filters, FunctionOf;
    assert Shape(s) == shape;
    assert QueryOf(q.metric, Fill(map[], filters), shape) == q;
  }

  /** The quantile's first argument makes its selector unreadable, wherever the call is cut. */
  lemma QuantileFails(selector: string, clause: string, wanted: Option<string>)
    requires IsByClause(clause, wanted)
    ensures !ParsePromQL("quantile" + "(" + ("0.95, " + selector) + ")" + clause).recognized
  {
    var inner := "0.95, " + selector;
    var s := "quantile" + "(" + inner + ")" + clause;
    FunctionNames("quantile");
    CallText("quantile", inner, clause);
    CallIsTrimmed("quantile", inner, clause, wanted);
    assert s[9] == '0';
    QuantileCallFails(s, inner, clause, wanted);
  }

  lemma QuantileCallFails(s: string, inner: string, clause: string, wanted: Option<string>)
    requires IsCall(s, "quantile", inner, clause) && s != "" && Trim(s, IsSpace) == s && IsByClause(clause, wanted)
    requires |s| > 9 && s[9] == '0'
    ensures !ParsePromQL(s).recognized
  {
    hide IsCall, IsByClause, ClosesBefore, Grouping, PreBy, PostBy, ParsePromQL, Trim;
    FunctionNames("quantile");
    var e := CallReads(s, "quantile", inner, clause, wanted, 8, 9 + |inner|);
    NumberIsNoSelector(s, e);
    Unreadable(s, CallShape("quantile", Grouping(s, e + 1).value, s[9..e]));
  }

  lemma NumberIsNoSelector(s: string, e: nat)
    requires 9 < e <= |s| && s[9] == '0'
    ensures ParseSelector(Trim(s[9..e], IsSpace)) == None
  {
    var inner := s[9..e];
    assert inner[0] == '0';
    TrimKeepsStart(inner, 0);
  }

  /* The shapes that are read but not printed. */

  lemma {:induction false} SpacesEnd(s: string, i: nat, spaces: string)
    requires At(s, i, spaces) && All(spaces, IsSpace) && i + |spaces| < |s| && !IsSpace(s[i + |spaces|])
    ensures SpaceEnd(s, i) == i + |spaces|
    decreases |spaces|
  {
    if spaces != "" {
      assert s[i + 0] == spaces[0];
      assert spaces == spaces[..1] + spaces[1..];
      AtParts(s, i, spaces[..1], spaces[1..]);
      SpacesEnd(s, i + 1, spaces[1..]);
    }
  }

  lemma FirstAt(s: string, i: nat, c: char, rest: string)
    requires At(s, i, [c] + rest)
    ensures i < |s| && s[i] == c && At(s, i + 1, rest)
  {
    AtParts(s, i, [c], rest);
    assert s[i + 0] == [c][0];
  }

  /** `(inner)` at the end. */
  lemma LastGroup(s: string, i: nat, inner: string)
    requires At(s, i, "(" + (inner + ")")) && i + |inner| + 2 == |s|
    ensures s[i] == '(' && s[|s| - 1] == ')' && s[i + 1..|s| - 1] == inner
  {
    FirstAt(s, i, '(', inner + ")");
    AtParts(s, i + 1, inner, ")");
    assert s[i + 1 + |inner| + 0] == ")"[0];
  }

  /** `(grouping)` before something else. */
  lemma FirstGroup(s: string, i: nat, grouping: string, rest: string)
    requires At(s, i, "(" + (grouping + (")" + rest))) && ')' !in grouping
    ensures
      var close := i + 1 + |grouping|;
      close < |s| && s[i] == '(' && FindFrom(s, i + 1, ')') == close && s[i + 1..close] == grouping &&
      At(s, close + 1, rest)
  {
    var close := i + 1 + |grouping|;
    FirstAt(s, i, '(', grouping + (")" + rest));
    AtParts(s, i + 1, grouping, ")" + rest);
    FirstAt(s, close, ')', rest);
    forall k | i + 1 <= k < close ensures s[k] != ')' { assert s[i + 1 + (k - i - 1)] == grouping[k - i - 1]; }
    FindAt(s, i + 1, close, ')');
  }

  /** The text of a call with its grouping in front, with any space. */
  function PreByText(fn: string, g1: string, word: string, g2: string, grouping: string, g3: string,
      inner: string): string {
    fn + (g1 + (word + (g2 + ("(" + (grouping + (")" + (g3 + ("(" + (inner + ")")))))))))
  }

  lemma WholeIsAt(s: string)
    ensures At(s, 0, s)
  {}

  lemma ByIs(s: string, i: nat)
    ensures IsBy(s, i) <==> i + 2 <= |s| && s[i..i + 2] in ["by", "BY", "By", "bY"]
  {
    if i + 2 <= |s| { assert s[i..i + 2] == [s[i], s[i + 1]]; }
  }

  lemma PreByFront(s: string, fn: string, g1: string, word: string, g2: string, rest: string)
    requires s == fn + (g1 + (word + (g2 + rest))) && |word| == 2
    ensures
      var w, j, open := |fn|, |fn| + |g1|, |fn| + |g1| + 2 + |g2|;
      && At(s, 0, fn) && At(s, w, g1) && At(s, j, word) && At(s, j + 2, g2) && At(s, open, rest)
      && |s| == open + |rest|
  {
    WholeIsAt(s);
    hide At;
    AtParts(s, 0, fn, g1 + (word + (g2 + rest)));
    AtParts(s, |fn|, g1, word + (g2 + rest));
    AtParts(s, |fn| + |g1|, word, g2 + rest);
    AtParts(s, |fn| + |g1| + 2, g2, rest);
  }

  lemma PreByBack(s: string, i: nat, grouping: string, g3: string, last: string)
    requires At(s, i, "(" + (grouping + (")" + (g3 + last))))
    ensures At(s, i + |grouping| + 2, g3) && At(s, i + |grouping| + 2 + |g3|, last)
  {
    hide At;
    AtParts(s, i, "(", grouping + (")" + (g3 + last)));
    AtParts(s, i + 1, grouping, ")" + (g3 + last));
    AtParts(s, i + 1 + |grouping|, ")", g3 + last);
    AtParts(s, i + |grouping| + 2, g3, last);
  }

  lemma WordThenSpace(s: string, fn: string, g1: string)
    requires AllWord(fn) && At(s, 0, fn) && g1 != "" && All(g1, IsSpace) && At(s, |fn|, g1)
    ensures WordEnd(s, 0) == |fn| && s[..|fn|] == fn
  {
    assert s[|fn| + 0] == g1[0];
    forall k | 0 <= k < |fn| ensures s[k] == fn[k] { assert s[0 + k] == fn[k]; }
    WordEndAt(s, 0, |fn|);
  }

  lemma ByAt(s: string, j: nat, word: string)
    requires At(s, j, word) && word in ["by", "BY", "By", "bY"]
    ensures IsBy(s, j) && !IsSpace(s[j])
  {
    assert s[j + 0] == word[0] && s[j + 1] == word[1];
  }

  lemma OpensAt(s: string, i: nat, rest: string)
    requires At(s, i, "(" + rest)
    ensures IsChar(s, i, '(') && !IsSpace(s[i])
  {
    FirstAt(s, i, '(', rest);
  }

  lemma HeadEnds(s: string, fn: string, g1: string, word: string, g2: string)
    requires fn != "" && AllWord(fn) && g1 != "" && All(g1, IsSpace) && All(g2, IsSpace)
    requires word in ["by", "BY", "By", "bY"]
    requires At(s, 0, fn) && At(s, |fn|, g1) && At(s, |fn| + |g1|, word) && At(s, |fn| + |g1| + 2, g2)
    requires IsChar(s, |fn| + |g1| + 2 + |g2|, '(')
    ensures
      var j := |fn| + |g1|;
      && WordEnd(s, 0) == |fn| && SpaceEnd(s, |fn|) == j && IsBy(s, j) && s[..|fn|] == fn
      && SpaceEnd(s, j + 2) == j + 2 + |g2|
  {
    hide WordEnd, SpaceEnd, IsBy, AllWord, All, At;
    WordThenSpace(s, fn, g1);
    ByAt(s, |fn| + |g1|, word);
    SpacesEnd(s, |fn|, g1);
    SpacesEnd(s, |fn| + |g1| + 2, g2);
  }

  lemma TailEnds(s: string, open: nat, grouping: string, g3: string, inner: string)
    requires At(s, open, "(" + (grouping + (")" + (g3 + ("(" + (inner + ")"))))))
    requires |s| == open + |grouping| + 2 + |g3| + |inner| + 2 && All(g3, IsSpace) && ')' !in grouping
    ensures
      var close, body := open + 1 + |grouping|, open + |grouping| + 2 + |g3|;
      && IsChar(s, open, '(') && FindFrom(s, open + 1, ')') == close < |s| && s[open + 1..close] == grouping
      && SpaceEnd(s, close + 1) == body && IsChar(s, body, '(') && s[|s| - 1] == ')' && s[body + 1..|s| - 1] == inner
  {
    var body := open + |grouping| + 2 + |g3|;
    hide SpaceEnd, FindFrom, All, At;
    PreByBack(s, open, grouping, g3, "(" + (inner + ")"));
    FirstGroup(s, open, grouping, g3 + ("(" + (inner + ")")));
    LastGroup(s, body, inner);
    SpacesEnd(s, body - |g3|, g3);
  }

  lemma PreByAt(s: string, w: nat, j: nat, open: nat, close: nat, body: nat)
    requires WordEnd(s, 0) == w > 0 && SpaceEnd(s, w) == j > w && IsBy(s, j) && SpaceEnd(s, j + 2) == open
    requires IsChar(s, open, '(') && FindFrom(s, open + 1, ')') == close < |s|
    requires SpaceEnd(s, close + 1) == body && IsChar(s, body, '(') && body + 1 < |s| && s[|s| - 1] == ')'
    ensures PreBy(s) == Some(CallShape(s[..w], Some(s[open + 1..close]), s[body + 1..|s| - 1]))
  {}

  lemma PreByOfPieces(s: string, fn: string, g1: string, word: string, g2: string, grouping: string, g3: string,
      inner: string)
    requires fn != "" && AllWord(fn) && g1 != "" && All(g1, IsSpace) && All(g2, IsSpace) && All(g3, IsSpace)
    requires word in ["by", "BY", "By", "bY"] && ')' !in grouping
    requires At(s, 0, fn) && At(s, |fn|, g1) && At(s, |fn| + |g1|, word) && At(s, |fn| + |g1| + 2, g2)
    requires At(s, |fn| + |g1| + 2 + |g2|, "(" + (grouping + (")" + (g3 + ("(" + (inner + ")"))))))
    requires |s| == |fn| + |g1| + 2 + |g2| + |grouping| + 2 + |g3| + |inner| + 2
    ensures PreBy(s) == Some(CallShape(fn, Some(grouping), inner))
  {
    var open := |fn| + |g1| + 2 + |g2|;
    hide WordEnd, SpaceEnd, FindFrom, IsBy, IsChar, AllWord, All, At, IsSpace, PreBy;
    TailEnds(s, open, grouping, g3, inner);
    HeadEnds(s, fn, g1, word, g2);
    PreByAt(s, |fn|, |fn| + |g1|, open, open + 1 + |grouping|, open + |grouping| + 2 + |g3|);
  }

  lemma PreByReads(fn: string, g1: string, word: string, g2: string, grouping: string, g3: string, inner: string)
    requires fn != "" && AllWord(fn) && g1 != "" && All(g1, IsSpace) && All(g2, IsSpace) && All(g3, IsSpace)
    requires word in ["by", "BY", "By", "bY"] && ')' !in grouping
    ensures PreBy(PreByText(fn, g1, word, g2, grouping, g3, inner)) == Some(CallShape(fn, Some(grouping), inner))
  {
    var s := PreByText(fn, g1, word, g2, grouping, g3, inner);
    hide AllWord, All, At, IsSpace, PreBy;
    PreByFront(s, fn, g1, word, g2, "(" + (grouping + (")" + (g3 + ("(" + (inner + ")"))))));
    PreByOfPieces(s, fn, g1, word, g2, grouping, g3, inner);
  }

  /** The value a query has for a label: the one it was given, else all. */
  ghost predicate IsValueOf(value: string, key: string, entries: seq<Entry>) {
    if exists e | e in entries :: e.0 == key then (key, value) in entries else value == "all"
  }

  ghost predicate HasLabels(q: MetricQuery, metric: string, entries: seq<Entry>) {
    && q.metric == metric && IsValueOf(q.namespace, "namespace", entries)
    && IsValueOf(q.pod, "pod", entries) && IsValueOf(q.container, "container", entries)
  }

  lemma FilledValue(key: string, entries: seq<Entry>)
    requires DistinctKeys(entries)
    ensures IsValueOf(Lookup(Fill(map[], entries), key, "all"), key, entries)
  {
    FillKeeps(map[], entries, key);
  }

  /** What a recognized shape around a printed selector is read as. */
  lemma SelectorQuery(s: string, shape: CallShape, metric: string, entries: seq<Entry>)
    requires IsMetricName(metric) && AllReadable(entries) && DistinctKeys(entries)
    requires s != "" && Trim(s, IsSpace) == s && Shape(s) == shape &&
      Trim(shape.inner, IsSpace) == Selector(metric, entries)
    ensures ParsePromQL(s) == ParsedPromQL(QueryOf(metric, Fill(map[], entries), shape), true)
    ensures HasLabels(ParsePromQL(s).query, metric, entries)
  {
    SelectorReads(metric, entries);
    assert At(LabelBlock(entries), 0, LabelBlock(entries));
    BlockReads(LabelBlock(entries), 0, entries, map[]);
    FilledValue("namespace", entries);
    FilledValue("pod", entries);
    FilledValue("container", entries);
    hide Shape, Trim, Selector, LabelBlock, ScanLabels, Fill, ParseSelector, IsValueOf, Lookup;
  }

  lemma BareShape(metric: string, entries: seq<Entry>)
    requires IsMetricName(metric)
    ensures Shape(Selector(metric, entries)) == CallShape("", None, Selector(metric, entries))
  {
    var s := Selector(metric, entries);
    var w := WordEnd(s, 0);
    BareWord(s, metric, entries);
    assert SpaceEnd(s, w) == w;
    hide WordEnd, Selector, SpaceEnd;
  }

  lemma BareWord(s: string, metric: string, entries: seq<Entry>)
    requires IsMetricName(metric) && s == Selector(metric, entries)
    ensures var w := WordEnd(s, 0); w < |s| ==> !IsSpace(s[w]) && s[w] != '('
  {
    var w := WordEnd(s, 0);
    WordsBefore(s, 0);
    forall k | 0 <= k < |metric| ensures s[k] == metric[k] && IsMetricChar(s[k]) {}
    if LabelBlock(entries) != "" { assert s[|metric|] == '{'; }
    hide Selector, LabelBlock;
  }

  lemma {:induction false} WordsBefore(s: string, i: nat)
    requires i <= |s|
    ensures forall k | i <= k < WordEnd(s, i) :: IsWord(s[k])
    ensures WordEnd(s, i) < |s| ==> !IsWord(s[WordEnd(s, i)])
    decreases |s| - i
  {
    if i < |s| && IsWord(s[i]) { WordsBefore(s, i + 1); }
  }

  /** The aggregation that a function name stands for, in any case. */
  ghost function AggregationNamed(fn: string): string {
    var name := ToLowerAscii(fn);
    if name == "sum" then "Sum"
    else if name == "max" || name == "topk" then "Max"
    else if name == "min" then "Min"
    else if name == "quantile" then "p95"
    else "Average"
  }

  ghost function GroupingNamed(text: string): string {
    var name := ToLowerAscii(Trim(text, IsSpace));
    if name == "pod" then "Pod" else if name == "namespace" then "Namespace" else if name == "container" then
      "Container"
    else "None"
  }

  lemma NamesAreLookedUp(fn: string, text: string)
    ensures Lookup(AGG_MAP, ToLowerAscii(fn), "Average") == AggregationNamed(fn)
    ensures (if text != "" then Lookup(GROUP_BY_MAP, ToLowerAscii(Trim(text, IsSpace)), "None") else "None") ==
      GroupingNamed(text)
  {
    var f, g := ToLowerAscii(fn), ToLowerAscii(Trim(text, IsSpace));
    assert text == "" ==> Trim(text, IsSpace) == "" && ToLowerAscii("") == "";
    hide ToLowerAscii, Trim;
  }

  /** A bare selector is read as itself, averaged and ungrouped. */
  lemma BareSelectorParses(metric: string, entries: seq<Entry>)
    requires IsMetricName(metric) && AllReadable(entries) && DistinctKeys(entries)
    ensures
      var r := ParsePromQL(Selector(metric, entries));
      && r.recognized && HasLabels(r.query, metric, entries)
      && r.query.aggregation == "Average" && r.query.groupBy == "None"
  {
    var s := Selector(metric, entries);
    SelectorReads(metric, entries);
    TrimTrimmed(s, IsSpace);
    BareShape(metric, entries);
    hide Shape, Trim, Selector, Fill, ParsePromQL, HasLabels, AllReadable, IsTrimmed, DistinctKeys, Lookup;
    SelectorQuery(s, CallShape("", None, s), metric, entries);
  }

  lemma PreByIsTrimmed(fn: string, g1: string, word: string, g2: string, grouping: string, g3: string, inner: string)
    requires fn != "" && AllWord(fn)
    ensures
      var s := PreByText(fn, g1, word, g2, grouping, g3, inner);
      s != "" && Trim(s, IsSpace) == s
  {
    var s := PreByText(fn, g1, word, g2, grouping, g3, inner);
    var front := fn + g1 + word + g2 + "(" + grouping + ")" + g3 + "(" + inner;
    assert s == front + ")" && s[0] == fn[0] && IsWord(fn[0]) && s[|s| - 1] == ')';
    TrimTrimmed(s, IsSpace);
  }

  /** Main theorem: a selector in a call whose grouping stands in front, as `sum by (pod) (metric)`, with any space and
      in
      any case, is read as its metric and labels, aggregated as the function says and grouped as the grouping does; an
      unknown function averages, an unknown grouping is none. */
  lemma PreByParses(fn: string, g1: string, word: string, g2: string, grouping: string, g3: string, metric: string,
      entries: seq<Entry>)
    requires fn != "" && AllWord(fn) && g1 != "" && All(g1, IsSpace) && All(g2, IsSpace) && All(g3, IsSpace)
    requires word in ["by", "BY", "By", "bY"] && ')' !in grouping
    requires IsMetricName(metric) && AllReadable(entries) && DistinctKeys(entries)
    ensures
      var r := ParsePromQL(PreByText(fn, g1, word, g2, grouping, g3, Selector(metric, entries)));
      && r.recognized && HasLabels(r.query, metric, entries)
      && r.query.aggregation == AggregationNamed(fn) && r.query.groupBy == GroupingNamed(grouping)
  {
    var inner := Selector(metric, entries);
    var s, shape := PreByText(fn, g1, word, g2, grouping, g3, inner), CallShape(fn, Some(grouping), inner);
    SelectorReads(metric, entries);
    TrimTrimmed(inner, IsSpace);
    hide PreBy, PostBy, Trim, Selector, Fill, ParsePromQL, HasLabels, AllReadable, IsTrimmed, DistinctKeys, Lookup, All,
      AllWord, PreByText, AggregationNamed, GroupingNamed;
    PreByReads(fn, g1, word, g2, grouping, g3, inner);
    PreByIsTrimmed(fn, g1, word, g2, grouping, g3, inner);
    NamesAreLookedUp(fn, grouping);
    SelectorQuery(s, shape, metric, entries);
  }

  /** The name and the space in front of an opening parenthesis. */
  lemma NameThen(s: string, fn: string, g1: string)
    requires fn != "" && AllWord(fn) && All(g1, IsSpace) && At(s, 0, fn) && At(s, |fn|, g1)
    requires IsChar(s, |fn| + |g1|, '(')
    ensures WordEnd(s, 0) == |fn| && SpaceEnd(s, |fn|) == |fn| + |g1| && s[..|fn|] == fn && PreBy(s) == None
  {
    assert !IsBy(s, |fn| + |g1|);
    hide WordEnd, SpaceEnd, AllWord, All, At, IsBy;
    if g1 == "" {
      CallName(s, fn);
    } else {
      WordThenSpace(s, fn, g1);
      SpacesEnd(s, |fn|, g1);
    }
  }

  lemma PostByOfPieces(s: string, fn: string, g1: string, inner: string, rest: string, wanted: Option<string>)
    requires fn != "" && AllWord(fn) && All(g1, IsSpace) && ')' !in inner
    requires At(s, 0, fn) && At(s, |fn|, g1) && At(s, |fn| + |g1|, "(" + (inner + (")" + rest)))
    requires
      var close := |fn| + |g1| + 1 + |inner|;
      close < |s| && Grouping(s, close + 1) == Some(wanted)
    ensures PreBy(s) == None && PostBy(s) == Some(CallShape(fn, wanted, inner))
  {
    var open, close := |fn| + |g1|, |fn| + |g1| + 1 + |inner|;
    hide WordEnd, SpaceEnd, FindFrom, Grouping, LazyEnd, PreBy, AllWord, All, At;
    FirstGroup(s, open, inner, rest);
    NameThen(s, fn, g1);
    forall k | open + 1 <= k < close ensures s[k] != ')' { assert s[open + 1..close][k - open - 1] == s[k]; }
    assert s[close] == ')' by { FindIsAt(s, open + 1, ')'); }
    LazyEndIsFirst(s, open + 1, close);
  }

  lemma {:induction false} FindIsAt(s: string, i: nat, c: char)
    requires i <= |s| && FindFrom(s, i, c) < |s|
    ensures s[FindFrom(s, i, c)] == c
    decreases |s| - i
  {
    if s[i] != c { FindIsAt(s, i + 1, c); }
  }

  /** A grouping behind a call, with any space. */
  lemma GroupingSpaced(s: string, i: nat, g2: string, word: string, g3: string, grouping: string)
    requires i <= |s| && All(g2, IsSpace) && All(g3, IsSpace) && word in ["by", "BY", "By", "bY"] && ')' !in grouping
    requires At(s, i, g2) && At(s, i + |g2|, word) && At(s, i + |g2| + 2, g3)
    requires At(s, i + |g2| + 2 + |g3|, "(" + (grouping + (")" + ""))) && |s| == i + |g2| + 4 + |g3| + |grouping|
    ensures Grouping(s, i) == Some(Some(grouping))
  {
    hide SpaceEnd, FindFrom, All, At, IsBy, IsSpace;
    var open := i + |g2| + 2 + |g3|;
    ByAt(s, i + |g2|, word);
    SpacesEnd(s, i, g2);
    FirstGroup(s, open, grouping, "");
    OpensAt(s, open, grouping + (")" + ""));
    SpacesEnd(s, i + |g2| + 2, g3);
  }

  /** The text of a call with its grouping behind, with any space. */
  function PostByText(fn: string, g1: string, inner: string, g2: string, word: string, g3: string,
      grouping: string): string {
    fn + (g1 + ("(" + (inner + (")" + (g2 + (word + (g3 + ("(" + (grouping + (")" + ""))))))))))
  }

  lemma CallFront(s: string, fn: string, g1: string, inner: string, rest: string)
    requires s == fn + (g1 + ("(" + (inner + (")" + rest))))
    ensures
      var open, i := |fn| + |g1|, |fn| + |g1| + |inner| + 2;
      && At(s, 0, fn) && At(s, |fn|, g1) && At(s, open, "(" + (inner + (")" + rest))) && At(s, i, rest)
      && |s| == i + |rest|
  {
    WholeIsAt(s);
    hide At;
    AtParts(s, 0, fn, g1 + ("(" + (inner + (")" + rest))));
    AtParts(s, |fn|, g1, "(" + (inner + (")" + rest)));
    AtParts(s, |fn| + |g1|, "(", inner + (")" + rest));
    AtParts(s, |fn| + |g1| + 1, inner, ")" + rest);
    AtParts(s, |fn| + |g1| + 1 + |inner|, ")", rest);
  }

  lemma GroupingPieces(s: string, i: nat, g2: string, word: string, g3: string, last: string)
    requires At(s, i, g2 + (word + (g3 + last))) && |word| == 2
    ensures At(s, i, g2) && At(s, i + |g2|, word) && At(s, i + |g2| + 2, g3) && At(s, i + |g2| + 2 + |g3|, last)
  {
    hide At;
    AtParts(s, i, g2, word + (g3 + last));
    AtParts(s, i + |g2|, word, g3 + last);
    AtParts(s, i + |g2| + 2, g3, last);
  }

  lemma PostByReads(fn: string, g1: string, inner: string, g2: string, word: string, g3: string, grouping: string)
    requires fn != "" && AllWord(fn) && All(g1, IsSpace) && All(g2, IsSpace) && All(g3, IsSpace)
    requires word in ["by", "BY", "By", "bY"] && ')' !in grouping && ')' !in inner
    ensures
      var s := PostByText(fn, g1, inner, g2, word, g3, grouping);
      PreBy(s) == None && PostBy(s) == Some(CallShape(fn, Some(grouping), inner))
  {
    var s, last := PostByText(fn, g1, inner, g2, word, g3, grouping), "(" + (grouping + (")" + ""));
    hide AllWord, All, At, IsSpace, PreBy, PostBy, Grouping;
    var rest := g2 + (word + (g3 + last));
    assert |last| == |grouping| + 2 && |rest| == |g2| + 2 + |g3| + |last|;
    CallFront(s, fn, g1, inner, rest);
    GroupingPieces(s, |fn| + |g1| + |inner| + 2, g2, word, g3, last);
    GroupingSpaced(s, |fn| + |g1| + |inner| + 2, g2, word, g3, grouping);
    PostByOfPieces(s, fn, g1, inner, rest, Some(grouping));
  }

  lemma PostByIsTrimmed(fn: string, g1: string, inner: string, g2: string, word: string, g3: string, grouping: string)
    requires fn != "" && AllWord(fn)
    ensures
      var s := PostByText(fn, g1, inner, g2, word, g3, grouping);
      s != "" && Trim(s, IsSpace) == s
  {
    var s := PostByText(fn, g1, inner, g2, word, g3, grouping);
    var front := fn + g1 + "(" + inner + ")" + g2 + word + g3 + "(" + grouping;
    assert s == front + ")" && s[0] == fn[0] && IsWord(fn[0]) && s[|s| - 1] == ')';
    TrimTrimmed(s, IsSpace);
  }

  lemma AggregationsAre(fn: string)
    requires ToLowerAscii(fn) in ["sum", "avg", "average", "max", "min", "quantile", "topk"]
    ensures ToLowerAscii(fn) in AGG_MAP
  {
    hide ToLowerAscii;
  }

  /** Main theorem: a selector in a call of an aggregation with the grouping behind, as `sum (metric) by (pod)`, with
      any
      space and in any case, is read as its metric and labels, aggregated and grouped so. */
  lemma PostByParses(fn: string, g1: string, metric: string, entries: seq<Entry>, g2: string, word: string, g3: string,
      grouping: string)
    requires fn != "" && AllWord(fn) && All(g1, IsSpace) && All(g2, IsSpace) && All(g3, IsSpace)
    requires ToLowerAscii(fn) in ["sum", "avg", "average", "max", "min", "quantile", "topk"]
    requires word in ["by", "BY", "By", "bY"] && ')' !in grouping && ')' !in Selector(metric, entries)
    requires IsMetricName(metric) && AllReadable(entries) && DistinctKeys(entries)
    ensures
      var r := ParsePromQL(PostByText(fn, g1, Selector(metric, entries), g2, word, g3, grouping));
      && r.recognized && HasLabels(r.query, metric, entries)
      && r.query.aggregation == AggregationNamed(fn) && r.query.groupBy == GroupingNamed(grouping)
  {
    var inner := Selector(metric, entries);
    var s, shape := PostByText(fn, g1, inner, g2, word, g3, grouping), CallShape(fn, Some(grouping), inner);
    AggregationsAre(fn);
    SelectorReads(metric, entries);
    TrimTrimmed(inner, IsSpace);
    hide PreBy, PostBy, Trim, Selector, Fill, ParsePromQL, HasLabels, AllReadable, IsTrimmed, DistinctKeys, Lookup, All,
      AllWord, PostByText, AggregationNamed, GroupingNamed, ToLowerAscii;
    PostByReads(fn, g1, inner, g2, word, g3, grouping);
    PostByIsTrimmed(fn, g1, inner, g2, word, g3, grouping);
    NamesAreLookedUp(fn, grouping);
    SelectorQuery(s, shape, metric, entries);
  }

  /* What is not recognized. */

  /** A letter, `_` or `:`, and then any number of those and of digits. */
  predicate IsMetric(metric: string) {
    && metric != "" && (IsLetter(metric[0]) || metric[0] == '_' || metric[0] == ':')
    && forall i | 0 <= i < |metric| :: IsLetter(metric[i]) || IsDigit(metric[i]) || metric[i] == '_' || metric[i] == ':'
  }

  /** The metric, space, and perhaps a label block in braces. */
  ghost predicate IsSelectorOf(s: string, metric: string, spaces: string, body: string, block: string) {
    && s == metric + (spaces + body) && IsMetric(metric) && All(spaces, IsSpace)
    && if body == "" then block == "" else body == "{" + (block + "}") && '}' !in block
  }

  lemma {:induction false} SpaceEndParts(s: string, i: nat)
    requires i <= |s|
    ensures All(s[i..SpaceEnd(s, i)], IsSpace) && (SpaceEnd(s, i) < |s| ==> !IsSpace(s[SpaceEnd(s, i)]))
    decreases |s| - i
  {
    if i < |s| && IsSpace(s[i]) {
      SpaceEndParts(s, i + 1);
      assert s[i..SpaceEnd(s, i)] == [s[i]] + s[i + 1..SpaceEnd(s, i)];
    }
  }

  lemma {:induction false} MetricEndParts(s: string, i: nat)
    requires i <= |s|
    ensures forall k | i <= k < MetricEnd(s, i) :: IsMetricChar(s[k])
    ensures MetricEnd(s, i) < |s| ==> !IsMetricChar(s[MetricEnd(s, i)])
    decreases |s| - i
  {
    if i < |s| && IsMetricChar(s[i]) { MetricEndParts(s, i + 1); }
  }

  lemma ThreeSlices(s: string, m: nat, j: nat)
    requires m <= j <= |s|
    ensures s == s[..m] + (s[m..j] + s[j..])
  {}

  lemma BracedSlice(s: string, j: nat, close: nat)
    requires j < close < |s| && s[j] == '{' && s[close] == '}' && close + 1 == |s| &&
      forall k | j < k < close :: s[k] != '}'
    ensures s[j..] == "{" + (s[j + 1..close] + "}") && '}' !in s[j + 1..close]
  {}

  lemma BlockSlice(s: string, j: nat)
    requires j < |s| && s[j] == '{' && FindFrom(s, j + 1, '}') + 1 == |s|
    ensures var block := s[j + 1..|s| - 1]; s[j..] == "{" + (block + "}") && '}' !in block
  {
    var close := FindFrom(s, j + 1, '}');
    hide FindFrom;
    BracedSlice(s, j, close);
  }

  lemma NameSlice(s: string, m: nat)
    requires s != "" && IsMetricStart(s[0]) && m == MetricEnd(s, 0)
    ensures IsMetric(s[..m])
  {
    MetricEndParts(s, 0);
    forall i | 0 <= i < m ensures IsMetricChar(s[..m][i]) { assert s[..m][i] == s[i]; }
  }

  lemma SelectorShape(s: string)
    requires ParseSelector(s).Some?
    ensures
      var m, block := MetricEnd(s, 0), ParseSelector(s).value.1;
      var j := SpaceEnd(s, m);
      && s != "" && IsMetricStart(s[0]) && ParseSelector(s).value.0 == s[..m]
      && if j == |s| then block == ""
         else s[j] == '{' && FindFrom(s, j + 1, '}') + 1 == |s| && block == s[j + 1..|s| - 1]
  {}

  lemma SlicesAreSelector(s: string, m: nat, j: nat, block: string)
    requires m <= j <= |s| && IsMetric(s[..m]) && All(s[m..j], IsSpace)
    requires if j == |s| then block == "" else s[j..] == "{" + (block + "}") && '}' !in block
    ensures IsSelectorOf(s, s[..m], s[m..j], s[j..], block)
  {
    hide IsMetric, All;
    ThreeSlices(s, m, j);
  }

  lemma SelectorHasParts(s: string) returns (spaces: string, body: string)
    requires ParseSelector(s).Some?
    ensures IsSelectorOf(s, ParseSelector(s).value.0, spaces, body, ParseSelector(s).value.1)
  {
    SelectorShape(s);
    hide MetricEnd, SpaceEnd, IsMetricStart, IsMetric, IsSpace, All, ParseSelector, FindFrom, IsSelectorOf;
    var m := MetricEnd(s, 0);
    var j := SpaceEnd(s, m);
    NameSlice(s, m);
    SpaceEndParts(s, m);
    if j < |s| { BlockSlice(s, j); }
    SlicesAreSelector(s, m, j, ParseSelector(s).value.1);
    spaces, body := s[m..j], s[j..];
  }

  lemma {:induction false} SpacesToEnd(s: string, i: nat)
    requires i <= |s| && forall k | i <= k < |s| :: IsSpace(s[k])
    ensures SpaceEnd(s, i) == |s|
    decreases |s| - i
  {
    if i < |s| { SpacesToEnd(s, i + 1); }
  }

  lemma NameEnds(s: string, metric: string, rest: string)
    requires s == metric + rest && metric != "" && (forall i | 0 <= i < |metric| :: IsMetricChar(metric[i]))
    requires rest != "" ==> !IsMetricChar(rest[0])
    ensures MetricEnd(s, 0) == |metric| && s[..|metric|] == metric && s[0] == metric[0] && At(s, |metric|, rest)
  {
    assert forall k | 0 <= k < |metric| :: s[k] == metric[k];
    assert rest != "" ==> s[|metric|] == rest[0];
    MetricEndAt(s, 0, |metric|);
  }

  lemma BodyEnds(s: string, m: nat, spaces: string, body: string)
    requires At(s, m, spaces + body) && |s| == m + |spaces| + |body| && All(spaces, IsSpace)
    requires body != "" ==> !IsSpace(body[0])
    ensures SpaceEnd(s, m) == m + |spaces| && At(s, m + |spaces|, body)
  {
    AtParts(s, m, spaces, body);
    if body == "" {
      forall k | m <= k < |s| ensures IsSpace(s[k]) { assert s[m + (k - m)] == spaces[k - m]; }
      SpacesToEnd(s, m);
    } else {
      assert s[m + |spaces| + 0] == body[0];
      SpacesEnd(s, m, spaces);
    }
  }

  lemma BlockEnds(s: string, j: nat, block: string)
    requires At(s, j, "{" + (block + "}")) && |s| == j + |block| + 2 && '}' !in block
    ensures s[j] == '{' && FindFrom(s, j + 1, '}') == |s| - 1 && s[j + 1..|s| - 1] == block
  {
    FirstAt(s, j, '{', block + "}");
    AtParts(s, j + 1, block, "}");
    assert s[j + 1 + |block| + 0] == "}"[0];
    forall k | j + 1 <= k < |s| - 1 ensures s[k] != '}' { assert s[j + 1 + (k - j - 1)] == block[k - j - 1]; }
    FindAt(s, j + 1, |s| - 1, '}');
  }

  /** A text is a selector, with this metric and this block, exactly when it has this form. */
  lemma SelectorIff(s: string, metric: string, block: string)
    ensures ParseSelector(s) == Some((metric, block)) <==>
      exists spaces, body :: IsSelectorOf(s, metric, spaces, body, block)
  {
    if ParseSelector(s) == Some((metric, block)) {
      var spaces, body := SelectorHasParts(s);
    }
    if spaces, body :| IsSelectorOf(s, metric, spaces, body, block) {
      SelectorOfParts(s, metric, spaces, body, block);
    }
  }

  lemma FirstOfRest(spaces: string, body: string)
    requires All(spaces, IsSpace) && (body != "" ==> body[0] == '{')
    ensures var rest := spaces + body; rest != "" ==> !IsMetricChar(rest[0])
  {
    var rest := spaces + body;
    if rest != "" { assert rest[0] == if spaces == "" then body[0] else spaces[0]; }
  }

  lemma SelectorAt(s: string, m: nat, j: nat, block: string)
    requires s != "" && IsMetricStart(s[0]) && MetricEnd(s, 0) == m && SpaceEnd(s, m) == j
    requires if j == |s| then block == ""
      else s[j] == '{' && FindFrom(s, j + 1, '}') + 1 == |s| && s[j + 1..|s| - 1] == block
    ensures ParseSelector(s) == Some((s[..m], block))
  {}

  lemma SelectorOfParts(s: string, metric: string, spaces: string, body: string, block: string)
    requires IsSelectorOf(s, metric, spaces, body, block)
    ensures ParseSelector(s) == Some((metric, block))
  {
    FirstOfRest(spaces, body);
    NameOfSelector(s, metric, spaces + body);
    assert |s| == |metric| + |spaces| + |body|;
    assert body != "" ==> body[0] == '{' && |body| == |block| + 2;
    hide MetricEnd, SpaceEnd, FindFrom, At, ParseSelector, All, IsMetric, IsMetricStart, IsSpace;
    PartsEnd(s, |metric|, spaces, body, block);
    SelectorAt(s, |metric|, |metric| + |spaces|, block);
  }

  lemma NameOfSelector(s: string, metric: string, rest: string)
    requires s == metric + rest && IsMetric(metric) && (rest != "" ==> !IsMetricChar(rest[0]))
    ensures s != "" && IsMetricStart(s[0]) && MetricEnd(s, 0) == |metric| && s[..|metric|] == metric &&
      At(s, |metric|, rest)
  {
    assert forall i | 0 <= i < |metric| :: IsMetricChar(metric[i]);
    assert IsMetricStart(metric[0]);
    hide MetricEnd, At, IsMetricChar, IsMetric;
    NameEnds(s, metric, rest);
  }

  /** Where the space and the block of a selector end. */
  lemma PartsEnd(s: string, m: nat, spaces: string, body: string, block: string)
    requires At(s, m, spaces + body) && |s| == m + |spaces| + |body| && All(spaces, IsSpace)
    requires if body == "" then block == "" else body == "{" + (block + "}") && '}' !in block
    ensures
      var j := m + |spaces|;
      && SpaceEnd(s, m) == j && j <= |s| && (j == |s| ==> block == "")
      && (j < |s| ==> s[j] == '{' && FindFrom(s, j + 1, '}') + 1 == |s| && s[j + 1..|s| - 1] == block)
  {
    assert body != "" ==> body[0] == '{' && |body| == |block| + 2 && !IsSpace(body[0]);
    hide SpaceEnd, FindFrom, At, All, IsSpace;
    BodyEnds(s, m, spaces, body);
    if body != "" { BlockEnds(s, m + |spaces|, block); }
  }

  /** What is not recognized is taken for a metric, averaged and ungrouped. */
  lemma UnrecognizedFallsBack(raw: string)
    ensures !ParsePromQL(raw).recognized ==>
      ParsePromQL(raw).query ==
        MetricQuery(if Trim(raw, IsSpace) == "" then "unknown_metric" else Trim(raw, IsSpace),
                    "all", "all", "all", "Average", "None")
    ensures Trim(raw, IsSpace) == "" ==> !ParsePromQL(raw).recognized
  {
    hide Trim, Shape, ParseSelector, QueryOf, ScanLabels;
  }

  /** A call of a function that is not one of the aggregations is not recognized. */
  lemma UnknownCallIsUnrecognized(fn: string, inner: string)
    requires fn != "" && AllWord(fn)
    requires ToLowerAscii(fn) !in ["sum", "avg", "average", "max", "min", "quantile", "topk"]
    ensures !ParsePromQL(fn + "(" + inner + ")").recognized
  {
    var s := fn + "(" + inner + ")" + "";
    assert s == fn + "(" + inner + ")";
    CallText(fn, inner, "");
    CallIsTrimmed(fn, inner, "", None);
    OpenParenthesisIsNoSelector(s, fn, inner);
    hide IsCall, ClosesBefore, Grouping, PreBy, PostBy, ParseSelector, Trim, ToLowerAscii, AllWord;
    var e := CallReads(s, fn, inner, "", None, |fn|, |fn| + 1 + |inner|);
    assert Shape(s) == CallShape("", None, s);
  }

  lemma OpenParenthesisIsNoSelector(s: string, fn: string, inner: string)
    requires s == fn + "(" + inner + ")" + "" && fn != "" && AllWord(fn)
    ensures ParseSelector(s) == None
  {
    assert s[|fn|] == '(';
    forall i | 0 <= i < |fn| ensures IsMetricChar(s[i]) { assert s[i] == fn[i] && IsWord(fn[i]); }
    MetricEndAt(s, 0, |fn|);
    assert SpaceEnd(s, |fn|) == |fn|;
  }
}
