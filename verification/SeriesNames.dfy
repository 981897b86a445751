/** Printing a series name from its labels (frontend/src/lib/datasource/queryGateway.ts) and reading the
    labels back out of it (frontend/src/dashboard/usePanelData.ts, parseSeriesLabels). */
module SeriesNames {
  import opened Wrappers
  import opened Text
  import opened LabelText

  /** seriesNameFromLabels; an absent `__name__` is the empty string. */
  function SeriesName(metric: string, rest: seq<Entry>): string {
    var labelPart := LabelBlock(rest);
    if metric != "" && labelPart != "" then metric + "{" + labelPart + "}"
    else if metric != "" then metric
    else if labelPart != "" then labelPart
    else "value"
  }

  /** What `.` does not match in a JavaScript regular expression. */
  predicate IsLineBreak(c: char) { c == '\n' || c == '\r' || c == '\U{2028}' || c == '\U{2029}' }

  /** `^([^{]*)\{(.*)\}$`: the metric and the block. */
  function Braced(name: string): Option<(string, string)> {
    var b := FindFrom(name, 0, '{');
    var last := |name| - 1;
    if b < last && name[last] == '}' && forall k | b < k < last :: !IsLineBreak(name[k]) then
      Some((name[..b], name[b + 1..last]))
    else None
  }

  /** `((?:[^"\\]|\\.)*)"`: where the closing quote is. */
  function ValueEnd(s: string, i: nat): (e: Option<nat>)
    requires i <= |s|
    ensures e.Some? ==> i <= e.value < |s|
    decreases |s| - i
  {
    if i == |s| then None
    else if s[i] == '"' then Some(i)
    else if s[i] == '\\' then if i + 1 < |s| && !IsLineBreak(s[i + 1]) then ValueEnd(s, i + 2) else None
    else ValueEnd(s, i + 1)
  }

  datatype Found = Found(key: string, value: string, end: nat)

  /** `(\w+)="((?:[^"\\]|\\.)*)"` at position `i`. */
  function LabelAt(s: string, i: nat): (r: Option<Found>)
    requires i <= |s|
    ensures r.Some? ==> i < r.value.end <= |s|
  {
    var w := WordEnd(s, i);
    if w == i || w + 1 >= |s| || s[w] != '=' || s[w + 1] != '"' then None
    else match ValueEnd(s, w + 2)
      case None => None
      case Some(e) => Some(Found(s[i..w], s[w + 2..e], e + 1))
  }

  /** Every match from position `i` on, assigned in order. */
  function Scan(s: string, i: nat, labels: map<string, string>): map<string, string>
    requires i <= |s|
    decreases |s| - i
  {
    if i == |s| then labels
    else match LabelAt(s, i)
      case Some(f) => Scan(s, f.end, labels[ToLowerAscii(f.key) := f.value])
      case None => Scan(s, i + 1, labels)
  }

  datatype SeriesLabels = SeriesLabels(metric: string, labels: map<string, string>)

  function Parsed(name: string): SeriesLabels {
    match Braced(name)
    case Some((metric, block)) => SeriesLabels(metric, Scan(block, 0, map[]))
    case None => var labels := Scan(name, 0, map[]); SeriesLabels(if labels != map[] then "" else name, labels)
  }

  function LabelsOf(name: string): map<string, string> { Parsed(name).labels }

  /** parseSeriesLabels: a loop over the matches of a global regular expression. */
  method ParseSeriesLabels(name: string) returns (r: SeriesLabels)
    ensures r == Parsed(name)
  {
    var braced := Braced(name);
    var block := if braced.Some? then braced.value.1 else name;
    var labels: map<string, string> := map[];
    var lastIndex := 0;
    while lastIndex < |block|
      invariant lastIndex <= |block|
      invariant Scan(block, lastIndex, labels) == Scan(block, 0, map[])
      decreases |block| - lastIndex
    {
      var m := LabelAt(block, lastIndex);
      if m.Some? {
        labels := labels[ToLowerAscii(m.value.key) := m.value.value];
        lastIndex := m.value.end;
      } else {
        lastIndex := lastIndex + 1;
      }
    }
    r := SeriesLabels(if braced.Some? then braced.value.0 else if labels != map[] then "" else name, labels);
  }

  /** Keys are label names. */
  ghost predicate AllNamed(entries: seq<Entry>) { forall e | e in entries :: e.0 != "" && AllWord(e.0) }

  /** `(?:[^"\\]|\\.)*`: characters that are neither quote nor backslash, and pairs of a backslash and what `.`
      matches. */
  predicate IsRun(v: string) {
    v == "" || (v[0] != '"' && if v[0] == '\\' then |v| > 1 && !IsLineBreak(v[1]) && IsRun(v[2..]) else IsRun(v[1..]))
  }

  predicate IsOneLine(v: string) { forall k | 0 <= k < |v| :: !IsLineBreak(v[k]) }

  predicate IsLowerCase(key: string) { ToLowerAscii(key) == key }

  /** A label that the reader gives back: its key is in lower case, and the reader's run is its whole value. */
  predicate Printable(e: Entry) { e.0 != "" && AllWord(e.0) && IsLowerCase(e.0) && IsRun(e.1) }

  ghost predicate AllPrintable(entries: seq<Entry>) { forall e | e in entries :: Printable(e) }

  lemma {:induction false} ValueEndAt(s: string, i: nat, v: string)
    requires At(s, i, v + "\"") && IsRun(v)
    ensures ValueEnd(s, i) == Some(i + |v|)
    decreases |v|
  {
    var text := v + "\"";
    assert s[i + 0] == text[0];
    if v != "" {
      var n := if v[0] == '\\' then 2 else 1;
      assert n == 2 ==> s[i + 1] == text[1] == v[1];
      assert text == v[..n] + (v[n..] + "\"");
      AtParts(s, i, v[..n], v[n..] + "\"");
      ValueEndAt(s, i + n, v[n..]);
    }
  }

  lemma LabelReads(s: string, i: nat, e: Entry)
    requires Printable(e) && At(s, i, Rendered(e))
    ensures LabelAt(s, i) == Some(Found(e.0, e.1, i + |Rendered(e)|))
  {
    var text := Rendered(e);
    var w := i + |e.0|;
    var tail := e.1 + "\"";
    assert text == e.0 + ("=\"" + tail);
    AtParts(s, i, e.0, "=\"" + tail);
    AtParts(s, w, "=\"", tail);
    AtParts(s, w + 2, e.1, "\"");
    assert s[w + 0] == "=\""[0] && s[w + 1] == "=\""[1];
    hide At, ValueEnd, Rendered;
    KeyEnds(s, i, e.0);
    ValueEndAt(s, w + 2, e.1);
    AtIsSlice(s, i, e.0);
    AtIsSlice(s, w + 2, e.1);
  }

  lemma KeyEnds(s: string, i: nat, key: string)
    requires At(s, i, key) && AllWord(key) && i + |key| < |s| && s[i + |key|] == '='
    ensures WordEnd(s, i) == i + |key|
  {
    forall k | i <= k < i + |key| ensures IsWord(s[k]) { assert s[i + (k - i)] == key[k - i]; }
    WordEndAt(s, i, i + |key|);
  }

  lemma AtIsSlice(s: string, i: nat, part: string)
    requires At(s, i, part)
    ensures i + |part| <= |s| && s[i..i + |part|] == part
  {}

  lemma CommaSkipped(s: string, i: nat, labels: map<string, string>)
    requires i < |s| && s[i] == ','
    ensures Scan(s, i, labels) == Scan(s, i + 1, labels)
  {
    assert WordEnd(s, i) == i && LabelAt(s, i) == None;
  }

  lemma LastLabel(s: string, i: nat, entries: seq<Entry>, labels: map<string, string>)
    requires |entries| == 1 && Printable(entries[0]) && At(s, i, LabelBlock(entries)) &&
      i + |LabelBlock(entries)| == |s|
    ensures Scan(s, i, labels) == labels[entries[0].0 := entries[0].1]
  {
    LabelBlockCons(entries);
    assert LabelBlock(entries) == Rendered(entries[0]);
    LabelReads(s, i, entries[0]);
  }

  /** The first of several labels is read, and its comma skipped. */
  lemma FirstLabel(s: string, i: nat, entries: seq<Entry>, labels: map<string, string>) returns (next: nat)
    requires |entries| > 1 && Printable(entries[0]) && At(s, i, LabelBlock(entries)) && i + |LabelBlock(entries)| == |s|
    ensures next <= |s| && At(s, next, LabelBlock(entries[1..])) && next + |LabelBlock(entries[1..])| == |s|
    ensures Scan(s, i, labels) == Scan(s, next, labels[entries[0].0 := entries[0].1])
  {
    hide At, LabelBlock, Rendered, LabelAt;
    next := BlockParts(s, i, entries);
    LabelReads(s, i, entries[0]);
    CommaSkipped(s, next - 1, labels[entries[0].0 := entries[0].1]);
  }

  lemma {:induction false} BlockReads(s: string, i: nat, entries: seq<Entry>, labels: map<string, string>)
    requires AllPrintable(entries) && At(s, i, LabelBlock(entries)) && i + |LabelBlock(entries)| == |s|
    ensures Scan(s, i, labels) == Fill(labels, entries)
    decreases |entries|
  {
    if |entries| == 1 {
      assert Printable(entries[0]);
      LastLabel(s, i, entries, labels);
    } else if entries != [] {
      assert Printable(entries[0]);
      var next := FirstLabel(s, i, entries, labels);
      hide At, Scan, LabelBlock, Printable;
      BlockReads(s, next, entries[1..], labels[entries[0].0 := entries[0].1]);
    }
  }

  lemma {:induction false} BlockShape(entries: seq<Entry>)
    requires entries != []
    ensures LabelBlock(entries) != "" && LabelBlock(entries)[|LabelBlock(entries)| - 1] == '"'
    decreases |entries|
  {
    var text := Rendered(entries[0]);
    LabelBlockCons(entries);
    assert text[|text| - 1] == '"';
    if |entries| > 1 { BlockShape(entries[1..]); }
  }

  lemma OneLineAppend(a: string, b: string)
    ensures IsOneLine(a + b) <==> IsOneLine(a) && IsOneLine(b)
  {
    if IsOneLine(a + b) {
      forall k | 0 <= k < |a| ensures !IsLineBreak(a[k]) { assert (a + b)[k] == a[k]; }
      forall k | 0 <= k < |b| ensures !IsLineBreak(b[k]) { assert (a + b)[|a| + k] == b[k]; }
    }
  }

  lemma RenderedLines(e: Entry)
    requires AllWord(e.0)
    ensures IsOneLine(Rendered(e)) <==> IsOneLine(e.1)
  {
    assert IsOneLine(e.0) by { forall k | 0 <= k < |e.0| ensures !IsLineBreak(e.0[k]) { assert IsWord(e.0[k]); } }
    assert IsOneLine("=\"") && IsOneLine("\"");
    assert Rendered(e) == e.0 + "=\"" + e.1 + "\"";
    hide IsOneLine;
    OneLineAppend(e.0 + "=\"" + e.1, "\"");
    OneLineAppend(e.0 + "=\"", e.1);
    OneLineAppend(e.0, "=\"");
  }

  /** A block is on one line when all values are. */
  lemma {:induction false} BlockLines(entries: seq<Entry>)
    requires AllNamed(entries)
    ensures IsOneLine(LabelBlock(entries)) <==> forall e | e in entries :: IsOneLine(e.1)
    decreases |entries|
  {
    if entries != [] {
      var e, rest := entries[0], entries[1..];
      assert forall x :: x in entries <==> x == e || x in rest;
      assert IsOneLine(",") && IsOneLine("");
      hide IsOneLine;
      LabelBlockCons(entries);
      RenderedLines(e);
      BlockLines(rest);
      OneLineAppend(Rendered(e), if |entries| == 1 then "" else "," + LabelBlock(rest));
      OneLineAppend(",", LabelBlock(rest));
    }
  }

  /** The braced shape is recognised just when it is on one line. */
  lemma BracedName(metric: string, block: string)
    requires '{' !in metric && block != ""
    ensures Braced(metric + "{" + block + "}") == if IsOneLine(block) then Some((metric, block)) else None
  {
    var name := metric + "{" + block + "}";
    var b := |metric|;
    assert name[b] == '{' && forall k | 0 <= k < b :: name[k] == metric[k];
    assert FindFrom(name, 0, '{') == b;
    assert forall k | 0 <= k < |block| :: name[b + 1 + k] == block[k];
    assert name[..b] == metric && name[b + 1..|name| - 1] == block;
    if IsOneLine(block) {
      forall k | b < k < |name| - 1 ensures !IsLineBreak(name[k]) { assert name[k] == block[k - b - 1]; }
    }
  }

  /** A value ends at the first quote that no backslash escapes; a backslash before a line break, or at the end, is none
      that a value can hold. */
  lemma ValueEndIff(s: string, i: nat, e: nat)
    requires i <= |s|
    ensures ValueEnd(s, i) == Some(e) <==> i <= e < |s| && s[e] == '"' && IsRun(s[i..e])
  {
    if ValueEnd(s, i) == Some(e) {
      ValueIsRun(s, i);
      EndsAtQuote(s, i);
    }
    if i <= e < |s| && s[e] == '"' && IsRun(s[i..e]) {
      var v := s[i..e];
      assert forall k | 0 <= k < |v + "\""| :: s[i + k] == (v + "\"")[k];
      ValueEndAt(s, i, v);
    }
  }

  lemma {:induction false} EndsAtQuote(s: string, i: nat)
    requires i <= |s| && ValueEnd(s, i).Some?
    ensures s[ValueEnd(s, i).value] == '"'
    decreases |s| - i
  {
    if s[i] != '"' { EndsAtQuote(s, if s[i] == '\\' then i + 2 else i + 1); }
  }

  lemma {:induction false} ValueIsRun(s: string, i: nat)
    requires i <= |s| && ValueEnd(s, i).Some?
    ensures IsRun(s[i..ValueEnd(s, i).value])
    decreases |s| - i
  {
    var e := ValueEnd(s, i).value;
    if i < e {
      var n := if s[i] == '\\' then 2 else 1;
      ValueIsRun(s, i + n);
      assert s[i..e][n..] == s[i + n..e];
    }
  }

  lemma LowerIsLower(key: string)
    ensures IsLowerCase(ToLowerAscii(key))
  {
    var low := ToLowerAscii(key);
    assert ToLowerAscii(low) == low;
  }

  ghost predicate AreRead(labels: map<string, string>) {
    forall k | k in labels :: IsLowerCase(k) && IsRun(labels[k])
  }

  /** Whatever is read has keys in lower case, and runs for values. */
  lemma {:induction false} ScanReads(s: string, i: nat, labels: map<string, string>)
    requires i <= |s| && AreRead(labels)
    ensures AreRead(Scan(s, i, labels))
    decreases |s| - i
  {
    if i < |s| {
      hide IsRun, ToLowerAscii;
      var found := LabelAt(s, i);
      if found.Some? {
        var w := WordEnd(s, i);
        ValueIsRun(s, w + 2);
        LowerIsLower(found.value.key);
        ScanReads(s, found.value.end, labels[ToLowerAscii(found.value.key) := found.value.value]);
      } else {
        ScanReads(s, i + 1, labels);
      }
    }
  }

  lemma LabelsAreRead(name: string)
    ensures AreRead(Parsed(name).labels)
  {
    hide Scan, AreRead;
    NothingIsRead();
    ScanReads(name, 0, map[]);
    if Braced(name).Some? { ScanReads(Braced(name).value.1, 0, map[]); }
  }

  lemma NothingIsRead()
    ensures AreRead(map[])
  {}

  /** The condition of the round trip. */
  ghost predicate ReadsBack(metric: string, entries: seq<Entry>) {
    && (forall e | e in entries :: IsLowerCase(e.0) && IsRun(e.1))
    && (metric != "" ==> forall e | e in entries :: IsOneLine(e.1))
  }

  lemma BareName(block: string)
    requires block != "" && block[|block| - 1] == '"'
    ensures Braced(block) == None
  {}

  lemma PrintedReads(metric: string, labels: map<string, string>, entries: seq<Entry>)
    requires EntriesOf(labels, entries) && entries != [] && AllNamed(entries)
    requires '{' !in metric && ReadsBack(metric, entries)
    ensures Parsed(SeriesName(metric, entries)) == SeriesLabels(metric, labels)
  {
    var block := LabelBlock(entries);
    assert entries[0] in entries && entries[0].0 in labels;
    assert At(block, 0, block);
    assert forall e | e in entries :: Printable(e);
    hide LabelBlock, IsOneLine, Scan, Braced, At, IsRun;
    BlockShape(entries);
    BlockReads(block, 0, entries, map[]);
    FillGivesBack(labels, entries);
    BlockLines(entries);
    BracedName(metric, block);
    BareName(block);
  }

  /** Main theorem: for every labelled series, reading its printed name gives back its metric name, or none, and its
      whole label record, if and only if the keys are in lower case, the values are runs, and, where there is a metric
      name, on one line. */
  lemma NameRoundTrips(metric: string, labels: map<string, string>, entries: seq<Entry>)
    requires EntriesOf(labels, entries) && entries != [] && AllNamed(entries)
    requires '{' !in metric
    ensures Parsed(SeriesName(metric, entries)) == SeriesLabels(metric, labels) <==> ReadsBack(metric, entries)
  {
    var block := LabelBlock(entries);
    hide LabelBlock, IsOneLine, Scan, Braced, At, IsRun, AllNamed, IsLowerCase;
    if ReadsBack(metric, entries) {
      PrintedReads(metric, labels, entries);
    } else {
      LabelsAreRead(SeriesName(metric, entries));
      BlockShape(entries);
      BlockLines(entries);
      BracedName(metric, block);
      assert |metric + "{" + block + "}"| > |metric|;
      assert forall e | e in entries :: e.0 in labels && labels[e.0] == e.1;
    }
  }

  lemma {:induction false} NoQuoteNoLabels(s: string, i: nat, labels: map<string, string>)
    requires i <= |s| && '"' !in s
    ensures Scan(s, i, labels) == labels
    decreases |s| - i
  {
    if i < |s| { NoQuoteNoLabels(s, i + 1, labels); }
  }

  /** A series without labels is printed as its metric name, or as `value`, and read back as that name alone. */
  lemma LabelFreeName(metric: string)
    requires '{' !in metric && '"' !in metric
    ensures SeriesName(metric, []) == if metric == "" then "value" else metric
    ensures Parsed(SeriesName(metric, [])) == SeriesLabels(if metric == "" then "value" else metric, map[])
  {
    var name := if metric == "" then "value" else metric;
    assert LabelBlock([]) == "";
    NoQuoteNoLabels(name, 0, map[]);
  }
}
