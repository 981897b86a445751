/** Scoping a LogQL query (backend/internal/tenancy/logql.go): text is injected into the leading stream
    selector, and the result is read back with a reader of stream selectors that knows about strings and comments. */
module LogQL {
  import opened Wrappers
  import opened Text
  import opened Alternation
  import opened PromQL
  import opened PromQLMeaning
  import opened Quoting
  import opened Braces
  import Regex

  function InjectedText(clusterIDs: seq<string>, namespaces: seq<string>): string {
    var extra := ["cluster=~\"" + AlternationOf(clusterIDs) + "\""] +
      if |namespaces| > 0 then ["namespace=~\"" + AlternationOf(namespaces) + "\""] else [];
    Join(extra, ", ")
  }

  function ScopeLogQL(query: string, clusterIDs: seq<string>, namespaces: seq<string>): Result<string> {
    if clusterIDs == [] then Err("no accessible clusters for this user")
    else match Leading(query)
      case None => Err("query does not start with a LogQL stream selector")
      case Some((block, tail)) =>
        var existing := Trim(block, IsUnicodeSpace);
        var injected := InjectedText(clusterIDs, namespaces);
        var combined := if existing != "" then existing + ", " + injected else injected;
        Ok("{" + combined + "}" + tail)
  }

  /** Which queries are refused, and how: all without a cluster, and those that do not start with braces. */
  lemma AcceptedIff(query: string, cs: seq<string>, ns: seq<string>)
    ensures ScopeLogQL(query, cs, ns).Ok? <==> cs != [] && exists pad, block, tail :: IsLed(query, pad, block, tail)
    ensures cs == [] ==> ScopeLogQL(query, cs, ns) == Err("no accessible clusters for this user")
    ensures cs != [] && ScopeLogQL(query, cs, ns).Err? ==>
      ScopeLogQL(query, cs, ns) == Err("query does not start with a LogQL stream selector")
  {
    hide Leading, InjectedText, IsLed;
    LeadingIff(query);
  }

  /** What becomes of an accepted query: blanks in front are dropped, the block is trimmed, the matchers are pasted
      behind it, and the rest stays as it is. */
  lemma AcceptedText(query: string, cs: seq<string>, ns: seq<string>, pad: string, block: string, tail: string)
    requires cs != [] && IsLed(query, pad, block, tail)
    ensures
      var existing, cluster := Trim(block, IsUnicodeSpace), "cluster=~\"" + AlternationOf(cs) + "\"";
      var pasted := if ns == [] then cluster else cluster + ", " + ("namespace=~\"" + AlternationOf(ns) + "\"");
      ScopeLogQL(query, cs, ns) == Ok("{" + (if existing == "" then "" else existing + ", ") + pasted + "}" + tail)
  {
    LedIsLeading(query, pad, block, tail);
    PastedText(cs, ns);
    hide Leading, IsLed, AlternationOf, Trim, InjectedText;
    PastedBehind(Trim(block, IsUnicodeSpace), InjectedText(cs, ns), tail);
  }

  lemma PastedText(cs: seq<string>, ns: seq<string>)
    ensures
      var cluster, namespace := "cluster=~\"" + AlternationOf(cs) + "\"", "namespace=~\"" + AlternationOf(ns) + "\"";
      InjectedText(cs, ns) == if ns == [] then cluster else cluster + ", " + namespace
  {
    var cluster, namespace := "cluster=~\"" + AlternationOf(cs) + "\"", "namespace=~\"" + AlternationOf(ns) + "\"";
    hide AlternationOf;
    assert [cluster] + [] == [cluster] && [cluster] + [namespace] == [cluster, namespace];
    assert [cluster, namespace][1..] == [namespace];
    assert Join([cluster], ", ") == cluster && Join([cluster, namespace], ", ") == cluster + ", " + namespace;
  }

  lemma PastedBehind(existing: string, pasted: string, tail: string)
    ensures
      var combined := if existing != "" then existing + ", " + pasted else pasted;
      "{" + combined + "}" + tail == "{" + (if existing == "" then "" else existing + ", ") + pasted + "}" + tail
  {
    if existing != "" {
      assert "{" + (existing + ", " + pasted) == "{" + (existing + ", ") + pasted;
    } else {
      assert "{" + "" + pasted == "{" + pasted;
    }
  }

  /* Reading a stream selector. */

  /** The pieces between the commas outside literals. */
  function Split(s: string, m: Mode): (r: seq<string>)
    ensures r != []
    decreases |s|
  {
    if s == "" then [""]
    else if m == Plain && s[0] == ',' then [""] + Split(s[1..], Plain)
    else
      var r := Split(s[1..], Next(m, s[0]));
      [[s[0]] + r[0]] + r[1..]
  }

  predicate IsNameChar(c: char) { IsWord(c) || c == '.' || c == ':' }

  predicate AllNameChars(s: string) { forall i | 0 <= i < |s| :: IsNameChar(s[i]) }

  function NameLength(s: string): (n: nat)
    ensures n <= |s| && AllNameChars(s[..n])
  {
    if s == "" || !IsNameChar(s[0]) then 0 else 1 + NameLength(s[1..])
  }

  function WithValue(kind: MatchType, name: string, text: string): Option<Matcher> {
    match Literal(TrimLeft(text, IsUnicodeSpace))
    case None => None
    case Some(value) => Some(Matcher(kind, name, value))
  }

  /** An operator and the text after it. */
  function Operator(s: string): Option<(MatchType, string)> {
    if "=~" <= s then Some((MatchRegexp, s[2..]))
    else if "!~" <= s then Some((MatchNotRegexp, s[2..]))
    else if "!=" <= s then Some((MatchNotEqual, s[2..]))
    else if "=" <= s then Some((MatchEqual, s[1..]))
    else None
  }

  /** A name, an operator, and the text after them. */
  function Operation(s: string): Option<(MatchType, string, string)> {
    var n := NameLength(s);
    if n == 0 then None
    else match Operator(TrimLeft(s[n..], IsUnicodeSpace))
      case None => None
      case Some((kind, text)) => Some((kind, s[..n], text))
  }

  function ParseMatcher(piece: string): Option<Matcher> {
    match Operation(Trim(piece, IsUnicodeSpace))
    case None => None
    case Some((kind, name, text)) => WithValue(kind, name, text)
  }

  /** All pieces have to parse. */
  function ParseAll(pieces: seq<string>): (r: Option<seq<Matcher>>)
    ensures r.Some? <==> forall i | 0 <= i < |pieces| :: ParseMatcher(pieces[i]).Some?
    ensures r.Some? ==>
      |r.value| == |pieces| && forall i | 0 <= i < |pieces| :: Some(r.value[i]) == ParseMatcher(pieces[i])
  {
    if forall i | 0 <= i < |pieces| :: ParseMatcher(pieces[i]).Some?
    then Some(seq(|pieces|, i requires 0 <= i < |pieces| => ParseMatcher(pieces[i]).value))
    else None
  }

  function ParseBlock(block: string): Option<seq<Matcher>> {
    var s := Trim(block, IsUnicodeSpace);
    if s == "" then Some([]) else ParseAll(Split(s, Plain))
  }

  /** The text without its comments. */
  function Strip(p: Place, s: string): string
    decreases |s|
  {
    if s == "" then ""
    else
      var rest := Strip(Move(p, s[0], true), s[1..]);
      if (p == Comment && s[0] != '\n') || (p == OUTSIDE && s[0] == '#') then rest else [s[0]] + rest
  }

  /** The matchers of a query's stream selector, and the rest of the query. */
  function ParseSelector(query: string): Option<(seq<Matcher>, string)> {
    match BracedBlock(query, true)
    case None => None
    case Some((block, tail)) =>
      match ParseBlock(Strip(OUTSIDE, block))
      case None => None
      case Some(ms) => Some((ms, tail))
  }

  /* Reading what was written. */

  lemma {:induction false} SplitAppend(a: string, b: string, m: Mode)
    requires Scan(m, a) == Plain
    ensures Split(a + "," + b, m) == Split(a, m) + Split(b, Plain)
    decreases |a|
  {
    var text := a + "," + b;
    if a == "" {
      assert text[1..] == b;
    } else {
      assert text[0] == a[0] && text[1..] == a[1..] + "," + b;
      var m' := if m == Plain && a[0] == ',' then Plain else Next(m, a[0]);
      assert Scan(m', a[1..]) == Plain;
      hide Split, Scan, Prefixed;
      SplitUnfolds(a, m);
      SplitUnfolds(text, m);
      SplitAppend(a[1..], b, m');
      PrefixedAppend(a[0], Split(a[1..], m'), Split(b, Plain));
      CutAppend(Split(a[1..], m'), Split(b, Plain));
    }
  }

  lemma PrefixedAppend(c: char, x: seq<string>, y: seq<string>)
    requires x != []
    ensures Prefixed(c, x + y) == Prefixed(c, x) + y
  {}

  lemma CutAppend(x: seq<string>, y: seq<string>)
    ensures [""] + (x + y) == [""] + x + y
  {}

  /** Inside a literal nothing splits. */
  lemma {:induction false} SplitInside(pattern: string)
    requires Free(pattern, "\"\n\\")
    ensures Split(pattern + "\"", InString) == [pattern + "\""]
  {
    var s := pattern + "\"";
    if pattern == "" {
      assert s == "\"" && s[1..] == "" && Split("", Plain) == [""];
      assert [s[0]] + "" == s && [s] + [] == [s];
    } else {
      assert s[1..] == pattern[1..] + "\"";
      SplitInside(pattern[1..]);
      assert [s[0]] + s[1..] == s;
    }
  }

  lemma {:induction false} SplitPrefix(a: string, b: string)
    requires Free(a, ",\"`\\") && Split(b, Plain) == [b]
    ensures Split(a + b, Plain) == [a + b]
  {
    if a == "" {
      assert a + b == b;
    } else {
      var s := a + b;
      assert s[1..] == a[1..] + b;
      SplitPrefix(a[1..], b);
      assert [s[0]] + s[1..] == s;
    }
  }

  lemma ParseAllAppend(a: seq<string>, b: seq<string>)
    requires ParseAll(a).Some? && ParseAll(b).Some?
    ensures ParseAll(a + b) == Some(ParseAll(a).value + ParseAll(b).value)
  {
    hide ParseMatcher;
    forall i | 0 <= i < |a + b| ensures Some((ParseAll(a).value + ParseAll(b).value)[i]) == ParseMatcher((a + b)[i]) {
      if i >= |a| { assert (a + b)[i] == b[i - |a|]; }
    }
    assert ParseAll(a + b).value == ParseAll(a).value + ParseAll(b).value;
  }

  /** `name=~"pattern"`, spaced or not, around its operator. */
  function RegexText(name: string, gap: string, pattern: string): string {
    name + (gap + ("=~" + (gap + ("\"" + (pattern + "\"")))))
  }

  lemma OperandReads(gap: string, pattern: string)
    requires gap in ["", " "] && Free(pattern, "\"\n\\")
    ensures Literal(TrimLeft(gap + ("\"" + (pattern + "\"")), IsUnicodeSpace)) == Some(pattern)
  {
    var quoted := "\"" + (pattern + "\"");
    TrimLeftOf(gap, quoted, IsUnicodeSpace);
    assert quoted[1..|quoted| - 1] == pattern;
    UnquoteIdentity(pattern);
  }

  lemma RegexOperator(operand: string)
    ensures Operator("=~" + operand) == Some((MatchRegexp, operand))
  {
    assert ("=~" + operand)[2..] == operand && ("=~" + operand)[..2] == "=~";
  }

  lemma RegexOperation(name: string, gap: string, operand: string)
    requires name != "" && AllNameChars(name) && gap in ["", " "]
    ensures Operation(name + (gap + ("=~" + operand))) == Some((MatchRegexp, name, operand))
  {
    var operation := "=~" + operand;
    var rest := gap + operation;
    var text := name + rest;
    assert !IsNameChar(rest[0]) by { assert rest[0] == if gap == "" then '=' else ' '; }
    assert text[..|name|] == name && text[|name|..] == rest;
    hide AllNameChars, TrimLeft, NameLength, Operator;
    NameLengthOf(name, rest);
    TrimLeftOf(gap, operation, IsUnicodeSpace);
    RegexOperator(operand);
  }

  lemma RegexTextReads(name: string, gap: string, pattern: string)
    requires name != "" && AllNameChars(name) && gap in ["", " "] && Free(pattern, "\"\n\\")
    ensures IsTrimmed(RegexText(name, gap, pattern), IsUnicodeSpace)
    ensures ParseMatcher(RegexText(name, gap, pattern)) == Some(Matcher(MatchRegexp, name, pattern))
  {
    var text := RegexText(name, gap, pattern);
    assert text[0] == name[0] && IsNameChar(name[0]) && text[|text| - 1] == '"';
    assert IsTrimmed(text, IsUnicodeSpace);
    hide AllNameChars, TrimLeft, Trim, Operation, Free, Literal;
    TrimTrimmed(text, IsUnicodeSpace);
    RegexOperation(name, gap, gap + ("\"" + (pattern + "\"")));
    OperandReads(gap, pattern);
  }

  lemma QuotedIsOnePiece(front: string, pattern: string)
    requires Free(front, ",\"`\\") && Free(pattern, "\"\n\\")
    ensures var text := front + ("\"" + (pattern + "\"")); Split(text, Plain) == [text] && Scan(Plain, text) == Plain
  {
    var quoted := "\"" + (pattern + "\"");
    assert quoted[1..] == pattern + "\"";
    SplitInside(pattern);
    assert Split(quoted, Plain) == [quoted] by { assert [quoted[0]] + quoted[1..] == quoted; }
    SplitPrefix(front, quoted);
    ScanAppend(Plain, front, quoted);
    ScanOrdinary(Plain, front);
    ScanLiteral(pattern);
  }

  lemma RegexTextIsOnePiece(lead: string, name: string, pattern: string)
    requires AllNameChars(name) && lead in ["", " "] && Free(pattern, "\"\n\\")
    ensures var text := lead + RegexText(name, "", pattern); Split(text, Plain) == [text] && Scan(Plain, text) == Plain
  {
    var front := lead + (name + "=~");
    forall i | 0 <= i < |front| ensures front[i] !in ",\"`\\" {
      if |lead| <= i < |lead| + |name| { assert front[i] == name[i - |lead|]; }
    }
    QuotedIsOnePiece(front, pattern);
    assert lead + RegexText(name, "", pattern) == front + ("\"" + (pattern + "\""));
  }

  lemma PaddedMatcher(lead: string, text: string)
    requires lead in ["", " "]
    ensures ParseMatcher(lead + text) == ParseMatcher(text)
  {
    assert lead + text + "" == lead + text;
    TrimIgnoresPadding(lead, text, "", IsUnicodeSpace);
    hide Trim;
  }

  /** One injected matcher, with or without the space that follows a comma. */
  lemma InjectedPiece(lead: string, name: string, pattern: string)
    requires name != "" && AllNameChars(name) && lead in ["", " "] && Free(pattern, "\"\n\\")
    ensures var text := lead + RegexText(name, "", pattern);
      && ParseAll(Split(text, Plain)) == Some([Matcher(MatchRegexp, name, pattern)]) && Scan(Plain, text) == Plain
  {
    var core := RegexText(name, "", pattern);
    hide RegexText, ParseMatcher, Split, Scan, AllNameChars, Free;
    RegexTextReads(name, "", pattern);
    RegexTextIsOnePiece(lead, name, pattern);
    PaddedMatcher(lead, core);
    assert ParseAll([lead + core]).value == [Matcher(MatchRegexp, name, pattern)];
  }

  lemma ScanLiteral(pattern: string)
    requires Free(pattern, "\"\n\\")
    ensures Scan(Plain, "\"" + (pattern + "\"")) == Plain
  {
    ScanInside(pattern);
    ScanAppend(InString, pattern, "\"");
    assert ("\"" + (pattern + "\""))[1..] == pattern + "\"";
    assert Scan(InString, "\"") == Plain by { assert Scan(Plain, "") == Plain; }
  }

  lemma {:induction false} ScanInside(s: string)
    requires Free(s, "\"\n\\")
    ensures Scan(InString, s) == InString
  {
    if s != "" { ScanInside(s[1..]); }
  }

  lemma {:induction false} NameLengthOf(name: string, rest: string)
    requires AllNameChars(name) && (rest == "" || !IsNameChar(rest[0]))
    ensures NameLength(name + rest) == |name|
  {
    if name == "" {
      assert name + rest == rest;
    } else {
      assert (name + rest)[1..] == name[1..] + rest;
      NameLengthOf(name[1..], rest);
    }
  }

  /** Two balanced comma-separated parts. */
  lemma PartsRead(a: string, b: string)
    requires Scan(Plain, a) == Plain && Scan(Plain, b) == Plain
    requires ParseAll(Split(a, Plain)).Some? && ParseAll(Split(b, Plain)).Some?
    ensures ParseAll(Split(a + "," + b, Plain)) ==
      Some(ParseAll(Split(a, Plain)).value + ParseAll(Split(b, Plain)).value)
    ensures Scan(Plain, a + "," + b) == Plain
  {
    assert Scan(Plain, "," + b) == Scan(Plain, b) by { assert ("," + b)[1..] == b; }
    hide Scan, Split, ParseMatcher, ParseAll;
    SplitAppend(a, b, Plain);
    ParseAllAppend(Split(a, Plain), Split(b, Plain));
    assert a + "," + b == a + ("," + b);
    ScanAppend(Plain, a, "," + b);
  }

  lemma TwoPartsRead(lead: string, first: string, second: string, m1: Matcher, m2: Matcher)
    requires ParseAll(Split(lead + first, Plain)) == Some([m1]) && Scan(Plain, lead + first) == Plain
    requires ParseAll(Split(" " + second, Plain)) == Some([m2]) && Scan(Plain, " " + second) == Plain
    ensures ParseAll(Split(lead + (first + ("," + (" " + second))), Plain)) == Some([m1] + [m2])
    ensures Scan(Plain, lead + (first + ("," + (" " + second)))) == Plain
  {
    PartsRead(lead + first, " " + second);
    assert lead + (first + ("," + (" " + second))) == lead + first + "," + (" " + second);
  }

  lemma InjectedTextShape(cs: seq<string>, ns: seq<string>)
    ensures InjectedText(cs, ns) ==
      RegexText("cluster", "", AlternationOf(cs)) +
      if ns == [] then "" else "," + (" " + RegexText("namespace", "", AlternationOf(ns)))
  {
    var first, second := "cluster=~\"" + AlternationOf(cs) + "\"", "namespace=~\"" + AlternationOf(ns) + "\"";
    assert first == RegexText("cluster", "", AlternationOf(cs));
    assert second == RegexText("namespace", "", AlternationOf(ns));
    assert Join([first], ", ") == first;
    assert [first, second][1..] == [second];
    assert Join([first, second], ", ") == first + ", " + second;
  }

  lemma SafePattern(names: seq<string>)
    requires forall n | n in names :: Safe(n)
    ensures Free(AlternationOf(names), "\"\n\\")
  {
    PatternSurvivesQuoting(names);
    UnquoteIdentity(AlternationOf(names));
  }

  lemma PatternHoldsNoBrace(names: seq<string>)
    requires forall n | n in names :: Safe(n)
    ensures Free(AlternationOf(names), "}")
  {
    PatternIsOrdinary(names, "");
    var p := AlternationOf(names);
    forall i | 0 <= i < |p| ensures p[i] !in "}" { assert p[i] !in "\"\n\\{}()"; }
  }

  lemma RegexTextEnds(name: string, pattern: string)
    requires name != "" && AllNameChars(name) && Free(pattern, "}")
    ensures var text := RegexText(name, "", pattern);
      text != "" && text[0] == name[0] && text[|text| - 1] == '"' && Free(text, "}")
  {
    var text := RegexText(name, "", pattern);
    assert text == name + ("=~\"" + (pattern + "\""));
    assert Free(name, "}") by { forall i | 0 <= i < |name| ensures name[i] !in "}" { assert IsNameChar(name[i]); } }
    FreeAppend(name, "=~\"" + (pattern + "\""), "}");
    FreeAppend("=~\"", pattern + "\"", "}");
    FreeAppend(pattern, "\"", "}");
  }

  lemma CommaEnds(first: string, second: string)
    requires first != "" && second != "" && Free(first, "}") && Free(second, "}")
    ensures var text := first + ("," + (" " + second));
      text[0] == first[0] && text[|text| - 1] == second[|second| - 1] && Free(text, "}")
  {
    FreeAppend(first, "," + (" " + second), "}");
    FreeAppend(",", " " + second, "}");
    FreeAppend(" ", second, "}");
  }

  /** The two injected pieces, and how they read with or without a leading space. */
  lemma InjectedParts(lead: string, cs: seq<string>, ns: seq<string>) returns (first: string, second: string)
    requires (forall n | n in cs :: Safe(n)) && (forall n | n in ns :: Safe(n)) && lead in ["", " "]
    ensures InjectedText(cs, ns) == if ns == [] then first else first + ("," + (" " + second))
    ensures ParseAll(Split(lead + first, Plain)) == Some([Matcher(MatchRegexp, "cluster", AlternationOf(cs))])
    ensures ParseAll(Split(" " + second, Plain)) == Some([Matcher(MatchRegexp, "namespace", AlternationOf(ns))])
    ensures Scan(Plain, lead + first) == Plain && Scan(Plain, " " + second) == Plain
  {
    var p, q := AlternationOf(cs), AlternationOf(ns);
    assert AllNameChars("cluster") && AllNameChars("namespace");
    hide AlternationOf, RegexText, InjectedText, ParseAll, Split, Scan, Safe, Free, AllNameChars;
    first, second := RegexText("cluster", "", p), RegexText("namespace", "", q);
    assert first + "" == first;
    InjectedTextShape(cs, ns);
    SafePattern(cs);
    SafePattern(ns);
    InjectedPiece(lead, "cluster", p);
    InjectedPiece(" ", "namespace", q);
  }

  lemma InjectedReads(lead: string, cs: seq<string>, ns: seq<string>)
    requires cs != [] && forall n | n in cs + ns :: Safe(n)
    requires lead in ["", " "]
    ensures ParseAll(Split(lead + InjectedText(cs, ns), Plain)) == Some(Injected(cs, ns))
    ensures Scan(Plain, lead + InjectedText(cs, ns)) == Plain
  {
    assert (forall n | n in cs :: n in cs + ns) && (forall n | n in ns :: n in cs + ns);
    hide AlternationOf, InjectedText, ParseAll, Split, Scan, Safe;
    var first, second := InjectedParts(lead, cs, ns);
    var m1, m2 :=
      Matcher(MatchRegexp, "cluster", AlternationOf(cs)), Matcher(MatchRegexp, "namespace", AlternationOf(ns));
    if ns == [] {
      assert [m1] + [] == [m1];
    } else {
      TwoPartsRead(lead, first, second, m1, m2);
    }
  }

  lemma EndsAreTrimmed(text: string)
    requires text != "" && text[0] == 'c' && text[|text| - 1] == '"'
    ensures IsTrimmed(text, IsUnicodeSpace)
  {}

  lemma InjectedEnds(cs: seq<string>, ns: seq<string>)
    requires cs != [] && forall n | n in cs + ns :: Safe(n)
    ensures IsTrimmed(InjectedText(cs, ns), IsUnicodeSpace) && InjectedText(cs, ns) != ""
    ensures Free(InjectedText(cs, ns), "}")
  {
    assert (forall n | n in cs :: n in cs + ns) && (forall n | n in ns :: n in cs + ns);
    assert AllNameChars("cluster") && AllNameChars("namespace");
    hide InjectedText, RegexText, AlternationOf, Safe, Free, AllNameChars;
    var first, second := RegexText("cluster", "", AlternationOf(cs)), RegexText("namespace", "", AlternationOf(ns));
    InjectedTextShape(cs, ns);
    PatternHoldsNoBrace(cs);
    PatternHoldsNoBrace(ns);
    RegexTextEnds("cluster", AlternationOf(cs));
    RegexTextEnds("namespace", AlternationOf(ns));
    CommaEnds(first, second);
    assert first + "" == first;
    EndsAreTrimmed(InjectedText(cs, ns));
  }

  function Combined(block: string, cs: seq<string>, ns: seq<string>): string {
    var existing := Trim(block, IsUnicodeSpace);
    if existing != "" then existing + ", " + InjectedText(cs, ns) else InjectedText(cs, ns)
  }

  lemma CombinedEnds(existing: string, injected: string)
    requires existing != "" && injected != "" && !IsUnicodeSpace(existing[0]) &&
      !IsUnicodeSpace(injected[|injected| - 1])
    ensures existing + ", " + injected == existing + "," + (" " + injected)
    ensures IsTrimmed(existing + ", " + injected, IsUnicodeSpace)
  {
    var combined := existing + ", " + injected;
    assert combined[0] == existing[0] && combined[|combined| - 1] == injected[|injected| - 1];
  }

  lemma CombinedShape(block: string, cs: seq<string>, ns: seq<string>)
    requires cs != [] && forall n | n in cs + ns :: Safe(n)
    ensures var existing := Trim(block, IsUnicodeSpace);
      Combined(block, cs, ns) ==
        if existing == "" then InjectedText(cs, ns) else existing + "," + (" " + InjectedText(cs, ns))
    ensures Trim(Combined(block, cs, ns), IsUnicodeSpace) == Combined(block, cs, ns) != ""
  {
    var existing := Trim(block, IsUnicodeSpace);
    InjectedEnds(cs, ns);
    var before, after := TrimParts(block, IsUnicodeSpace);
    if existing != "" { CombinedEnds(existing, InjectedText(cs, ns)); }
    TrimTrimmed(Combined(block, cs, ns), IsUnicodeSpace);
  }

  /* Comments. */

  lemma {:induction false} StripAppend(p: Place, a: string, b: string)
    ensures Strip(p, a + b) == Strip(p, a) + Strip(PlaceAfter(p, a, true), b)
    decreases |a|
  {
    if a == "" {
      assert a + b == b;
    } else {
      assert (a + b)[1..] == a[1..] + b;
      StripAppend(Move(p, a[0], true), a[1..], b);
    }
  }

  function ModeAt(p: Place): Mode { match p case Comment => Plain case Code(m) => m }

  /** Without its comments a text ends in the same literal, or in none. */
  lemma {:induction false} ScanStripped(p: Place, s: string)
    ensures Scan(ModeAt(p), Strip(p, s)) == ModeAt(PlaceAfter(p, s, true))
    decreases |s|
  {
    if s != "" { ScanStripped(Move(p, s[0], true), s[1..]); }
  }

  /** Text with neither quotes nor comments, and the inside of a quoted literal, are left alone. */
  lemma {:induction false} StripNothing(m: Mode, s: string)
    requires (m == Plain && Free(s, "\"`#")) || (m == InString && Free(s, "\"\\"))
    ensures Strip(Code(m), s) == s && PlaceAfter(Code(m), s, true) == Code(m)
    decreases |s|
  {
    if s != "" { StripNothing(m, s[1..]); }
  }

  /** Nothing but a line feed ends a comment. */
  lemma {:induction false} CommentGoesOn(s: string)
    requires Free(s, "\n")
    ensures Strip(Comment, s) == "" && PlaceAfter(Comment, s, true) == Comment
    decreases |s|
  {
    if s != "" { CommentGoesOn(s[1..]); }
  }

  /** Space never starts a comment, and never ends a literal. */
  lemma {:induction false} SpacesKeepPlace(p: Place, s: string)
    requires All(s, IsUnicodeSpace)
    ensures p == OUTSIDE ==> PlaceAfter(p, s, true) == p && Strip(p, s) == s
    ensures p == Comment ==>
      PlaceAfter(p, s, true) == OUTSIDE || (PlaceAfter(p, s, true) == Comment && Strip(p, s) == "")
    ensures p.Code? && p != OUTSIDE ==>
      Strip(p, s) == s &&
        (PlaceAfter(p, s, true) == p || (p.mode == AfterBackslash && PlaceAfter(p, s, true) == Code(InString)))
    decreases |s|
  {
    if s != "" { SpacesKeepPlace(Move(p, s[0], true), s[1..]); }
  }

  /** Where a block ends, by where it ends without the space around it. */
  lemma PlaceOfTrimmed(block: string)
    ensures var p, t := PlaceAfter(OUTSIDE, block, true), PlaceAfter(OUTSIDE, Trim(block, IsUnicodeSpace), true);
      && (t == OUTSIDE ==> p == OUTSIDE)
      && (p == Comment ==> t == Comment)
      && (t.Code? && t != OUTSIDE ==> p == t || (t.mode == AfterBackslash && p == Code(InString)))
  {
    var t := Trim(block, IsUnicodeSpace);
    var before, after := TrimParts(block, IsUnicodeSpace);
    PlaceAppend(OUTSIDE, before + t, after, true);
    PlaceAppend(OUTSIDE, before, t, true);
    SpacesKeepPlace(OUTSIDE, before);
    SpacesKeepPlace(PlaceAfter(OUTSIDE, t, true), after);
  }

  /** The block without its comments, by what is left of its trimmed text. */
  lemma StripTrimmed(block: string) returns (before: string, after: string)
    ensures var t := Trim(block, IsUnicodeSpace);
      Strip(OUTSIDE, block) == before + Strip(OUTSIDE, t) + Strip(PlaceAfter(OUTSIDE, t, true), after)
    ensures All(before, IsUnicodeSpace) && All(after, IsUnicodeSpace)
    ensures PlaceAfter(OUTSIDE, block, true) ==
      PlaceAfter(PlaceAfter(OUTSIDE, Trim(block, IsUnicodeSpace), true), after, true)
  {
    var t := Trim(block, IsUnicodeSpace);
    before, after := TrimParts(block, IsUnicodeSpace);
    PlaceAppend(OUTSIDE, before + t, after, true);
    PlaceAppend(OUTSIDE, before, t, true);
    SpacesKeepPlace(OUTSIDE, before);
    StripAppend(OUTSIDE, before + t, after);
    StripAppend(OUTSIDE, before, t);
  }

  lemma LiteralIsKept(p: string)
    requires Free(p, "\"\\")
    ensures var text := "\"" + (p + "\""); Strip(OUTSIDE, text) == text && PlaceAfter(OUTSIDE, text, true) == OUTSIDE
  {
    StripNothing(InString, p);
    assert Strip(Code(InString), "\"") == "\"" && PlaceAfter(Code(InString), "\"", true) == OUTSIDE;
    assert Strip(OUTSIDE, "\"") == "\"" && PlaceAfter(OUTSIDE, "\"", true) == Code(InString);
    StripAppend(Code(InString), p, "\"");
    PlaceAppend(Code(InString), p, "\"", true);
    StripAppend(OUTSIDE, "\"", p + "\"");
    PlaceAppend(OUTSIDE, "\"", p + "\"", true);
  }

  lemma MatcherIsKept(lead: string, name: string, p: string)
    requires Free(lead, "\"`#") && AllNameChars(name) && Free(p, "\"\\")
    ensures var text := lead + RegexText(name, "", p);
      Strip(OUTSIDE, text) == text && PlaceAfter(OUTSIDE, text, true) == OUTSIDE
  {
    var front := lead + (name + "=~");
    assert Free(name, "\"`#") by {
      forall i | 0 <= i < |name| ensures name[i] !in "\"`#" { assert IsNameChar(name[i]); }
    }
    FreeAppend(lead, name + "=~", "\"`#");
    FreeAppend(name, "=~", "\"`#");
    assert lead + RegexText(name, "", p) == front + ("\"" + (p + "\""));
    StripNothing(Plain, front);
    LiteralIsKept(p);
    StripAppend(OUTSIDE, front, "\"" + (p + "\""));
    PlaceAppend(OUTSIDE, front, "\"" + (p + "\""), true);
  }

  lemma SafeIsInString(names: seq<string>)
    requires forall n | n in names :: Safe(n)
    ensures Free(AlternationOf(names), "\"\\")
  {
    SafePattern(names);
    var p := AlternationOf(names);
    forall i | 0 <= i < |p| ensures p[i] !in "\"\\" { assert p[i] !in "\"\n\\"; }
  }

  lemma KeptAppend(a: string, b: string)
    requires Strip(OUTSIDE, a) == a && PlaceAfter(OUTSIDE, a, true) == OUTSIDE
    requires Strip(OUTSIDE, b) == b && PlaceAfter(OUTSIDE, b, true) == OUTSIDE
    ensures Strip(OUTSIDE, a + b) == a + b && PlaceAfter(OUTSIDE, a + b, true) == OUTSIDE
  {
    StripAppend(OUTSIDE, a, b);
    PlaceAppend(OUTSIDE, a, b, true);
  }

  lemma LedText(lead: string, first: string, second: string)
    ensures lead + (first + ("," + (" " + second))) == (lead + first) + (", " + second)
  {}

  /** The injected text holds no comment. */
  lemma InjectionIsKept(lead: string, cs: seq<string>, ns: seq<string>)
    requires lead in ["", ", "] && (forall n | n in cs :: Safe(n)) && forall n | n in ns :: Safe(n)
    ensures var text := lead + InjectedText(cs, ns);
      Strip(OUTSIDE, text) == text && PlaceAfter(OUTSIDE, text, true) == OUTSIDE
  {
    var p, q := AlternationOf(cs), AlternationOf(ns);
    assert AllNameChars("cluster") && AllNameChars("namespace") && Free(lead, "\"`#");
    hide Strip, PlaceAfter, Safe, InjectedText, RegexText, AlternationOf;
    SafeIsInString(cs);
    SafeIsInString(ns);
    InjectedTextShape(cs, ns);
    MatcherIsKept(lead, "cluster", p);
    MatcherIsKept(", ", "namespace", q);
    KeptAppend(lead + RegexText("cluster", "", p), ", " + RegexText("namespace", "", q));
    LedText(lead, RegexText("cluster", "", p), RegexText("namespace", "", q));
    assert RegexText("cluster", "", p) + "" == RegexText("cluster", "", p);
  }

  lemma BlankIsSpace(s: string)
    requires Trim(s, IsUnicodeSpace) == ""
    ensures All(s, IsUnicodeSpace)
  {
    var before, after := TrimParts(s, IsUnicodeSpace);
    assert s == before + after;
  }

  /** Text that ends outside comments with a character that is no space keeps that character. */
  lemma LastIsKept(existing: string)
    requires existing != "" && !IsUnicodeSpace(existing[|existing| - 1]) &&
      PlaceAfter(OUTSIDE, existing, true) == OUTSIDE
    ensures Trim(Strip(OUTSIDE, existing), IsUnicodeSpace) != ""
  {
    var n := |existing| - 1;
    var front, last := existing[..n], existing[n..];
    assert existing == front + last && last[1..] == "";
    var p := PlaceAfter(OUTSIDE, front, true);
    PlaceAppend(OUTSIDE, front, last, true);
    StripAppend(OUTSIDE, front, last);
    assert PlaceAfter(p, last, true) == Move(p, last[0], true) && Strip(p, last) == last;
    var e := Strip(OUTSIDE, existing);
    assert e[|e| - 1] == existing[n];
    if Trim(e, IsUnicodeSpace) == "" { BlankIsSpace(e); }
  }

  lemma LongerIsNotBlank(s: string, more: string)
    requires Trim(s, IsUnicodeSpace) != ""
    ensures Trim(s + more, IsUnicodeSpace) != ""
  {
    var before, after := TrimParts(s, IsUnicodeSpace);
    assert (s + more)[|before|] == Trim(s, IsUnicodeSpace)[0];
    if Trim(s + more, IsUnicodeSpace) == "" { BlankIsSpace(s + more); }
  }

  /** Two blocks that read, joined by a comma. */
  lemma BlocksRead(a: string, b: string, ms: seq<Matcher>, more: seq<Matcher>)
    requires Trim(a, IsUnicodeSpace) != "" && ParseBlock(a) == Some(ms) && Scan(Plain, a) == Plain
    requires ParseAll(Split(b, Plain)) == Some(more) && Scan(Plain, b) == Plain
    ensures ParseBlock(a + ("," + b)) == Some(ms + more)
  {
    hide Split, Trim, ParseBlock, ParseAll, Scan;
    BlockIs(a);
    PartsRead(a, b);
    LongerIsNotBlank(a, "," + b);
    CommaBetween(a, b);
    BlockIs(a + ("," + b));
  }

  lemma CommaBetween(a: string, b: string)
    ensures a + "," + b == a + ("," + b)
  {}

  lemma CommaSpace(s: string)
    ensures ", " + s == "," + (" " + s)
  {}

  /** Existing text that ends outside literals and comments, with the injected text after it. */
  lemma ConjoinedReads(existing: string, ms: seq<Matcher>, cs: seq<string>, ns: seq<string>)
    requires cs != [] && forall n | n in cs + ns :: Safe(n)
    requires existing != "" && !IsUnicodeSpace(existing[|existing| - 1]) &&
      PlaceAfter(OUTSIDE, existing, true) == OUTSIDE
    requires ParseBlock(Strip(OUTSIDE, existing)) == Some(ms)
    ensures var text := existing + ("," + (" " + InjectedText(cs, ns)));
      ParseBlock(Strip(OUTSIDE, text)) == Some(ms + Injected(cs, ns)) && PlaceAfter(OUTSIDE, text, true) == OUTSIDE
  {
    var e, injected := Strip(OUTSIDE, existing), InjectedText(cs, ns);
    var pasted := "," + (" " + injected);
    assert (forall n | n in cs :: n in cs + ns) && (forall n | n in ns :: n in cs + ns);
    hide InjectedText, Injected, Split, Strip, PlaceAfter, ParseBlock, Safe, Trim;
    CommaSpace(injected);
    InjectionIsKept(", ", cs, ns);
    PlaceAppend(OUTSIDE, existing, pasted, true);
    StripAppend(OUTSIDE, existing, pasted);
    LastIsKept(existing);
    ScanStripped(OUTSIDE, existing);
    InjectedReads(" ", cs, ns);
    BlocksRead(e, " " + injected, ms, Injected(cs, ns));
  }

  lemma InjectedAloneReads(cs: seq<string>, ns: seq<string>)
    requires cs != [] && forall n | n in cs + ns :: Safe(n)
    ensures ParseBlock(Strip(OUTSIDE, InjectedText(cs, ns))) == Some(Injected(cs, ns))
    ensures PlaceAfter(OUTSIDE, InjectedText(cs, ns), true) == OUTSIDE
  {
    var injected := InjectedText(cs, ns);
    assert (forall n | n in cs :: n in cs + ns) && (forall n | n in ns :: n in cs + ns);
    assert "" + injected == injected;
    hide InjectedText, Injected, Split, Strip, PlaceAfter, Safe;
    InjectionIsKept("", cs, ns);
    InjectedReads("", cs, ns);
    InjectedEnds(cs, ns);
    TrimTrimmed(injected, IsUnicodeSpace);
  }

  /** A block reads as its trimmed text does. */
  lemma TrimmedReads(block: string)
    requires PlaceAfter(OUTSIDE, Trim(block, IsUnicodeSpace), true) == OUTSIDE
    ensures ParseBlock(Strip(OUTSIDE, block)) == ParseBlock(Strip(OUTSIDE, Trim(block, IsUnicodeSpace)))
  {
    hide Strip, PlaceAfter;
    var before, after := StripTrimmed(block);
    SpacesKeepPlace(OUTSIDE, after);
    TrimIgnoresPadding(before, Strip(OUTSIDE, Trim(block, IsUnicodeSpace)), after, IsUnicodeSpace);
  }

  lemma EmptyReads()
    ensures ParseBlock(Strip(OUTSIDE, "")) == Some([])
  {}

  lemma Regroup(a: string, b: string, c: string)
    ensures a + b + c == a + (b + c)
  {}

  /** The text the rewrite puts between the braces reads as the original matchers followed by the
      injected ones. */
  lemma CombinedReads(block: string, ms: seq<Matcher>, cs: seq<string>, ns: seq<string>)
    requires cs != [] && forall n | n in cs + ns :: Safe(n)
    requires ParseBlock(Strip(OUTSIDE, block)) == Some(ms)
    requires PlaceAfter(OUTSIDE, Trim(block, IsUnicodeSpace), true) == OUTSIDE
    ensures ParseBlock(Strip(OUTSIDE, Combined(block, cs, ns))) == Some(ms + Injected(cs, ns))
    ensures PlaceAfter(OUTSIDE, Combined(block, cs, ns), true) == OUTSIDE
  {
    var existing := Trim(block, IsUnicodeSpace);
    var before, after := TrimParts(block, IsUnicodeSpace);
    hide Strip, PlaceAfter, ParseBlock, InjectedText, Injected, Combined, Trim;
    CombinedShape(block, cs, ns);
    TrimmedReads(block);
    EmptyReads();
    if existing == "" {
      InjectedAloneReads(cs, ns);
      assert [] + Injected(cs, ns) == Injected(cs, ns);
    } else {
      ConjoinedReads(existing, ms, cs, ns);
      Regroup(existing, ",", " " + InjectedText(cs, ns));
    }
  }

  /** Space around a block belongs to its first and last piece, where it does not matter. */
  lemma BlockIs(s: string)
    requires Trim(s, IsUnicodeSpace) != ""
    ensures ParseBlock(s) == ParseAll(Split(s, Plain))
  {
    var t := Trim(s, IsUnicodeSpace);
    var before, after := TrimParts(s, IsUnicodeSpace);
    var middle := Split(t, Plain);
    PiecesPadded(before, t, after);
    var n := |middle|;
    var whole := Split(s, Plain);
    forall i | 0 <= i < n ensures ParseMatcher(whole[i]) == ParseMatcher(middle[i]) {
      TrimIgnoresPadding(if i == 0 then before else "", middle[i], if i == n - 1 then after else "", IsUnicodeSpace);
      assert (if i == 0 then before else "") + middle[i] + (if i == n - 1 then after else "") == whole[i];
    }
    hide ParseMatcher, Split, Trim;
    if ParseAll(whole).Some? || ParseAll(middle).Some? {
      assert ParseAll(whole).Some? && ParseAll(middle).Some?;
      assert ParseAll(whole).value == ParseAll(middle).value;
    }
  }

  lemma PiecesPadded(before: string, t: string, after: string)
    requires All(before, IsUnicodeSpace) && All(after, IsUnicodeSpace)
    ensures var middle, whole := Split(t, Plain), Split(before + t + after, Plain);
      && |whole| == |middle|
      && forall i | 0 <= i < |middle| ::
           whole[i] == (if i == 0 then before else "") + middle[i] + (if i == |middle| - 1 then after else "")
  {
    var m := Scan(Plain, before + t);
    SplitGlue(before + t, after, Plain);
    SplitGlue(before, t, Plain);
    ScanSpaces(Plain, before);
    SplitSpaces(before, Plain);
    SplitSpaces(after, m);
  }

  lemma {:induction false} SplitSpaces(s: string, m: Mode)
    requires All(s, IsUnicodeSpace)
    ensures Split(s, m) == [s]
    decreases |s|
  {
    if s != "" {
      SplitSpaces(s[1..], Next(m, s[0]));
      assert [s[0]] + s[1..] == s;
    }
  }

  function Prefixed(c: char, pieces: seq<string>): seq<string>
    requires pieces != []
  {
    [[c] + pieces[0]] + pieces[1..]
  }

  /** Two lists of pieces, the last of one and the first of the other being halves of one piece. */
  function Glued(x: seq<string>, y: seq<string>): (r: seq<string>)
    requires x != [] && y != []
    ensures r != []
  {
    x[..|x| - 1] + [x[|x| - 1] + y[0]] + y[1..]
  }

  lemma GluedAfter(x: seq<string>, y: seq<string>)
    requires x != [] && y != []
    ensures Glued([""] + x, y) == [""] + Glued(x, y)
  {
    assert ([""] + x)[..|x|] == [""] + x[..|x| - 1];
  }

  lemma GluedPrefix(c: char, x: seq<string>, y: seq<string>)
    requires x != [] && y != []
    ensures Glued(Prefixed(c, x), y) == Prefixed(c, Glued(x, y))
  {
    if |x| == 1 {
      assert [c] + x[0] + y[0] == [c] + (x[0] + y[0]);
    } else {
      assert Prefixed(c, x)[..|x| - 1] == [[c] + x[0]] + x[1..|x| - 1];
      assert Glued(x, y)[1..] == x[1..|x| - 1] + [x[|x| - 1] + y[0]] + y[1..];
    }
  }

  lemma GluedEmpty(y: seq<string>)
    requires y != []
    ensures Glued([""], y) == y
  {
    assert "" + y[0] == y[0];
  }

  lemma SplitUnfolds(s: string, m: Mode)
    requires s != ""
    ensures Split(s, m) ==
      if m == Plain && s[0] == ',' then [""] + Split(s[1..], Plain) else Prefixed(s[0], Split(s[1..], Next(m, s[0])))
  {}

  /** Splitting a text is splitting its two halves, with the pieces at the seam joined. */
  lemma {:induction false} SplitGlue(a: string, b: string, m: Mode)
    ensures Split(a + b, m) == Glued(Split(a, m), Split(b, Scan(m, a)))
    decreases |a|
  {
    if a == "" {
      assert a + b == b;
      GluedEmpty(Split(b, m));
    } else {
      var m' := if m == Plain && a[0] == ',' then Plain else Next(m, a[0]);
      assert (a + b)[1..] == a[1..] + b && Scan(m, a) == Scan(m', a[1..]);
      hide Split, Glued, Prefixed;
      SplitUnfolds(a, m);
      SplitUnfolds(a + b, m);
      SplitGlue(a[1..], b, m');
      GluedAfter(Split(a[1..], m'), Split(b, Scan(m', a[1..])));
      GluedPrefix(a[0], Split(a[1..], m'), Split(b, Scan(m', a[1..])));
    }
  }

  lemma CombinedHoldsNoBrace(block: string, cs: seq<string>, ns: seq<string>)
    requires cs != [] && forall n | n in cs + ns :: Safe(n)
    requires Free(block, "}")
    ensures Free(Combined(block, cs, ns), "}")
  {
    var existing := Trim(block, IsUnicodeSpace);
    var before, after := TrimParts(block, IsUnicodeSpace);
    InjectedEnds(cs, ns);
    FreeAppend(before + existing, after, "}");
    FreeAppend(before, existing, "}");
    FreeAppend(existing, ", " + InjectedText(cs, ns), "}");
    FreeAppend(", ", InjectedText(cs, ns), "}");
    assert existing + ", " + InjectedText(cs, ns) == existing + (", " + InjectedText(cs, ns));
  }

  /* What the rewrite makes of a well-formed query. */

  /** The text that the code keeps between the braces. */
  function Kept(query: string): string
    requires Leading(query).Some?
  {
    Trim(Leading(query).value.0, IsUnicodeSpace)
  }

  /** Where that text ends, for a reader. */
  function KeptEnd(query: string): Place
    requires Leading(query).Some?
  {
    PlaceAfter(OUTSIDE, Kept(query), true)
  }

  /** The output, and how a reader finds its braces. */
  lemma OutputBraces(query: string, cs: seq<string>, ns: seq<string>)
    requires cs != [] && (forall n | n in cs + ns :: Safe(n)) && Leading(query).Some?
    ensures ScopeLogQL(query, cs, ns).Ok?
    ensures var (block, tail) := Leading(query).value;
      BracedBlock(ScopeLogQL(query, cs, ns).value, true) == ReadOn(Combined(block, cs, ns), tail, true)
  {
    var (block, tail) := Leading(query).value;
    LeadingText(query);
    CombinedHoldsNoBrace(block, cs, ns);
    BracesRead(Combined(block, cs, ns), tail, true);
  }

  /** Main theorem: for every well-formed query in which the text that the code keeps ends outside literals and
      comments, and safe names, the rewritten query has the original matchers followed by the injected ones, and the
      same tail. */
  lemma ScopedSelectorReads(query: string, cs: seq<string>, ns: seq<string>)
    requires cs != [] && forall n | n in cs + ns :: Safe(n)
    requires ParseSelector(query).Some? && Leading(query).Some? && KeptEnd(query) == OUTSIDE
    ensures ScopeLogQL(query, cs, ns).Ok?
    ensures ParseSelector(ScopeLogQL(query, cs, ns).value) ==
      Some((ParseSelector(query).value.0 + Injected(cs, ns), ParseSelector(query).value.1))
  {
    var (block, tail) := Leading(query).value;
    LeadingRead(query, true);
    PlaceOfTrimmed(block);
    OutputBraces(query, cs, ns);
    CombinedReads(block, ParseSelector(query).value.0, cs, ns);
  }

  /** Read as matches on a stream's labels, the output selects the streams that the original selects and whose cluster
      and namespace are listed. */
  lemma ScopedSelectorPermits(query: string, cs: seq<string>, ns: seq<string>, labels: Labels, sem: Semantics)
    requires cs != [] && (forall n | n in cs + ns :: Safe(n)) && Regex.Honours(sem.regex)
    requires ParseSelector(query).Some? && Leading(query).Some? && KeptEnd(query) == OUTSIDE
    ensures ScopeLogQL(query, cs, ns).Ok? && ParseSelector(ScopeLogQL(query, cs, ns).value).Some?
    ensures AllHold(ParseSelector(ScopeLogQL(query, cs, ns).value).value.0, labels, sem)
      <==> AllHold(ParseSelector(query).value.0, labels, sem) && Permitted(labels, cs, ns)
  {
    ScopedSelectorReads(query, cs, ns);
    InjectedCharacterises(cs, ns, sem);
    var ms, extra := ParseSelector(query).value.0, Injected(cs, ns);
    assert AllHold(extra, labels, sem) <==> Permitted(labels, cs, ns);
    assert forall m :: m in ms + extra <==> m in ms || m in extra;
  }

  /* A comment at the end of the text that the code keeps. */

  lemma RegexTextFree(name: string, p: string, bad: string)
    requires AllNameChars(name) && Free(p, bad) && bad in ["\n", "`"]
    ensures Free(RegexText(name, "", p), bad)
  {
    assert RegexText(name, "", p) == name + ("=~\"" + (p + "\""));
    assert Free(name, bad) by { forall i | 0 <= i < |name| ensures name[i] !in bad { assert IsNameChar(name[i]); } }
    assert Free("=~\"", bad) && Free("\"", bad);
    hide Free, RegexText;
    FreeAppend(name, "=~\"" + (p + "\""), bad);
    FreeAppend("=~\"", p + "\"", bad);
    FreeAppend(p, "\"", bad);
  }

  lemma CommaFree(first: string, second: string, bad: string)
    requires Free(first, bad) && Free(second, bad) && bad in ["\n", "`"]
    ensures Free(first + ("," + (" " + second)), bad)
  {
    assert Free(",", bad) && Free(" ", bad);
    hide Free;
    FreeAppend(first, "," + (" " + second), bad);
    FreeAppend(",", " " + second, bad);
    FreeAppend(" ", second, bad);
  }

  lemma InjectedFree(cs: seq<string>, ns: seq<string>, bad: string)
    requires Free(AlternationOf(cs), bad) && Free(AlternationOf(ns), bad) && bad in ["\n", "`"]
    ensures Free(InjectedText(cs, ns), bad)
  {
    var first, second := RegexText("cluster", "", AlternationOf(cs)), RegexText("namespace", "", AlternationOf(ns));
    assert AllNameChars("cluster") && AllNameChars("namespace");
    hide Free, AlternationOf, RegexText, InjectedText, AllNameChars;
    InjectedTextShape(cs, ns);
    RegexTextFree("cluster", AlternationOf(cs), bad);
    RegexTextFree("namespace", AlternationOf(ns), bad);
    CommaFree(first, second, bad);
    assert first + "" == first;
  }

  lemma PatternFree(names: seq<string>, bad: string)
    requires (forall n | n in names :: Safe(n) && Free(n, "`")) || (bad == "\n" && forall n | n in names :: Safe(n))
    requires bad in ["\n", "`"]
    ensures Free(AlternationOf(names), bad)
  {
    var p := AlternationOf(names);
    if bad == "\n" {
      SafePattern(names);
      forall i | 0 <= i < |p| ensures p[i] !in bad { assert p[i] !in "\"\n\\"; }
    } else {
      PatternIsOrdinary(names, "`");
      forall i | 0 <= i < |p| ensures p[i] !in bad { assert p[i] !in "\"\n\\{}()`"; }
    }
  }

  lemma InjectionHasNoLineFeed(cs: seq<string>, ns: seq<string>)
    requires cs != [] && (forall n | n in cs + ns :: Safe(n))
    ensures Free(InjectedText(cs, ns), "\n")
  {
    assert (forall n | n in cs :: n in cs + ns) && (forall n | n in ns :: n in cs + ns);
    hide Free, Safe, AlternationOf, InjectedText;
    PatternFree(cs, "\n");
    PatternFree(ns, "\n");
    InjectedFree(cs, ns, "\n");
  }

  /** The injected text becomes part of the comment. */
  lemma InjectionCommented(block: string, cs: seq<string>, ns: seq<string>)
    requires cs != [] && (forall n | n in cs + ns :: Safe(n)) &&
      PlaceAfter(OUTSIDE, Trim(block, IsUnicodeSpace), true) == Comment
    ensures PlaceAfter(OUTSIDE, Combined(block, cs, ns), true) == Comment
    ensures Strip(OUTSIDE, Combined(block, cs, ns)) == Strip(OUTSIDE, Trim(block, IsUnicodeSpace))
  {
    var existing, pasted := Trim(block, IsUnicodeSpace), ", " + InjectedText(cs, ns);
    assert existing != "" && Combined(block, cs, ns) == existing + pasted by {
      assert PlaceAfter(OUTSIDE, "", true) == OUTSIDE;
      Regroup(existing, ", ", InjectedText(cs, ns));
    }
    InjectionHasNoLineFeed(cs, ns);
    FreeAppend(", ", InjectedText(cs, ns), "\n");
    CommentGoesOn(pasted);
    PlaceAppend(OUTSIDE, existing, pasted, true);
    StripAppend(OUTSIDE, existing, pasted);
  }

  lemma CommentedBlocks(block: string, rest: string, cs: seq<string>, ns: seq<string>)
    requires cs != [] && (forall n | n in cs + ns :: Safe(n)) && PlaceAfter(OUTSIDE, block, true) == Comment
    ensures ParseBlock(Strip(OUTSIDE, block + "}" + rest)) ==
      ParseBlock(Strip(OUTSIDE, Combined(block, cs, ns) + "}" + rest))
  {
    PlaceOfTrimmed(block);
    hide Combined, Strip, PlaceAfter, ParseBlock, Safe, Trim;
    InjectionCommented(block, cs, ns);
    var before, after := StripTrimmed(block);
    SpacesKeepPlace(Comment, after);
    CommentedRest(block, rest);
    CommentedRest(Combined(block, cs, ns), rest);
    var e, r := Strip(OUTSIDE, Trim(block, IsUnicodeSpace)), Strip(Comment, rest);
    assert before + e + "" + r == before + (e + r) + "";
    SameBlock(before, e + r);
  }

  /** Both texts go on in the comment, and are read to the same place. */
  lemma CommentedBraces(query: string, cs: seq<string>, ns: seq<string>) returns (rest: string)
    requires cs != [] && (forall n | n in cs + ns :: Safe(n))
    requires Leading(query).Some? && PlaceAfter(OUTSIDE, Leading(query).value.0, true) == Comment
    ensures ScopeLogQL(query, cs, ns).Ok?
    ensures var block, output := Leading(query).value.0, BracedBlock(ScopeLogQL(query, cs, ns).value, true);
      && (output.Some? <==> BracedBlock(query, true).Some?)
      && (output.Some? ==> BracedBlock(query, true).value == (block + "}" + rest, output.value.1))
      && (output.Some? ==> output.value.0 == Combined(block, cs, ns) + "}" + rest)
  {
    var (block, tail) := Leading(query).value;
    LeadingRead(query, true);
    OutputBraces(query, cs, ns);
    PlaceOfTrimmed(block);
    InjectionCommented(block, cs, ns);
    hide ScopeLogQL, BracedBlock, Combined, Close, PlaceAfter, Leading, Safe, Trim, Strip;
    rest := tail[..Close(tail, Comment, true)];
  }

  /** When the first `}` is itself in that comment, the output reads exactly as the query does: nothing is injected. */
  lemma BraceInCommentDropsScope(query: string, cs: seq<string>, ns: seq<string>)
    requires cs != [] && forall n | n in cs + ns :: Safe(n)
    requires Leading(query).Some? && PlaceAfter(OUTSIDE, Leading(query).value.0, true) == Comment
    ensures ScopeLogQL(query, cs, ns).Ok? && ParseSelector(ScopeLogQL(query, cs, ns).value) == ParseSelector(query)
  {
    hide ScopeLogQL, BracedBlock, Combined, Close, Strip, PlaceAfter, Leading, ParseBlock, Safe, Trim;
    var rest := CommentedBraces(query, cs, ns);
    CommentedBlocks(Leading(query).value.0, rest, cs, ns);
  }

  lemma CommentedRest(block: string, rest: string)
    requires PlaceAfter(OUTSIDE, block, true) == Comment
    ensures Strip(OUTSIDE, block + "}" + rest) == Strip(OUTSIDE, block) + Strip(Comment, rest)
  {
    assert Strip(Comment, "}") == "" && PlaceAfter(Comment, "}", true) == Comment;
    hide Strip, PlaceAfter;
    StripAppend(OUTSIDE, block + "}", rest);
    StripAppend(OUTSIDE, block, "}");
    PlaceAppend(OUTSIDE, block, "}", true);
    assert Strip(OUTSIDE, block) + "" == Strip(OUTSIDE, block);
  }

  lemma SameBlock(before: string, s: string)
    requires All(before, IsUnicodeSpace)
    ensures ParseBlock(before + s + "") == ParseBlock(s)
  {
    TrimIgnoresPadding(before, s, "", IsUnicodeSpace);
  }

  /** When it ends the selector, it is commented out: the output's selector, if there is one, ends in what was the
      tail. */
  lemma CommentMovesEnd(query: string, cs: seq<string>, ns: seq<string>)
    requires cs != [] && (forall n | n in cs + ns :: Safe(n)) && ParseSelector(query).Some?
    requires Leading(query).Some? && KeptEnd(query) == Comment &&
      PlaceAfter(OUTSIDE, Leading(query).value.0, true) == OUTSIDE
    ensures ScopeLogQL(query, cs, ns).Ok?
    ensures var output := ParseSelector(ScopeLogQL(query, cs, ns).value);
      output.Some? ==> |output.value.1| < |ParseSelector(query).value.1|
  {
    var (block, tail) := Leading(query).value;
    LeadingRead(query, true);
    OutputBraces(query, cs, ns);
    InjectionCommented(block, cs, ns);
  }

  /* The code stops at a `}` inside a literal: the injected text becomes part of that literal. */

  predicate IsQuote(c: char) { c == '"' || c == '`' }

  lemma {:induction false} NoQuoteNoLiteral(s: string)
    requires Free(s, "\"`")
    ensures Scan(Plain, s) == Plain
    decreases |s|
  {
    if s != "" { NoQuoteNoLiteral(s[1..]); }
  }

  lemma {:induction false} StripInLiteral(m: Mode, s: string)
    requires m != Plain && Free(s, "\"`\\")
    ensures Strip(Code(m), s) == s
    decreases |s|
  {
    if s != "" { StripInLiteral(Next(m, s[0]), s[1..]); }
  }

  /** Inside a literal nothing splits. */
  lemma {:induction false} SplitOpen(y: string, more: string, m: Mode)
    requires m != Plain && Free(y, "\"`\\")
    ensures y <= Split(y + more, m)[0]
    decreases |y|
  {
    if y != "" {
      assert (y + more)[1..] == y[1..] + more;
      SplitOpen(y[1..], more, Next(m, y[0]));
    }
  }

  function LastPieceMode(pieces: seq<string>, m: Mode): Mode
    requires pieces != []
  {
    Scan(if |pieces| == 1 then m else Plain, pieces[|pieces| - 1])
  }

  lemma LastOfPrefixed(c: char, pieces: seq<string>, m: Mode)
    requires pieces != []
    ensures LastPieceMode(Prefixed(c, pieces), m) == LastPieceMode(pieces, Next(m, c))
  {
    if |pieces| == 1 { assert ([c] + pieces[0])[1..] == pieces[0]; }
  }

  lemma LastOfCut(pieces: seq<string>)
    requires pieces != []
    ensures LastPieceMode([""] + pieces, Plain) == LastPieceMode(pieces, Plain)
  {}

  /** The last piece ends in the literal that the whole text ends in. */
  lemma {:induction false} LastPieceScan(s: string, m: Mode)
    ensures LastPieceMode(Split(s, m), m) == Scan(m, s)
    decreases |s|
  {
    if s != "" {
      var m' := if m == Plain && s[0] == ',' then Plain else Next(m, s[0]);
      assert Scan(m, s) == Scan(m', s[1..]);
      hide Split, Scan, LastPieceMode, Prefixed;
      SplitUnfolds(s, m);
      LastPieceScan(s[1..], m');
      LastOfPrefixed(s[0], Split(s[1..], m'), m);
      LastOfCut(Split(s[1..], m'));
    }
  }

  lemma {:induction false} NameStops(g: string, y: string)
    requires exists i | 0 <= i < |g| :: !IsNameChar(g[i])
    ensures NameLength(g + y) == NameLength(g) < |g|
    decreases |g|
  {
    if IsNameChar(g[0]) {
      assert (g + y)[1..] == g[1..] + y;
      var i :| 0 <= i < |g| && !IsNameChar(g[i]);
      assert g[1..][i - 1] == g[i];
      NameStops(g[1..], y);
    }
  }

  /** A quote in a text is still there when space is trimmed. */
  lemma TrimKeepsQuote(g: string, y: string)
    requires !Free(g, "\"`")
    ensures !Free(TrimLeft(g, IsUnicodeSpace), "\"`") && TrimLeft(g, IsUnicodeSpace) != ""
    ensures TrimLeft(g + y, IsUnicodeSpace) == TrimLeft(g, IsUnicodeSpace) + y
  {
    var cut := TrimLeftParts(g, IsUnicodeSpace);
    FreeAppend(cut, TrimLeft(g, IsUnicodeSpace), "\"`");
    TrimLeftThen(g, y, IsUnicodeSpace);
  }

  /** Name and operator stand before the first quote. */
  lemma OperationThen(g: string, y: string)
    requires !Free(g, "\"`") && (Operation(g + y).Some? || Operation(g).Some?)
    ensures Operation(g).Some? && !Free(Operation(g).value.2, "\"`")
    ensures Operation(g + y) == Some((Operation(g).value.0, Operation(g).value.1, Operation(g).value.2 + y))
  {
    NameThen(g, y);
    var n := NameLength(g);
    hide NameLength, Operator, TrimLeft, Free;
    assert (g + y)[..n] == g[..n] && (g + y)[n..] == g[n..] + y;
    TrimKeepsQuote(g[n..], y);
    OperatorThen(TrimLeft(g[n..], IsUnicodeSpace), y);
  }

  lemma NameThen(g: string, y: string)
    requires !Free(g, "\"`")
    ensures NameLength(g + y) == NameLength(g) < |g| && !Free(g[NameLength(g)..], "\"`")
  {
    var i :| 0 <= i < |g| && g[i] in "\"`";
    assert !IsNameChar(g[i]);
    NameStops(g, y);
    var n := NameLength(g);
    assert forall j | 0 <= j < n :: g[..n][j] == g[j];
    assert g[n..][i - n] == g[i];
  }

  lemma OperatorThen(rest: string, y: string)
    requires !Free(rest, "\"`") && (Operator(rest + y).Some? || Operator(rest).Some?)
    ensures Operator(rest).Some? && !Free(Operator(rest).value.1, "\"`")
    ensures Operator(rest + y) == Some((Operator(rest).value.0, Operator(rest).value.1 + y))
  {
    OpThen("=~", rest, y);
    OpThen("!~", rest, y);
    OpThen("!=", rest, y);
    OpThen("=", rest, y);
  }

  lemma OpThen(op: string, rest: string, y: string)
    requires !Free(rest, "\"`") && op in ["=~", "!~", "!=", "="]
    ensures op <= rest + y <==> op <= rest
    ensures op <= rest ==> (rest + y)[|op|..] == rest[|op|..] + y && !Free(rest[|op|..], "\"`")
  {
    var i :| 0 <= i < |rest| && rest[i] in "\"`";
    assert (rest + y)[i] == rest[i];
    if op <= rest {
      FreeAppend(op, rest[|op|..], "\"`");
      assert rest == op + rest[|op|..];
    }
  }

  /** The beginning of a literal. */
  function Begun(text: string): Option<string> {
    var v := TrimLeft(text, IsUnicodeSpace);
    if v == "" then None else if v[0] == '"' then Unquote(v[1..]) else if v[0] == '`' then Some(v[1..]) else None
  }

  /** The matcher that a text begins which ends inside a literal: its value so far. */
  function Started(g: string): Option<Matcher> {
    match Operation(TrimLeft(g, IsUnicodeSpace))
    case None => None
    case Some((kind, name, text)) =>
      match Begun(text) case None => None case Some(value) => Some(Matcher(kind, name, value))
  }

  lemma {:induction false} UnquoteOrdinary(y: string, r: string)
    requires Free(y, "\"\\") && Unquote(y + r).Some?
    ensures y <= Unquote(y + r).value
    decreases |y|
  {
    if y != "" {
      assert (y + r)[1..] == y[1..] + r;
      UnquoteOrdinary(y[1..], r);
    }
  }

  lemma FirstOfMiddle(l: string, y: string, r: string)
    requires y != ""
    ensures l + y + r == l + [y[0]] + (y[1..] + r) && y == [y[0]] + y[1..]
  {}

  lemma RestFree(y: string)
    requires y != "" && Free(y, "\"`\\")
    ensures Free(y[1..], "\"\\")
  {
    forall i | 0 <= i < |y[1..]| ensures y[1..][i] !in "\"\\" { assert y[i + 1] !in "\"`\\"; }
  }

  lemma PrefixAfter(v: string, c: char, y: string, w: string)
    requires y <= w
    ensures v + ([c] + y) <= v + [c] + w
  {}

  lemma UnquoteThen(l: string, y: string, r: string)
    requires y != "" && Free(y, "\"`\\") && IsInert(y[0]) && Unquote(l + y + r).Some?
    ensures Unquote(l).Some? && Unquote(l).value + y <= Unquote(l + y + r).value
  {
    hide Unquote, IsInert, Free;
    FirstOfMiddle(l, y, r);
    RestFree(y);
    UnquoteAcross(l, y[0], y[1..] + r);
    UnquoteOrdinary(y[1..], r);
    PrefixAfter(Unquote(l).value, y[0], y[1..], Unquote(y[1..] + r).value);
  }

  lemma BodySlices(v: string, y: string, r: string)
    requires v != "" && r != ""
    ensures var whole := v + (y + r);
      |whole| >= 2 && whole[0] == v[0] && whole[1..|whole| - 1] == v[1..] + y + r[..|r| - 1]
  {}

  /** A literal that goes on behind `y` has `y` in its value, after what came before. */
  lemma LiteralThen(text: string, y: string, r: string)
    requires !Free(text, "\"`") && y != "" && Free(y, "\"`\\") && IsInert(y[0]) && r != ""
    requires Literal(TrimLeft(text + (y + r), IsUnicodeSpace)).Some?
    ensures Begun(text).Some? && Begun(text).value + y <= Literal(TrimLeft(text + (y + r), IsUnicodeSpace)).value
  {
    TrimKeepsQuote(text, y + r);
    var v, last := TrimLeft(text, IsUnicodeSpace), r[..|r| - 1];
    BodySlices(v, y, r);
    hide TrimLeft, Free, IsInert, Unquote;
    if v[0] == '"' { UnquoteThen(v[1..], y, last); }
  }

  /** Two texts that end in the same character. */
  predicate EndAlike(s: string, t: string) { s != "" && t != "" && s[|s| - 1] == t[|t| - 1] }

  lemma EndsOfSum(front: string, s: string)
    requires s != ""
    ensures EndAlike(front + s, s)
  {}

  lemma OperatorEnds(rest: string)
    requires Operator(rest).Some? && Operator(rest).value.1 != ""
    ensures EndAlike(rest, Operator(rest).value.1)
  {}

  lemma TrimLeftEnds(s: string, space: char -> bool)
    requires TrimLeft(s, space) != ""
    ensures EndAlike(s, TrimLeft(s, space))
  {
    var cut := TrimLeftParts(s, space);
    EndsOfSum(cut, TrimLeft(s, space));
  }

  lemma OperationEnds(t: string)
    requires Operation(t).Some? && Operation(t).value.2 != ""
    ensures EndAlike(t, Operation(t).value.2)
  {
    var after := t[NameLength(t)..];
    hide Operator, TrimLeft, NameLength, EndAlike;
    EmptyOperator();
    OperatorEnds(TrimLeft(after, IsUnicodeSpace));
    TrimLeftEnds(after, IsUnicodeSpace);
    EndsTransitive(after, TrimLeft(after, IsUnicodeSpace), Operation(t).value.2);
    assert t == t[..NameLength(t)] + after;
    EndsOfSum(t[..NameLength(t)], after);
    EndsTransitive(t, after, Operation(t).value.2);
  }

  lemma EmptyOperator()
    ensures Operator("").None?
  {}

  lemma EndsTransitive(a: string, b: string, c: string)
    requires EndAlike(a, b) && EndAlike(b, c)
    ensures EndAlike(a, c)
  {}

  /** The end of a matcher's text is a quote. */
  lemma ReadEndsInQuote(s: string)
    requires ParseMatcher(s).Some?
    ensures var t := Trim(s, IsUnicodeSpace); t != "" && IsQuote(t[|t| - 1])
  {
    var t := Trim(s, IsUnicodeSpace);
    var text := Operation(t).value.2;
    hide Trim, Operation, TrimLeft;
    assert TrimLeft(text, IsUnicodeSpace) != "";
    TrimLeftEnds(text, IsUnicodeSpace);
    OperationEnds(t);
  }

  /** Text after a matcher that has begun a literal: `y` goes into its value. */
  lemma ValueAtCut(g: string, y: string, r: string)
    requires !Free(g, "\"`") && !All(y, IsUnicodeSpace) && Free(y, "\"`\\") && IsInert(y[0]) &&
      ParseMatcher(g + (y + r)).Some?
    ensures Started(g).Some?
    ensures var m, begun := ParseMatcher(g + (y + r)).value, Started(g).value;
      m.kind == begun.kind && m.name == begun.name && begun.value + y <= m.value
  {
    var s := TrimLeft(g, IsUnicodeSpace);
    TrimKeepsQuote(g, y + r);
    ReadEndsInQuote(g + (y + r));
    TrimmedEnd(s, y, r);
    var last := TrimRight(r, IsUnicodeSpace);
    hide TrimLeft, TrimRight, Trim, Free, IsInert, Operation, Literal, Begun;
    OperationThen(s, y + last);
    LiteralThen(Operation(s).value.2, y, last);
  }

  lemma {:induction false} TrimRightThen(s: string, more: string, space: char -> bool)
    ensures TrimRight(s + more, space) ==
      if TrimRight(more, space) == "" then TrimRight(s, space) else s + TrimRight(more, space)
    decreases |more|
  {
    if more == "" {
      assert s + more == s;
    } else if space(more[|more| - 1]) {
      assert (s + more)[..|s + more| - 1] == s + more[..|more| - 1];
      TrimRightThen(s, more[..|more| - 1], space);
    }
  }

  lemma LastOfTrimmed(y: string)
    requires !All(y, IsUnicodeSpace) && Free(y, "\"`\\")
    ensures var u := TrimRight(y, IsUnicodeSpace); u != "" && !IsQuote(u[|u| - 1])
  {
    var cut := TrimRightParts(y, IsUnicodeSpace);
    var u := TrimRight(y, IsUnicodeSpace);
    assert y == u + cut && (u == "" ==> y == cut);
    assert y[|u| - 1] == u[|u| - 1] && y[|u| - 1] !in "\"`\\";
  }

  /** When a trimmed text ends in a quote, and `y` holds none, the end is behind `y`. */
  lemma TrimmedEnd(s: string, y: string, r: string)
    requires !All(y, IsUnicodeSpace) && Free(y, "\"`\\")
    requires var t := TrimRight(s + (y + r), IsUnicodeSpace); t != "" && IsQuote(t[|t| - 1])
    ensures TrimRight(r, IsUnicodeSpace) != "" &&
      TrimRight(s + (y + r), IsUnicodeSpace) == s + (y + TrimRight(r, IsUnicodeSpace))
  {
    hide TrimRight, All, Free;
    LastOfTrimmed(y);
    TrimRightThen(s, y + r, IsUnicodeSpace);
    TrimRightThen(y, r, IsUnicodeSpace);
  }

  /** The last piece of a text that ends inside a literal has begun that literal. */
  lemma LastPieceHasQuote(e: string)
    requires Scan(Plain, e) != Plain
    ensures var x := Split(e, Plain); !Free(x[|x| - 1], "\"`")
  {
    var x := Split(e, Plain);
    LastPieceScan(e, Plain);
    if Free(x[|x| - 1], "\"`") { NoQuoteNoLiteral(x[|x| - 1]); }
  }

  lemma SeamPiece(e: string, y: string, w: string) returns (r: string)
    requires Scan(Plain, e) != Plain && Free(y, "\"`\\")
    ensures var x, whole := Split(e, Plain), Split(e + (y + w), Plain);
      |x| <= |whole| && whole[|x| - 1] == x[|x| - 1] + (y + r)
  {
    var next := Split(y + w, Scan(Plain, e));
    SplitOpen(y, w, Scan(Plain, e));
    SplitGlue(e, y + w, Plain);
    hide Split, Free, Scan;
    r := next[0][|y|..];
    assert next[0] == y + r;
  }

  /** One of the pieces that have been read. */
  lemma PieceReads(pieces: seq<string>, k: nat, g: string, y: string, r: string)
    requires ParseAll(pieces).Some? && k < |pieces| && pieces[k] == g + (y + r)
    requires !Free(g, "\"`") && !All(y, IsUnicodeSpace) && Free(y, "\"`\\") && IsInert(y[0])
    ensures Started(g).Some? && k < |ParseAll(pieces).value|
    ensures var m, begun := ParseAll(pieces).value[k], Started(g).value;
      m.kind == begun.kind && m.name == begun.name && begun.value + y <= m.value
  {
    hide ParseMatcher, Started, Free, IsInert, All;
    assert ParseMatcher(pieces[k]) == Some(ParseAll(pieces).value[k]);
    ValueAtCut(g, y, r);
  }

  /** A text that ends inside a literal, and goes on with `y`: the matcher at the seam has `y` in its value. */
  lemma SeamReads(e: string, y: string, w: string)
    requires Scan(Plain, e) != Plain && !All(y, IsUnicodeSpace) && Free(y, "\"`\\") && IsInert(y[0])
    requires ParseBlock(e + (y + w)).Some?
    ensures var x := Split(e, Plain);
      Started(x[|x| - 1]).Some? && |x| <= |ParseBlock(e + (y + w)).value|
    ensures var x := Split(e, Plain);
      var m, begun := ParseBlock(e + (y + w)).value[|x| - 1], Started(x[|x| - 1]).value;
      m.kind == begun.kind && m.name == begun.name && begun.value + y <= m.value
  {
    hide Split, ParseMatcher, Started, Free, IsInert, All, Scan, ParseBlock, ParseAll, Trim;
    LastPieceHasQuote(e);
    OpenIsNotBlank(e, y + w);
    BlockIs(e + (y + w));
    var r := SeamPiece(e, y, w);
    var x := Split(e, Plain);
    PieceReads(Split(e + (y + w), Plain), |x| - 1, x[|x| - 1], y, r);
  }

  lemma OpenIsNotBlank(e: string, more: string)
    requires Scan(Plain, e) != Plain
    ensures Trim(e + more, IsUnicodeSpace) != ""
  {
    if Trim(e, IsUnicodeSpace) == "" {
      BlankIsSpace(e);
      ScanSpaces(Plain, e);
    } else {
      LongerIsNotBlank(e, more);
    }
  }

  /** The matcher has the value of `before` up to somewhere, and then the injected text. */
  ghost predicate Swallows(after: Matcher, before: Matcher) {
    && after.kind == before.kind && after.name == before.name
    && exists v: string :: v <= before.value && v + ", cluster=~" <= after.value && !(v + "," <= before.value)
  }

  lemma BraceIsKept(p: Place)
    requires p.Code?
    ensures Strip(p, "}") == "}" && PlaceAfter(p, "}", true) == Move(p, '}', true)
  {}

  lemma Padded(before: string, e: string, after: string, w: string)
    ensures before + e + after + "}" + w == before + (e + (after + "}" + w)) + ""
  {}

  /** The original block from the cut on: space, and the brace. */
  lemma CutBlock(block: string, rest: string) returns (before: string, y: string, w: string)
    requires var p := PlaceAfter(OUTSIDE, Trim(block, IsUnicodeSpace), true); p.Code? && p != OUTSIDE
    ensures Strip(OUTSIDE, block + "}" + rest) == before + (Strip(OUTSIDE, Trim(block, IsUnicodeSpace)) + (y + w)) + ""
    ensures All(before, IsUnicodeSpace)
    ensures y != "" && !All(y, IsUnicodeSpace) && Free(y, "\"`\\") && y[0] != ',' && IsInert(y[0])
  {
    hide Strip, PlaceAfter, Trim, Free, IsInert;
    var p := PlaceAfter(OUTSIDE, Trim(block, IsUnicodeSpace), true);
    var after: string;
    before, after := StripTrimmed(block);
    hide All;
    SpacesKeepPlace(p, after);
    var q := PlaceAfter(OUTSIDE, block, true);
    y, w := after + "}", Strip(Move(q, '}', true), rest);
    SpaceThenBrace(after);
    StripAppend(OUTSIDE, block + "}", rest);
    StripAppend(OUTSIDE, block, "}");
    PlaceAppend(OUTSIDE, block, "}", true);
    BraceIsKept(q);
    Padded(before, Strip(OUTSIDE, Trim(block, IsUnicodeSpace)), after, w);
  }

  lemma SpaceThenBrace(after: string)
    requires All(after, IsUnicodeSpace)
    ensures var y := after + "}"; !All(y, IsUnicodeSpace) && Free(y, "\"`\\") && y[0] != ',' && IsInert(y[0])
  {
    var y := after + "}";
    assert y[|after|] == '}';
    forall i | 0 <= i < |y| ensures y[i] !in "\"`\\" { if i < |after| { assert y[i] == after[i]; } }
    if after != "" { assert y[0] == after[0] && IsUnicodeSpace(y[0]); }
  }

  /** The output's block from the same place on: the injected text. */
  lemma PastedBlock(block: string, rest: string, cs: seq<string>, ns: seq<string>) returns (w: string)
    requires var p := PlaceAfter(OUTSIDE, Trim(block, IsUnicodeSpace), true); p.Code? && p != OUTSIDE
    ensures Strip(OUTSIDE, Combined(block, cs, ns) + rest) ==
      Strip(OUTSIDE, Trim(block, IsUnicodeSpace)) + (", cluster=~" + w)
  {
    var existing, y := Trim(block, IsUnicodeSpace), ", cluster=~";
    var p := PlaceAfter(OUTSIDE, existing, true);
    assert PlaceAfter(OUTSIDE, "", true) == OUTSIDE;
    assert Free(y, "\"`\\");
    hide InjectedText, Trim, PlaceAfter, Strip, Free;
    InjectionStarts(existing, rest, cs, ns);
    var more := InjectedText(cs, ns)[|"cluster=~"|..] + rest;
    StripAppend(OUTSIDE, existing, y + more);
    StripAppend(p, y, more);
    StripInLiteral(p.mode, y);
    w := Strip(PlaceAfter(p, y, true), more);
  }

  lemma InjectionStarts(existing: string, rest: string, cs: seq<string>, ns: seq<string>)
    ensures var injected, n := InjectedText(cs, ns), |"cluster=~"|;
      |injected| >= n && existing + ", " + injected + rest == existing + (", cluster=~" + (injected[n..] + rest))
  {
    var injected, n := InjectedText(cs, ns), |"cluster=~"|;
    var p := AlternationOf(cs);
    InjectedTextShape(cs, ns);
    assert RegexText("cluster", "", p) == "cluster=~" + ("\"" + (p + "\""));
    hide InjectedText, AlternationOf, RegexText;
    assert injected[..n] == "cluster=~";
    InjectionRegroups(existing, injected, n, rest);
  }

  lemma InjectionRegroups(existing: string, injected: string, n: nat, rest: string)
    requires n <= |injected| && injected[..n] == "cluster=~"
    ensures existing + ", " + injected + rest == existing + (", cluster=~" + (injected[n..] + rest))
  {
    assert injected == injected[..n] + injected[n..];
    assert ", cluster=~" == ", " + injected[..n];
  }

  /** What the reader has of a block that ends inside a literal. */
  lemma CutLiteral(block: string)
    requires var p := PlaceAfter(OUTSIDE, Trim(block, IsUnicodeSpace), true); p.Code? && p != OUTSIDE
    ensures Scan(Plain, Strip(OUTSIDE, Trim(block, IsUnicodeSpace))) != Plain
    ensures PlaceAfter(OUTSIDE, block, true) != OUTSIDE
  {
    ScanStripped(OUTSIDE, Trim(block, IsUnicodeSpace));
    PlaceOfTrimmed(block);
  }

  lemma ApartAtCut(begun: string, y: string, before: string, after: string)
    requires y != "" && y[0] != ',' && begun + y <= before && begun + ", cluster=~" <= after
    ensures begun <= before && !(begun + "," <= before)
  {
    assert before[|begun|] == (begun + y)[|begun|] == y[0];
    assert (begun + ",")[|begun|] == ',';
  }

  /** Both readings, at the matcher whose literal the first `}` is in. */
  lemma MatcherAtCut(block: string, rest: string, more: string, cs: seq<string>, ns: seq<string>) returns (k: nat)
    requires var p := PlaceAfter(OUTSIDE, Trim(block, IsUnicodeSpace), true); p.Code? && p != OUTSIDE
    requires ParseBlock(Strip(OUTSIDE, block + "}" + rest)).Some? &&
      ParseBlock(Strip(OUTSIDE, Combined(block, cs, ns) + more)).Some?
    ensures var ms, after := ParseBlock(Strip(OUTSIDE, block + "}" + rest)).value,
      ParseBlock(Strip(OUTSIDE, Combined(block, cs, ns) + more)).value;
      k < |ms| && k < |after| && Swallows(after[k], ms[k])
  {
    hide PlaceAfter, Strip, ParseBlock, Combined, Trim, Free, All, IsInert, Scan, Split, Started;
    var e := Strip(OUTSIDE, Trim(block, IsUnicodeSpace));
    CutLiteral(block);
    var before, y, w := CutBlock(block, rest);
    var v := PastedBlock(block, more, cs, ns);
    SameBlock(before, e + (y + w));
    SeamReads(e, y, w);
    CommaIsInert();
    SeamReads(e, ", cluster=~", v);
    k := |Split(e, Plain)| - 1;
    var begun := Started(Split(e, Plain)[k]).value;
    ApartAtCut(begun.value, y, ParseBlock(e + (y + w)).value[k].value,
      ParseBlock(e + (", cluster=~" + v)).value[k].value);
  }

  lemma CommaIsInert()
    ensures var y := ", cluster=~"; !All(y, IsUnicodeSpace) && Free(y, "\"`\\") && IsInert(y[0])
  {
    assert ", cluster=~"[0] == ',' && !IsUnicodeSpace(',');
  }

  lemma SelectorReads(query: string)
    requires ParseSelector(query).Some?
    ensures BracedBlock(query, true).Some?
    ensures ParseBlock(Strip(OUTSIDE, BracedBlock(query, true).value.0)) == Some(ParseSelector(query).value.0)
  {}

  /** Then the output, if it reads at all, has the injected text in the value of one of the query's own labels, and
      not the matchers it was to add. */
  lemma HiddenBraceBreaksScoping(query: string, cs: seq<string>, ns: seq<string>)
    requires cs != [] && forall n | n in cs + ns :: Safe(n)
    requires ParseSelector(query).Some? && Leading(query).Some? && KeptEnd(query).Code? && KeptEnd(query) != OUTSIDE
    ensures ScopeLogQL(query, cs, ns).Ok?
    ensures var ms, r := ParseSelector(query).value.0, ParseSelector(ScopeLogQL(query, cs, ns).value);
      && (r.Some? ==> exists k | 0 <= k < |ms| && k < |r.value.0| :: Swallows(r.value.0[k], ms[k]))
      && (r.Some? ==> r.value.0 != ms + Injected(cs, ns))
  {
    OutputBraces(query, cs, ns);
    hide ScopeLogQL, ParseSelector, BracedBlock, Leading, Safe, KeptEnd, Swallows, Injected, ReadOn, Combined;
    if ParseSelector(ScopeLogQL(query, cs, ns).value).Some? {
      var k := SwallowsAt(query, cs, ns);
      SwallowsIsOther(ParseSelector(ScopeLogQL(query, cs, ns).value).value.0, ParseSelector(query).value.0,
        Injected(cs, ns), k);
    }
  }

  lemma SwallowsAt(query: string, cs: seq<string>, ns: seq<string>) returns (k: nat)
    requires cs != [] && forall n | n in cs + ns :: Safe(n)
    requires ParseSelector(query).Some? && Leading(query).Some? && KeptEnd(query).Code? && KeptEnd(query) != OUTSIDE
    requires ScopeLogQL(query, cs, ns).Ok? && ParseSelector(ScopeLogQL(query, cs, ns).value).Some?
    ensures var ms, after := ParseSelector(query).value.0, ParseSelector(ScopeLogQL(query, cs, ns).value).value.0;
      k < |ms| && k < |after| && Swallows(after[k], ms[k])
  {
    hide ScopeLogQL, ParseSelector, BracedBlock, Combined, Strip, PlaceAfter, Leading, ParseBlock, Safe, Trim, Swallows;
    var block := Leading(query).value.0;
    CutLiteral(block);
    SelectorReads(query);
    SelectorReads(ScopeLogQL(query, cs, ns).value);
    var rest, more := BlocksAt(query, cs, ns);
    k := MatcherAtCut(block, rest, more, cs, ns);
  }

  lemma SwallowsIsOther(after: seq<Matcher>, ms: seq<Matcher>, extra: seq<Matcher>, k: nat)
    requires k < |ms| && k < |after| && Swallows(after[k], ms[k])
    ensures after != ms + extra
  {
    assert (ms + extra)[k] == ms[k];
    var v: string :| v <= ms[k].value && v + ", cluster=~" <= after[k].value && !(v + "," <= ms[k].value);
    CommaFirst(v);
  }

  lemma CommaFirst(v: string)
    ensures v + "," <= v + ", cluster=~"
  {}

  /** Both blocks, as they go on behind the text that the code keeps. */
  lemma BlocksAt(query: string, cs: seq<string>, ns: seq<string>) returns (rest: string, more: string)
    requires cs != [] && (forall n | n in cs + ns :: Safe(n)) && Leading(query).Some?
    requires PlaceAfter(OUTSIDE, Leading(query).value.0, true) != OUTSIDE
    requires BracedBlock(query, true).Some? && BracedBlock(ScopeLogQL(query, cs, ns).value, true).Some?
    ensures var block := Leading(query).value.0;
      && BracedBlock(query, true).value.0 == block + "}" + rest
      && BracedBlock(ScopeLogQL(query, cs, ns).value, true).value.0 == Combined(block, cs, ns) + more
  {
    var (block, tail) := Leading(query).value;
    LeadingRead(query, true);
    OutputBraces(query, cs, ns);
    hide ScopeLogQL, BracedBlock, Combined, Leading, Safe;
    var p, q := PlaceAfter(OUTSIDE, block, true), PlaceAfter(OUTSIDE, Combined(block, cs, ns), true);
    rest := tail[..Close(tail, Move(p, '}', true), true)];
    if q == OUTSIDE {
      more := "";
      assert Combined(block, cs, ns) + "" == Combined(block, cs, ns);
    } else {
      more := "}" + tail[..Close(tail, Move(q, '}', true), true)];
      Regroup(Combined(block, cs, ns), "}", tail[..Close(tail, Move(q, '}', true), true)]);
    }
  }

  /** Exactly when the rewrite is right: for every well-formed query, and safe names, the output reads as the original
      matchers followed by the injected ones and the same tail if and only if the query starts with its braces and the
      text that the code keeps between them ends outside literals and comments. */
  lemma ScopingIsRightIff(query: string, cs: seq<string>, ns: seq<string>)
    requires cs != [] && forall n | n in cs + ns :: Safe(n)
    requires ParseSelector(query).Some?
    ensures ScopeLogQL(query, cs, ns).Ok? <==> exists pad, block, tail :: IsLed(query, pad, block, tail)
    ensures var output := ScopeLogQL(query, cs, ns);
      output.Ok? && ParseSelector(output.value) ==
        Some((ParseSelector(query).value.0 + Injected(cs, ns), ParseSelector(query).value.1))
      <==> Leading(query).Some? && KeptEnd(query) == OUTSIDE
  {
    AcceptedIff(query, cs, ns);
    if Leading(query).Some? {
      var block := Leading(query).value.0;
      PlaceOfTrimmed(block);
      hide ScopeLogQL, ParseSelector, PlaceAfter, Safe, Trim;
      if KeptEnd(query) == OUTSIDE {
        ScopedSelectorReads(query, cs, ns);
      } else if KeptEnd(query).Code? {
        HiddenBraceBreaksScoping(query, cs, ns);
      } else {
        CommentSettles(query, cs, ns);
      }
    }
  }

  lemma CommentSettles(query: string, cs: seq<string>, ns: seq<string>)
    requires cs != [] && (forall n | n in cs + ns :: Safe(n)) && ParseSelector(query).Some?
    requires Leading(query).Some? && KeptEnd(query) == Comment
    ensures ScopeLogQL(query, cs, ns).Ok?
    ensures ParseSelector(ScopeLogQL(query, cs, ns).value) !=
      Some((ParseSelector(query).value.0 + Injected(cs, ns), ParseSelector(query).value.1))
  {
    var block := Leading(query).value.0;
    var before, after := StripTrimmed(block);
    SpacesKeepPlace(Comment, after);
    var ms := ParseSelector(query).value.0;
    assert |ms + Injected(cs, ns)| > |ms|;
    hide ScopeLogQL, ParseSelector, PlaceAfter, Safe, Trim, Strip;
    if PlaceAfter(OUTSIDE, block, true) == Comment {
      BraceInCommentDropsScope(query, cs, ns);
    } else {
      CommentMovesEnd(query, cs, ns);
    }
  }

  /* Two such queries. */

  lemma {:induction false} RawIsKept(inner: string)
    requires Free(inner, "`")
    ensures Split(inner + "`", InRaw) == [inner + "`"]
    ensures Strip(Code(InRaw), inner + "`") == inner + "`"
    decreases |inner|
  {
    var s := inner + "`";
    if inner == "" {
      assert s == "`" && s[1..] == "" && Split("", Plain) == [""] && [s[0]] + "" == s;
    } else {
      assert s[1..] == inner[1..] + "`";
      RawIsKept(inner[1..]);
      assert [s[0]] + s[1..] == s;
    }
  }

  lemma UnequalOperator(literal: string)
    ensures Operator("!=" + literal) == Some((MatchNotEqual, literal))
  {
    var r := "!=" + literal;
    assert r[0] == '!' && r[1] == '=' && r[2..] == literal;
  }

  /** What follows a name of one letter. */
  lemma OperationReads(rest: string, literal: string)
    requires rest == "!=" + literal
    ensures Operation("a" + rest) == Some((MatchNotEqual, "a", literal))
  {
    var text := "a" + rest;
    assert rest[0] == '!' && AllNameChars("a") && text[..1] == "a" && text[1..] == rest;
    assert TrimLeft(rest, IsUnicodeSpace) == rest;
    hide TrimLeft, NameLength, Operator, AllNameChars;
    NameLengthOf("a", rest);
    UnequalOperator(literal);
  }

  lemma RawValue(inner: string)
    requires Free(inner, "`")
    ensures
      var literal := "`" + (inner + "`");
      WithValue(MatchNotEqual, "a", literal) == Some(Matcher(MatchNotEqual, "a", inner))
  {
    var literal := "`" + (inner + "`");
    assert literal[1..|literal| - 1] == inner && TrimLeft(literal, IsUnicodeSpace) == literal;
    hide TrimLeft, Free;
  }

  lemma RawMatcherReads(inner: string)
    requires Free(inner, "`")
    ensures ParseMatcher("a!=`" + inner + "`") == Some(Matcher(MatchNotEqual, "a", inner))
  {
    var literal := "`" + (inner + "`");
    var text := "a" + ("!=" + literal);
    assert text == "a!=`" + inner + "`" && text[0] == 'a' && text[|text| - 1] == '`';
    TrimTrimmed(text, IsUnicodeSpace);
    hide Trim, Operation, WithValue, Free;
    OperationReads("!=" + literal, literal);
    RawValue(inner);
  }

  lemma RawText(inner: string)
    ensures "a!=`" + inner + "`" == "a!=`" + (inner + "`") == "a!=" + ("`" + (inner + "`"))
  {}

  lemma RawIsOnePiece(inner: string)
    requires Free(inner, "`")
    ensures var text := "a!=`" + inner + "`"; Split(text, Plain) == [text]
  {
    var quoted := "`" + (inner + "`");
    RawIsKept(inner);
    assert quoted[1..] == inner + "`" && [quoted[0]] + quoted[1..] == quoted;
    assert Split(quoted, Plain) == [quoted];
    hide Split;
    SplitPrefix("a!=", quoted);
    RawText(inner);
  }

  lemma RawIsStripped(inner: string)
    requires Free(inner, "`")
    ensures var text := "a!=`" + inner + "`"; Strip(OUTSIDE, text) == text
  {
    RawPlace();
    RawIsKept(inner);
    RawText(inner);
    hide Strip, PlaceAfter;
    StripAppend(OUTSIDE, "a!=`", inner + "`");
  }

  lemma RawBlockReads(inner: string)
    requires Free(inner, "`")
    ensures var text := "a!=`" + inner + "`";
      ParseBlock(Strip(OUTSIDE, text)) == Some([Matcher(MatchNotEqual, "a", inner)])
  {
    var text := "a!=`" + inner + "`";
    assert text[0] == 'a' && text[|text| - 1] == '`';
    hide Strip, Split, ParseMatcher, Trim;
    RawMatcherReads(inner);
    RawIsOnePiece(inner);
    RawIsStripped(inner);
    TrimTrimmed(text, IsUnicodeSpace);
    assert ParseAll([text]).value == [Matcher(MatchNotEqual, "a", inner)];
  }

  lemma RawPlace()
    ensures PlaceAfter(OUTSIDE, "a!=`", true) == Code(InRaw) && Strip(OUTSIDE, "a!=`") == "a!=`"
    ensures Close("`}", Code(InRaw), true) == 1
  {
    StripNothing(Plain, "a!=");
    assert "a!=`" == "a!=" + "`" && Strip(OUTSIDE, "`") == "`" && PlaceAfter(OUTSIDE, "`", true) == Code(InRaw);
    StripAppend(OUTSIDE, "a!=", "`");
    PlaceAppend(OUTSIDE, "a!=", "`", true);
    assert "`}"[1..] == "}";
  }

  lemma NoBackquote(cs: seq<string>, ns: seq<string>)
    requires cs != [] && forall n | n in cs + ns :: Safe(n) && Free(n, "`")
    ensures Free(", " + InjectedText(cs, ns) + "}", "`")
  {
    assert (forall n | n in cs :: n in cs + ns) && (forall n | n in ns :: n in cs + ns);
    assert Free(", ", "`") && Free("}", "`");
    hide Free, Safe, AlternationOf, InjectedText;
    PatternFree(cs, "`");
    PatternFree(ns, "`");
    InjectedFree(cs, ns, "`");
    FreeAppend(", " + InjectedText(cs, ns), "}", "`");
    FreeAppend(", ", InjectedText(cs, ns), "`");
  }

  lemma RawOutput(cs: seq<string>, ns: seq<string>)
    ensures Combined("a!=`", cs, ns) + "}" + "`" == "a!=`" + (", " + InjectedText(cs, ns) + "}") + "`"
  {
    assert "a!=`"[0] == 'a' && "a!=`"[3] == '`';
    TrimTrimmed("a!=`", IsUnicodeSpace);
    hide InjectedText;
    assert Combined("a!=`", cs, ns) == "a!=`" + ", " + InjectedText(cs, ns);
  }

  lemma RawQuery()
    ensures "{a!=`}`}" == "{" + "a!=`" + "}" + "`}" && "`}"[..1] == "`" && "`}"[2..] == ""
    ensures Free("}", "`") && Free("a!=`", "}")
  {}

  /** A `}` in a literal: the query reads, the output reads, and whatever the grants it restricts nothing but `a`. */
  lemma RawLiteralSwallows(cs: seq<string>, ns: seq<string>)
    requires cs != [] && forall n | n in cs + ns :: Safe(n) && Free(n, "`")
    ensures var query := "{a!=`}`}";
      && ParseSelector(query) == Some(([Matcher(MatchNotEqual, "a", "}")], ""))
      && ScopeLogQL(query, cs, ns).Ok?
      && ParseSelector(ScopeLogQL(query, cs, ns).value)
        == Some(([Matcher(MatchNotEqual, "a", ", " + InjectedText(cs, ns) + "}")], ""))
  {
    hide ScopeLogQL, BracedBlock, Combined, Leading, Strip, PlaceAfter, ParseBlock, Trim, Close, InjectedText, Safe,
      Free;
    RawQuery();
    LeadingOf("a!=`", "`}");
    LeadingRead("{a!=`}`}", true);
    OutputBraces("{a!=`}`}", cs, ns);
    RawPlace();
    RawStays(cs, ns);
    RawOutput(cs, ns);
    NoBackquote(cs, ns);
    RawBlockReads("}");
    RawBlockReads(", " + InjectedText(cs, ns) + "}");
  }

  lemma {:induction false} RawGoesOn(s: string)
    requires Free(s, "`")
    ensures PlaceAfter(Code(InRaw), s, true) == Code(InRaw)
    decreases |s|
  {
    if s != "" { RawGoesOn(s[1..]); }
  }

  lemma RawStays(cs: seq<string>, ns: seq<string>)
    requires cs != [] && forall n | n in cs + ns :: Safe(n) && Free(n, "`")
    ensures PlaceAfter(OUTSIDE, Combined("a!=`", cs, ns), true) == Code(InRaw)
  {
    TrimTrimmed("a!=`", IsUnicodeSpace);
    var pasted := ", " + InjectedText(cs, ns);
    NoBackquote(cs, ns);
    FreeAppend(pasted, "}", "`");
    RawPlace();
    RawGoesOn(pasted);
    hide InjectedText;
    assert Combined("a!=`", cs, ns) == "a!=`" + pasted;
    PlaceAppend(OUTSIDE, "a!=`", pasted, true);
  }

  /** A `}` in a comment: the output reads just as the query does, whatever the grants. */
  lemma CommentSwallows(cs: seq<string>, ns: seq<string>)
    requires cs != [] && forall n | n in cs + ns :: Safe(n)
    ensures var query := "{a=\"b\" # }\n}";
      && ParseSelector(query) == Some(([Matcher(MatchEqual, "a", "b")], ""))
      && ScopeLogQL(query, cs, ns).Ok? && ParseSelector(ScopeLogQL(query, cs, ns).value) == ParseSelector(query)
  {
    hide ScopeLogQL, ParseSelector, Leading, PlaceAfter, Safe;
    CommentedQuery();
    BraceInCommentDropsScope("{a=\"b\" # }\n}", cs, ns);
  }

  /** `name="value"`. */
  function EqualText(name: string, value: string): string { name + ("=" + ("\"" + (value + "\""))) }

  lemma EqualTextIsKept(name: string, value: string)
    requires AllNameChars(name) && Free(value, "\"\\")
    ensures var text := EqualText(name, value);
      Strip(OUTSIDE, text) == text && PlaceAfter(OUTSIDE, text, true) == OUTSIDE
  {
    var quoted := "\"" + (value + "\"");
    assert name + ("=" + quoted) == name + "=" + quoted;
    assert Free(name, "\"`#") by {
      forall i | 0 <= i < |name| ensures name[i] !in "\"`#" { assert IsNameChar(name[i]); }
    }
    hide Strip, PlaceAfter;
    FreeAppend(name, "=", "\"`#");
    StripNothing(Plain, name + "=");
    LiteralIsKept(value);
    StripAppend(OUTSIDE, name + "=", quoted);
    PlaceAppend(OUTSIDE, name + "=", quoted, true);
  }

  lemma HashPlace()
    ensures PlaceAfter(OUTSIDE, " # ", true) == Comment && Strip(OUTSIDE, " # ") == " "
  {
    StripNothing(Plain, " ");
    assert " # " == " " + "# " && "# "[1..] == " " && Strip(Comment, " ") == "";
    StripAppend(OUTSIDE, " ", "# ");
    PlaceAppend(OUTSIDE, " ", "# ", true);
    assert Strip(OUTSIDE, "# ") == "" && PlaceAfter(OUTSIDE, "# ", true) == Comment;
  }

  lemma CommentedPlace()
    ensures PlaceAfter(OUTSIDE, "a=\"b\" # ", true) == Comment && Strip(OUTSIDE, "a=\"b\" # ") == "a=\"b\" "
    ensures Close("\n}", Comment, true) == 1 && Strip(Comment, "\n") == "\n"
  {
    assert "\n}"[1..] == "}" && "\n"[1..] == "";
    assert Close("\n}", Comment, true) == 1 && Strip(Comment, "\n") == "\n";
    hide Strip, PlaceAfter, Close;
    assert "a=\"b\" # " == "a=\"b\"" + " # " && "a=\"b\"" + " " == "a=\"b\" ";
    PlainText();
    EqualTextIsKept("a", "b");
    HashPlace();
    StripAppend(OUTSIDE, "a=\"b\"", " # ");
    PlaceAppend(OUTSIDE, "a=\"b\"", " # ", true);
  }

  lemma CommentedQuery()
    ensures var query := "{a=\"b\" # }\n}";
      && Leading(query) == Some(("a=\"b\" # ", "\n}")) && PlaceAfter(OUTSIDE, "a=\"b\" # ", true) == Comment
      && ParseSelector(query) == Some(([Matcher(MatchEqual, "a", "b")], ""))
  {
    hide Leading, BracedBlock, PlaceAfter, Strip, Close, ParseBlock, Free;
    CommentedText();
    CommentedPlace();
    LeadingOf("a=\"b\" # ", "\n}");
    LeadingRead("{a=\"b\" # }\n}", true);
    CommentedRest("a=\"b\" # ", "\n");
    PlainBlockReads();
  }

  lemma CommentedText()
    ensures "{a=\"b\" # }\n}" == "{" + "a=\"b\" # " + "}" + "\n}" && "\n}"[..1] == "\n" && "\n}"[2..] == ""
    ensures Free("a=\"b\" # ", "}")
  {}

  lemma EqualOperation(name: string, quoted: string)
    requires quoted != "" && quoted[0] == '"' && name != "" && AllNameChars(name)
    ensures Operation(name + ("=" + quoted)) == Some((MatchEqual, name, quoted))
  {
    var rest := "=" + quoted;
    var text := name + rest;
    assert rest[0] == '=' && rest[1] == '"' && rest[1..] == quoted && text[..|name|] == name && text[|name|..] == rest;
    assert Operator(rest) == Some((MatchEqual, quoted)) && TrimLeft(rest, IsUnicodeSpace) == rest;
    hide Operator, TrimLeft, NameLength, AllNameChars;
    NameLengthOf(name, rest);
  }

  lemma QuotedReads(value: string)
    requires Free(value, "\"\n\\")
    ensures Literal(TrimLeft("\"" + (value + "\""), IsUnicodeSpace)) == Some(value)
  {
    var quoted := "\"" + (value + "\"");
    assert TrimLeft(quoted, IsUnicodeSpace) == quoted && quoted[1..|quoted| - 1] == value;
    UnquoteIdentity(value);
    hide Unquote;
  }

  lemma EqualTextReads(name: string, value: string)
    requires name != "" && AllNameChars(name) && Free(value, "\"\n\\")
    ensures IsTrimmed(EqualText(name, value), IsUnicodeSpace)
    ensures ParseMatcher(EqualText(name, value)) == Some(Matcher(MatchEqual, name, value))
  {
    var text, quoted := EqualText(name, value), "\"" + (value + "\"");
    assert text[0] == name[0] && IsNameChar(name[0]) && text[|text| - 1] == '"';
    assert IsTrimmed(text, IsUnicodeSpace);
    hide Operation, Literal, TrimLeft, Trim, AllNameChars, Free;
    TrimTrimmed(text, IsUnicodeSpace);
    EqualOperation(name, quoted);
    QuotedReads(value);
  }

  lemma EqualTextIsOnePiece(lead: string, name: string, value: string)
    requires AllNameChars(name) && All(lead, IsUnicodeSpace) && Free(value, "\"\n\\")
    ensures var text := lead + EqualText(name, value); Split(text, Plain) == [text] && Scan(Plain, text) == Plain
  {
    var front := lead + (name + "=");
    forall i | 0 <= i < |front| ensures front[i] !in ",\"`\\" {
      if |lead| <= i < |lead| + |name| {
        assert front[i] == name[i - |lead|] && IsNameChar(name[i - |lead|]);
      } else if i < |lead| {
        assert front[i] == lead[i] && IsUnicodeSpace(lead[i]);
      }
    }
    QuotedIsOnePiece(front, value);
    assert lead + EqualText(name, value) == front + ("\"" + (value + "\""));
  }

  lemma EqualBlockReads(name: string, value: string)
    requires name != "" && AllNameChars(name) && Free(value, "\"\n\\")
    ensures EqualText(name, value) != "" && IsTrimmed(EqualText(name, value), IsUnicodeSpace)
    ensures ParseBlock(EqualText(name, value)) == Some([Matcher(MatchEqual, name, value)])
  {
    var text := EqualText(name, value);
    assert text != "" && "" + text == text;
    hide Trim, Split, Scan, ParseMatcher, EqualText, Free, AllNameChars;
    EqualTextReads(name, value);
    EqualTextIsOnePiece("", name, value);
    TrimTrimmed(text, IsUnicodeSpace);
    assert ParseAll([text]).value == [Matcher(MatchEqual, name, value)];
  }

  lemma PaddedBlock(s: string, after: string)
    requires All(after, IsUnicodeSpace)
    ensures ParseBlock(s + after) == ParseBlock(s)
  {
    assert "" + s + after == s + after;
    TrimIgnoresPadding("", s, after, IsUnicodeSpace);
    hide Trim;
  }

  lemma PlainText()
    ensures EqualText("a", "b") == "a=\"b\"" && "a=\"b\" " + "\n" == EqualText("a", "b") + " \n"
    ensures AllNameChars("a") && Free("b", "\"\n\\") && Free("b", "\"\\")
  {}

  lemma PlainBlockReads()
    ensures ParseBlock("a=\"b\" " + "\n") == Some([Matcher(MatchEqual, "a", "b")])
  {
    hide ParseBlock, EqualText, Free, AllNameChars;
    PlainText();
    EqualBlockReads("a", "b");
    PaddedBlock(EqualText("a", "b"), " \n");
  }
}
