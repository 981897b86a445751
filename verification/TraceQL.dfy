/** Scoping a TraceQL query (backend/internal/tenancy/traceql.go): the leading spanset filter becomes one
    operand of a conjunction. The result is read back with a parser in which `&&` binds tighter than `||`. */
module TraceQL {
  import opened Wrappers
  import opened Text
  import opened Alternation
  import opened Quoting
  import opened Braces
  import LogQL
  import opened PromQL

  function Conditions(clusterIDs: seq<string>, namespaces: seq<string>): seq<string> {
    ["resource.cluster =~ \"" + AlternationOf(clusterIDs) + "\""] +
    if |namespaces| > 0 then ["resource.namespace =~ \"" + AlternationOf(namespaces) + "\""] else []
  }

  function ScopeTraceQL(query: string, clusterIDs: seq<string>, namespaces: seq<string>): Result<string> {
    if clusterIDs == [] then Err("no accessible clusters for this user")
    else match Leading(query)
      case None => Err("query does not start with a TraceQL spanset filter")
      case Some((block, tail)) =>
        var existing := Trim(block, IsUnicodeSpace);
        var conditions := Conditions(clusterIDs, namespaces);
        var all := if existing != "" then ["(" + existing + ")"] + conditions else conditions;
        Ok("{ " + Join(all, " && ") + " }" + tail)
  }

  /** Which queries are refused, and how: all without a cluster, and those that do not start with braces. */
  lemma AcceptedIff(query: string, cs: seq<string>, ns: seq<string>)
    ensures ScopeTraceQL(query, cs, ns).Ok? <==> cs != [] && exists pad, block, tail :: IsLed(query, pad, block, tail)
    ensures cs == [] ==> ScopeTraceQL(query, cs, ns) == Err("no accessible clusters for this user")
    ensures cs != [] && ScopeTraceQL(query, cs, ns).Err? ==>
      ScopeTraceQL(query, cs, ns) == Err("query does not start with a TraceQL spanset filter")
  {
    hide Leading, Conditions, IsLed;
    LeadingIff(query);
  }

  /** What becomes of an accepted query: blanks in front are dropped, the trimmed block is put in parentheses, the
      conditions are pasted behind it, and the rest stays as it is. */
  lemma AcceptedText(query: string, cs: seq<string>, ns: seq<string>, pad: string, block: string, tail: string)
    requires cs != [] && IsLed(query, pad, block, tail)
    ensures
      var existing, cluster := Trim(block, IsUnicodeSpace), "resource.cluster =~ \"" + AlternationOf(cs) + "\"";
      var namespace := "resource.namespace =~ \"" + AlternationOf(ns) + "\"";
      var pasted := if ns == [] then cluster else cluster + " && " + namespace;
      ScopeTraceQL(query, cs, ns) ==
        Ok("{ " + (if existing == "" then "" else "(" + existing + ")" + " && ") + pasted + " }" + tail)
  {
    LedIsLeading(query, pad, block, tail);
    PastedText(cs, ns);
    hide Leading, IsLed, AlternationOf, Trim, Conditions;
    var existing, conditions := Trim(block, IsUnicodeSpace), Conditions(cs, ns);
    var head := "(" + existing + ")";
    assert ([head] + conditions)[1..] == conditions;
    Regrouped("{ ", head + " && ", Join(conditions, " && "));
    assert "{ " + "" + Join(conditions, " && ") == "{ " + Join(conditions, " && ");
  }

  lemma PastedText(cs: seq<string>, ns: seq<string>)
    ensures
      var cluster := "resource.cluster =~ \"" + AlternationOf(cs) + "\"";
      var namespace := "resource.namespace =~ \"" + AlternationOf(ns) + "\"";
      && Join(Conditions(cs, ns), " && ") == (if ns == [] then cluster else cluster + " && " + namespace)
      && Conditions(cs, ns) != []
  {
    var cluster := "resource.cluster =~ \"" + AlternationOf(cs) + "\"";
    var namespace := "resource.namespace =~ \"" + AlternationOf(ns) + "\"";
    hide AlternationOf;
    assert [cluster] + [] == [cluster] && [cluster] + [namespace] == [cluster, namespace];
    assert [cluster, namespace][1..] == [namespace];
    assert Join([cluster], " && ") == cluster && Join([cluster, namespace], " && ") == cluster + " && " + namespace;
  }

  /* Reading a spanset filter. */

  datatype Filter =
    | Everything
    | Condition(text: string)
    | And(left: Filter, right: Filter)
    | Or(left: Filter, right: Filter)

  predicate Meaning(f: Filter, holds: string -> bool) {
    match f
    case Everything => true
    case Condition(text) => holds(text)
    case And(l, r) => Meaning(l, holds) && Meaning(r, holds)
    case Or(l, r) => Meaning(l, holds) || Meaning(r, holds)
  }

  function Paren(m: Mode, c: char): int {
    if m == Plain && c == '(' then 1 else if m == Plain && c == ')' then -1 else 0
  }

  /** The first doubled `c` from position `i` on that is outside literals and parentheses. */
  function FindOp(s: string, i: nat, c: char, m: Mode, depth: int): (r: nat)
    requires i <= |s|
    ensures r == |s| || (i <= r && r + 2 <= |s|)
    decreases |s| - i
  {
    if i == |s| || (m == Plain && depth == 0 && i + 1 < |s| && s[i] == c && s[i + 1] == c) then i
    else FindOp(s, i + 1, c, Next(m, s[i]), depth + Paren(m, s[i]))
  }

  /** From position `i` on, literals are closed and parentheses matched, `depth` of them being open. */
  predicate Balanced(s: string, i: nat, m: Mode, depth: int)
    requires i <= |s|
    decreases |s| - i
  {
    if i == |s| then m == Plain && depth == 0
    else depth + Paren(m, s[i]) >= 0 && Balanced(s, i + 1, Next(m, s[i]), depth + Paren(m, s[i]))
  }

  predicate WellNested(s: string) { Balanced(s, 0, Plain, 0) }

  function ParseOr(s: string): Option<Filter>
    decreases |s|, 2
  {
    var i := FindOp(s, 0, '|', Plain, 0);
    if i == |s| then ParseAnd(s)
    else match (ParseAnd(s[..i]), ParseOr(s[i + 2..]))
      case (Some(l), Some(r)) => Some(Or(l, r))
      case _ => None
  }

  function ParseAnd(s: string): Option<Filter>
    decreases |s|, 1
  {
    var i := FindOp(s, 0, '&', Plain, 0);
    if i == |s| then ParseAtom(s)
    else match (ParseAtom(s[..i]), ParseAnd(s[i + 2..]))
      case (Some(l), Some(r)) => Some(And(l, r))
      case _ => None
  }

  /** A parenthesised filter, or a condition as it is written. */
  function ParseAtom(s: string): Option<Filter>
    decreases |s|, 0
  {
    var t := Trim(s, IsUnicodeSpace);
    TrimIsShorter(s);
    if t == "" then None
    else if |t| >= 2 && t[0] == '(' && t[|t| - 1] == ')' && WellNested(t[1..|t| - 1]) then ParseOr(t[1..|t| - 1])
    else Some(Condition(t))
  }

  lemma TrimIsShorter(s: string)
    ensures |Trim(s, IsUnicodeSpace)| <= |s|
  {
    var before, after := TrimParts(s, IsUnicodeSpace);
  }

  function ParseFilter(block: string): Option<Filter> {
    var s := Trim(block, IsUnicodeSpace);
    if s == "" then Some(Everything) else if WellNested(s) then ParseOr(s) else None
  }

  function ParseSpanset(query: string): Option<(Filter, string)> {
    match BracedBlock(query, false)
    case None => None
    case Some((block, tail)) =>
      match ParseFilter(block)
      case None => None
      case Some(f) => Some((f, tail))
  }

  /* Reading what was written. */

  lemma {:induction false} BalancedScans(s: string, i: nat, m: Mode, depth: int)
    requires i <= |s| && Balanced(s, i, m, depth)
    ensures Scan(m, s[i..]) == Plain
    decreases |s| - i
  {
    if i < |s| { BalancedScans(s, i + 1, Next(m, s[i]), depth + Paren(m, s[i])); }
  }

  /** Reading a text from `i` on is reading its suffix. */
  lemma {:induction false} Shift(s: string, j: nat, i: nat, c: char, m: Mode, depth: int)
    requires j <= i <= |s|
    ensures FindOp(s, i, c, m, depth) == j + FindOp(s[j..], i - j, c, m, depth)
    ensures Balanced(s, i, m, depth) <==> Balanced(s[j..], i - j, m, depth)
    decreases |s| - i
  {
    if i < |s| { Shift(s, j, i + 1, c, Next(m, s[i]), depth + Paren(m, s[i])); }
  }

  /** The stretch of `s` from `i` on is `part`. */
  predicate At(s: string, i: nat, part: string) {
    i + |part| <= |s| && forall k | 0 <= k < |part| :: s[i + k] == part[k]
  }

  /** From `i` to `j` there is nothing to see: reading on from `j` gives the same. */
  ghost predicate Same(s: string, i: nat, m: Mode, depth: int, j: nat, to: Mode, depth': int, c: char)
    requires i <= |s| && j <= |s|
  {
    FindOp(s, i, c, m, depth) == FindOp(s, j, c, to, depth') &&
      (Balanced(s, i, m, depth) <==> Balanced(s, j, to, depth'))
  }

  /** Inside at least one parenthesis a balanced text hides its operators. */
  lemma {:induction false} SkipBalanced(s: string, i: nat, part: string, k: nat, c: char, m: Mode, depth: nat)
    requires At(s, i, part) && k <= |part| && Balanced(part, k, m, depth)
    ensures Same(s, i + k, m, depth + 1, i + |part|, Plain, 1, c)
    decreases |part| - k
  {
    if k < |part| { SkipBalanced(s, i, part, k + 1, c, Next(m, part[k]), depth + Paren(m, part[k])); }
  }

  /** Text without operators or parentheses, or inside a literal, is passed over. */
  lemma {:induction false} Skip(s: string, i: nat, j: nat, c: char, m: Mode)
    requires i <= j <= |s| && forall k | i <= k < j :: s[k] !in "\"`\\"
    requires m == InString || (m == Plain && forall k | i <= k < j :: s[k] !in "()" && s[k] != c)
    ensures Same(s, i, m, 0, j, m, 0, c)
    decreases j - i
  {
    if i < j { Skip(s, i + 1, j, c, m); }
  }

  /** A regular-expression match as the rewrite prints it. */
  ghost predicate IsCondition(c: string) {
    exists name, p :: name != "" && LogQL.AllNameChars(name) && Free(p, "\"\n\\{}()`") &&
      c == LogQL.RegexText(name, " ", p)
  }

  lemma ConditionShape(c: string)
    requires IsCondition(c)
    ensures c != "" && c[0] != '(' && IsTrimmed(c, IsUnicodeSpace) && Free(c, "}")
  {
    var name, p :| name != "" && LogQL.AllNameChars(name) && Free(p, "\"\n\\{}()`") &&
      c == LogQL.RegexText(name, " ", p);
    assert c[0] == name[0] && c[|c| - 1] == '"';
    forall i | 0 <= i < |p| ensures p[i] != '}' { assert p[i] !in "\"\n\\{}()`"; }
    forall i | 0 <= i < |name| ensures name[i] != '}' { assert LogQL.IsNameChar(name[i]); }
  }

  lemma SkipRegexText(s: string, i: nat, name: string, p: string, c: char)
    requires LogQL.AllNameChars(name) && Free(p, "\"\n\\{}()`") && c in "|&"
    requires At(s, i, LogQL.RegexText(name, " ", p))
    ensures Same(s, i, Plain, 0, i + |LogQL.RegexText(name, " ", p)|, Plain, 0, c)
  {
    var text := LogQL.RegexText(name, " ", p);
    assert text == name + " =~ \"" + p + "\"";
    var q := |name| + 4;
    var e := q + 1 + |p|;
    assert text[q] == '"' && text[e] == '"' && |text| == e + 1;
    forall k | 0 <= k < q ensures text[k] !in "\"`\\()" && text[k] != c {
      if k < |name| { assert text[k] == name[k]; }
    }
    forall k | q < k < e ensures text[k] !in "\"`\\" { assert text[k] == p[k - q - 1]; }
    forall k | i <= k < i + q ensures s[k] !in "\"`\\()" && s[k] != c { assert s[i + (k - i)] == text[k - i]; }
    forall k | i + q < k < i + e ensures s[k] !in "\"`\\" { assert s[i + (k - i)] == text[k - i]; }
    Skip(s, i, i + q, c, Plain);
    Skip(s, i + q + 1, i + e, c, InString);
  }

  lemma SkipCondition(s: string, i: nat, condition: string, c: char)
    requires IsCondition(condition) && c in "|&" && At(s, i, condition)
    ensures Same(s, i, Plain, 0, i + |condition|, Plain, 0, c)
  {
    var name, p :| name != "" && LogQL.AllNameChars(name) && Free(p, "\"\n\\{}()`") &&
      condition == LogQL.RegexText(name, " ", p);
    SkipRegexText(s, i, name, p, c);
  }

  lemma AtomReads(lead: string, condition: string, after: string)
    requires lead in ["", " "] && after in ["", " "] && IsCondition(condition)
    ensures ParseAtom(lead + condition + after) == Some(Condition(condition))
  {
    ConditionShape(condition);
    TrimPadded(lead, condition, after, IsUnicodeSpace);
  }

  function AndAll(conditions: seq<string>): Filter
    requires conditions != []
  {
    if |conditions| == 1 then Condition(conditions[0]) else And(Condition(conditions[0]), AndAll(conditions[1..]))
  }

  lemma {:induction false} AndAllMeans(conditions: seq<string>, holds: string -> bool)
    requires conditions != []
    ensures Meaning(AndAll(conditions), holds) <==> forall c | c in conditions :: holds(c)
  {
    if |conditions| > 1 {
      AndAllMeans(conditions[1..], holds);
      assert conditions == [conditions[0]] + conditions[1..];
    }
  }

  /** Optional space, then a condition. */
  lemma SkipLed(s: string, lead: string, condition: string, c: char)
    requires IsCondition(condition) && lead in ["", " "] && c in "|&" && At(s, 0, lead + condition)
    ensures Same(s, 0, Plain, 0, |lead| + |condition|, Plain, 0, c)
  {
    assert At(s, |lead|, condition) by {
      forall k | 0 <= k < |condition| ensures s[|lead| + k] == condition[k] {
        assert s[0 + (|lead| + k)] == (lead + condition)[|lead| + k];
      }
    }
    assert lead == " " ==> s[0] == (lead + condition)[0];
    Skip(s, 0, |lead|, c, Plain);
    SkipCondition(s, |lead|, condition, c);
  }

  lemma OneCondition(lead: string, first: string)
    requires IsCondition(first) && lead in ["", " "]
    ensures ParseAnd(lead + first) == Some(Condition(first))
    ensures FindOp(lead + first, 0, '|', Plain, 0) == |lead + first| && WellNested(lead + first)
  {
    SkipLed(lead + first, lead, first, '|');
    SkipLed(lead + first, lead, first, '&');
    AtomReads(lead, first, "");
    assert lead + first + "" == lead + first;
  }

  /** At an `&&` followed by `right`, itself free of `||`. */
  lemma AtAnd(text: string, i: nat, right: string)
    requires i + 3 <= |text| && text[i] == ' ' && text[i + 1] == '&' && text[i + 2] == '&' && text[i + 3..] == right
    requires FindOp(right, 0, '|', Plain, 0) == |right| && WellNested(right)
    ensures FindOp(text, i, '&', Plain, 0) == i + 1 && FindOp(text, i, '|', Plain, 0) == |text| &&
      Balanced(text, i, Plain, 0)
  {
    assert FindOp(text, i + 1, '&', Plain, 0) == i + 1;
    Skip(text, i, i + 3, '|', Plain);
    Shift(text, i + 3, i + 3, '|', Plain, 0);
  }

  lemma ManyScan(lead: string, first: string, right: string)
    requires IsCondition(first) && lead in ["", " "]
    requires FindOp(right, 0, '|', Plain, 0) == |right| && WellNested(right)
    ensures var text := lead + first + " " + ("&&" + right);
      FindOp(text, 0, '|', Plain, 0) == |text| && FindOp(text, 0, '&', Plain, 0) == |lead| + |first| + 1 &&
        WellNested(text)
  {
    var text := lead + first + " " + ("&&" + right);
    var n := |lead| + |first|;
    assert At(text, 0, lead + first);
    SkipLed(text, lead, first, '|');
    SkipLed(text, lead, first, '&');
    AtAnd(text, n, right);
  }

  lemma ManyConditions(lead: string, first: string, right: string, others: Filter)
    requires IsCondition(first) && lead in ["", " "]
    requires ParseAnd(right) == Some(others) && FindOp(right, 0, '|', Plain, 0) == |right| && WellNested(right)
    ensures var text := lead + first + " " + ("&&" + right);
      ParseAnd(text) == Some(And(Condition(first), others)) && FindOp(text, 0, '|', Plain, 0) == |text| &&
        WellNested(text)
  {
    ManyScan(lead, first, right);
    AtomReads(lead, first, " ");
    AndSplits(lead + first + " ", right);
  }

  lemma {:induction false} ConditionsJoined(lead: string, conditions: seq<string>)
    requires conditions != [] && forall c | c in conditions :: IsCondition(c)
    requires lead in ["", " "]
    ensures ParseAnd(lead + Join(conditions, " && ")) == Some(AndAll(conditions))
    ensures FindOp(lead + Join(conditions, " && "), 0, '|', Plain, 0) == |lead + Join(conditions, " && ")|
    ensures WellNested(lead + Join(conditions, " && "))
    decreases |conditions|
  {
    var first := conditions[0];
    if |conditions| == 1 {
      OneCondition(lead, first);
    } else {
      var rest := Join(conditions[1..], " && ");
      ConditionsJoined(" ", conditions[1..]);
      ManyConditions(lead, first, " " + rest, AndAll(conditions[1..]));
      JoinedText(lead, first, rest);
    }
  }

  lemma JoinedText(lead: string, first: string, rest: string)
    ensures lead + (first + " && " + rest) == lead + first + " " + ("&&" + (" " + rest))
  {}

  /** A text whose first `&&` is where it shows. */
  lemma AndSplits(left: string, right: string)
    requires FindOp(left + ("&&" + right), 0, '&', Plain, 0) == |left|
    ensures ParseAnd(left + ("&&" + right)) == match (ParseAtom(left), ParseAnd(right))
      case (Some(l), Some(r)) => Some(And(l, r))
      case _ => None
  {
    var text := left + ("&&" + right);
    assert text[..|left|] == left && text[|left| + 2..] == right;
  }

  lemma SkipParentheses(text: string, existing: string, c: char)
    requires WellNested(existing) && c in "|&"
    requires |text| >= |existing| + 2 && text[0] == '(' && text[|existing| + 1] == ')' && At(text, 1, existing)
    ensures Same(text, 0, Plain, 0, |existing| + 2, Plain, 0, c)
  {
    var n := |existing| + 1;
    assert Same(text, 0, Plain, 0, 1, Plain, 1, c);
    SkipBalanced(text, 1, existing, 0, c, Plain, 0);
    assert Same(text, n, Plain, 1, n + 1, Plain, 0, c);
  }

  predicate Pasteable(names: seq<string>) { forall n | n in names :: Safe(n) && Free(n, "`") }

  function ClusterCondition(cs: seq<string>): string { LogQL.RegexText("resource.cluster", " ", AlternationOf(cs)) }

  function NamespaceCondition(ns: seq<string>): string { LogQL.RegexText("resource.namespace", " ", AlternationOf(ns)) }

  lemma PatternIsPasteable(names: seq<string>)
    requires Pasteable(names)
    ensures Free(AlternationOf(names), "\"\n\\{}()`") && Free(AlternationOf(names), "\"\n\\")
  {
    PatternIsOrdinary(names, "`");
    PatternSurvivesQuoting(names);
    UnquoteIdentity(AlternationOf(names));
  }

  lemma ConditionOf(name: string, p: string)
    requires name != "" && LogQL.AllNameChars(name) && Free(p, "\"\n\\{}()`")
    ensures IsCondition(LogQL.RegexText(name, " ", p))
  {}

  /** The injected conditions read as the same regular-expression matches the other rewrites inject. */
  lemma InjectedConditionsRead(cs: seq<string>, ns: seq<string>)
    requires Pasteable(cs) && Pasteable(ns)
    ensures LogQL.ParseMatcher(ClusterCondition(cs)) ==
      Some(Matcher(MatchRegexp, "resource.cluster", AlternationOf(cs)))
    ensures LogQL.ParseMatcher(NamespaceCondition(ns)) ==
      Some(Matcher(MatchRegexp, "resource.namespace", AlternationOf(ns)))
  {
    assert LogQL.AllNameChars("resource.cluster") && LogQL.AllNameChars("resource.namespace");
    PatternIsPasteable(cs);
    PatternIsPasteable(ns);
    LogQL.RegexTextReads("resource.cluster", " ", AlternationOf(cs));
    LogQL.RegexTextReads("resource.namespace", " ", AlternationOf(ns));
  }

  lemma ConditionsShape(cs: seq<string>, ns: seq<string>)
    ensures Conditions(cs, ns) == [ClusterCondition(cs)] + if ns == [] then [] else [NamespaceCondition(ns)]
  {
    var p, q := AlternationOf(cs), AlternationOf(ns);
    assert ClusterCondition(cs) == "resource.cluster" + " =~ \"" + p + "\"";
    assert NamespaceCondition(ns) == "resource.namespace" + " =~ \"" + q + "\"";
    assert "resource.cluster =~ \"" == "resource.cluster" + " =~ \"";
    assert "resource.namespace =~ \"" == "resource.namespace" + " =~ \"";
  }

  lemma ConditionsAreConditions(cs: seq<string>, ns: seq<string>)
    requires Pasteable(cs) && Pasteable(ns)
    ensures forall c | c in Conditions(cs, ns) :: IsCondition(c)
  {
    ConditionsShape(cs, ns);
    assert LogQL.AllNameChars("resource.cluster") && LogQL.AllNameChars("resource.namespace");
    PatternIsPasteable(cs);
    PatternIsPasteable(ns);
    ConditionOf("resource.cluster", AlternationOf(cs));
    ConditionOf("resource.namespace", AlternationOf(ns));
  }

  /** What the rewrite puts between the braces. */
  function Body(existing: string, conditions: seq<string>): string {
    Join(if existing != "" then ["(" + existing + ")"] + conditions else conditions, " && ")
  }

  lemma {:induction false} JoinedShape(conditions: seq<string>)
    requires conditions != [] && forall c | c in conditions :: IsCondition(c)
    ensures var text := Join(conditions, " && ");
      text != "" && !IsUnicodeSpace(text[0]) && !IsUnicodeSpace(text[|text| - 1]) && Free(text, "}")
  {
    ConditionShape(conditions[0]);
    if |conditions| > 1 {
      JoinedShape(conditions[1..]);
      var rest := Join(conditions[1..], " && ");
      FreeAppend(conditions[0] + " && ", rest, "}");
      FreeAppend(conditions[0], " && ", "}");
    }
  }

  lemma BodyShape(existing: string, conditions: seq<string>)
    requires conditions != [] && existing != ""
    ensures Body(existing, conditions) == "(" + existing + ")" + " && " + Join(conditions, " && ")
  {
    var all := ["(" + existing + ")"] + conditions;
    assert all[1..] == conditions;
  }

  lemma BodyEnds(existing: string, conditions: seq<string>)
    requires conditions != [] && forall c | c in conditions :: IsCondition(c)
    ensures var body := Body(existing, conditions); body != "" && IsTrimmed(body, IsUnicodeSpace)
    ensures Free(existing, "}") ==> Free(Body(existing, conditions), "}")
  {
    JoinedShape(conditions);
    var joined := Join(conditions, " && ");
    if existing != "" {
      BodyShape(existing, conditions);
      FreeAppend("(" + existing + ")" + " && ", joined, "}");
      FreeAppend("(" + existing + ")", " && ", "}");
      FreeAppend("(" + existing, ")", "}");
      FreeAppend("(", existing, "}");
    }
  }

  lemma TrimmedBlock(block: string)
    requires Free(block, "}")
    ensures var existing := Trim(block, IsUnicodeSpace);
      Free(existing, "}") && IsTrimmed(existing, IsUnicodeSpace) && ParseFilter(existing) == ParseFilter(block)
  {
    var existing := Trim(block, IsUnicodeSpace);
    var before, after := TrimParts(block, IsUnicodeSpace);
    TrimTrimmed(existing, IsUnicodeSpace);
    FreeAppend(before + existing, after, "}");
    FreeAppend(before, existing, "}");
  }
}
