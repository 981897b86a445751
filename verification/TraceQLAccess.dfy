/** What the rewritten TraceQL query gives access to (backend/internal/tenancy/traceql.go): for any text that the code
    accepts, well formed or not, and for the spansets that follow the first one. */
module TraceQLAccess {
  import opened Wrappers
  import opened Text
  import opened Alternation
  import opened Quoting
  import opened Braces
  import LogQL
  import opened PromQLMeaning
  import opened TraceQL
  import Regex

  /* What the output means for any query the code accepts, whether its first filter is well formed or not: the
     existing text may close the parenthesis that the rewrite opens. */

  /** The pieces between the `||`s outside literals and parentheses. */
  function Disjuncts(s: string): (r: seq<string>)
    ensures r != []
    decreases |s|
  {
    var i := FindOp(s, 0, '|', Plain, 0);
    if i == |s| then [s] else [s[..i]] + Disjuncts(s[i + 2..])
  }

  predicate Accepts(piece: string, holds: string -> bool) {
    match ParseAnd(piece)
    case None => false
    case Some(f) => Meaning(f, holds)
  }

  ghost predicate AllRead(pieces: seq<string>) { forall d | d in pieces :: ParseAnd(d).Some? }

  lemma EitherAccepts(first: string, others: seq<string>, holds: string -> bool)
    ensures (exists d | d in [first] + others :: Accepts(d, holds)) <==>
      Accepts(first, holds) || exists d | d in others :: Accepts(d, holds)
  {
    assert first in [first] + others;
    assert forall d | d in others :: d in [first] + others;
  }

  /** A text reads when all its disjuncts do, and means that one of them holds. */
  lemma {:induction false} OrReads(s: string, holds: string -> bool)
    ensures ParseOr(s).Some? <==> AllRead(Disjuncts(s))
    ensures ParseOr(s).Some? ==>
      (Meaning(ParseOr(s).value, holds) <==> exists d | d in Disjuncts(s) :: Accepts(d, holds))
    decreases |s|
  {
    var i := FindOp(s, 0, '|', Plain, 0);
    if i < |s| {
      OrReads(s[i + 2..], holds);
      assert Disjuncts(s)[0] == s[..i] && Disjuncts(s)[1..] == Disjuncts(s[i + 2..]);
      assert forall d :: d in Disjuncts(s) <==> d == s[..i] || d in Disjuncts(s[i + 2..]);
      if ParseOr(s).Some? { EitherAccepts(s[..i], Disjuncts(s[i + 2..]), holds); }
    } else {
      assert s in Disjuncts(s);
    }
  }

  /** In a balanced text the operator that is found splits it into balanced texts. */
  lemma {:induction false} SplitBalanced(s: string, k: nat, c: char, m: Mode, depth: nat)
    requires k <= |s| && Balanced(s, k, m, depth) && c in "|&" && FindOp(s, k, c, m, depth) < |s|
    ensures var i := FindOp(s, k, c, m, depth); Balanced(s[..i], k, m, depth) && Balanced(s, i + 2, Plain, 0)
    decreases |s| - k
  {
    var i := FindOp(s, k, c, m, depth);
    if i == k {
      assert Next(Plain, c) == Plain && Paren(Plain, c) == 0;
    } else {
      SplitBalanced(s, k + 1, c, Next(m, s[k]), depth + Paren(m, s[k]));
    }
  }

  lemma SplitWellNested(s: string, c: char)
    requires WellNested(s) && c in "|&" && FindOp(s, 0, c, Plain, 0) < |s|
    ensures var i := FindOp(s, 0, c, Plain, 0); WellNested(s[..i]) && WellNested(s[i + 2..])
  {
    var i := FindOp(s, 0, c, Plain, 0);
    SplitBalanced(s, 0, c, Plain, 0);
    Shift(s, i + 2, i + 2, c, Plain, 0);
  }

  /** Text after a balanced one does not change what is found in it. */
  lemma {:induction false} FindInFront(s: string, right: string, k: nat, c: char, m: Mode, depth: nat)
    requires k <= |s| && Balanced(s, k, m, depth) && right != "" && right[0] != c
    ensures FindOp(s + right, k, c, m, depth)
      == if FindOp(s, k, c, m, depth) < |s| then FindOp(s, k, c, m, depth) else FindOp(s + right, |s|, c, Plain, 0)
    decreases |s| - k
  {
    if k < |s| && !(m == Plain && depth == 0 && k + 1 < |s| && s[k] == c && s[k + 1] == c) {
      FindInFront(s, right, k + 1, c, Next(m, s[k]), depth + Paren(m, s[k]));
    }
  }

  lemma FindAcross(s: string, right: string, c: char)
    requires WellNested(s) && right != "" && right[0] != c
    ensures FindOp(s + right, 0, c, Plain, 0)
      == if FindOp(s, 0, c, Plain, 0) < |s| then FindOp(s, 0, c, Plain, 0) else |s| + FindOp(right, 0, c, Plain, 0)
  {
    FindInFront(s, right, 0, c, Plain, 0);
    Shift(s + right, |s|, |s|, c, Plain, 0);
    assert (s + right)[|s|..] == right;
  }

  /** The injected conjunction as it follows the existing text. */
  function Injection(conditions: seq<string>): string { " && " + Join(conditions, " && ") }

  lemma AtomTrimmed(s: string)
    ensures ParseAtom(s + " ") == ParseAtom(s)
  {
    TrimSpaceAfter(s);
  }

  lemma {:induction false} TrimSpaceAfter(s: string)
    ensures Trim(s + " ", IsUnicodeSpace) == Trim(s, IsUnicodeSpace)
    decreases |s|
  {
    if s == "" {
      assert s + " " == " " && " "[1..] == "";
    } else if IsUnicodeSpace(s[0]) {
      assert (s + " ")[1..] == s[1..] + " ";
      TrimSpaceAfter(s[1..]);
    } else {
      assert (s + " ")[..|s|] == s;
    }
  }

  /** What the conditions mean, wherever they stand. */
  ghost predicate HoldAll(conditions: seq<string>, holds: string -> bool) { forall c | c in conditions :: holds(c) }

  lemma InjectionReads(conditions: seq<string>, holds: string -> bool)
    requires conditions != [] && forall c | c in conditions :: IsCondition(c)
    ensures var right := " " + Join(conditions, " && ");
      && Injection(conditions) == " " + ("&&" + right) && ParseAnd(right) == Some(AndAll(conditions))
      && FindOp(Injection(conditions), 0, '&', Plain, 0) == 1
      && FindOp(Injection(conditions), 0, '|', Plain, 0) == |Injection(conditions)|
      && WellNested(Injection(conditions))
      && (Meaning(AndAll(conditions), holds) <==> HoldAll(conditions, holds))
  {
    var right := " " + Join(conditions, " && ");
    ConditionsJoined(" ", conditions);
    AndAllMeans(conditions, holds);
    assert Injection(conditions) == " " + ("&&" + right);
    assert Injection(conditions)[3..] == right;
    AtAnd(Injection(conditions), 0, right);
  }

  predicate AcceptsAtom(piece: string, holds: string -> bool) {
    match ParseAtom(piece)
    case None => false
    case Some(f) => Meaning(f, holds)
  }

  lemma AndUnfolds(s: string, holds: string -> bool)
    ensures var i := FindOp(s, 0, '&', Plain, 0);
      if i < |s|
      then (ParseAnd(s).Some? <==> ParseAtom(s[..i]).Some? && ParseAnd(s[i + 2..]).Some?)
        && (Accepts(s, holds) <==> AcceptsAtom(s[..i], holds) && Accepts(s[i + 2..], holds))
      else (ParseAnd(s).Some? <==> ParseAtom(s).Some?) && (Accepts(s, holds) <==> AcceptsAtom(s, holds))
  {}

  lemma SameAtom(d: string, holds: string -> bool)
    ensures AcceptsAtom(d + " ", holds) <==> AcceptsAtom(d, holds)
  {
    AtomTrimmed(d);
  }

  lemma SplitAcross(d: string, inj: string, i: nat)
    requires i + 2 <= |d|
    ensures (d + inj)[..i] == d[..i] && (d + inj)[i + 2..] == d[i + 2..] + inj
  {}

  /** The conditions after one atom. */
  lemma AtomConjoined(d: string, right: string, holds: string -> bool)
    requires FindOp(d, 0, '&', Plain, 0) == |d| && FindOp(d + (" " + ("&&" + right)), 0, '&', Plain, 0) == |d| + 1
    ensures var text := d + (" " + ("&&" + right));
      && (ParseAnd(text).Some? <==> ParseAnd(d).Some? && ParseAnd(right).Some?)
      && (Accepts(text, holds) <==> Accepts(d, holds) && Accepts(right, holds))
  {
    var text := d + (" " + ("&&" + right));
    assert text[..|d| + 1] == d + " " && text[|d| + 3..] == right;
    AndUnfolds(d, holds);
    AndUnfolds(text, holds);
    hide FindOp, Accepts, ParseAnd, ParseAtom;
    AtomTrimmed(d);
    SameAtom(d, holds);
  }

  /** The conditions after a conjunction. */
  lemma {:induction false} AndConjoined(d: string, conditions: seq<string>, holds: string -> bool)
    requires WellNested(d) && conditions != [] && forall c | c in conditions :: IsCondition(c)
    ensures ParseAnd(d + Injection(conditions)).Some? <==> ParseAnd(d).Some?
    ensures Accepts(d + Injection(conditions), holds) <==> Accepts(d, holds) && HoldAll(conditions, holds)
    decreases |d|
  {
    var right, inj := " " + Join(conditions, " && "), Injection(conditions);
    InjectionReads(conditions, holds);
    assert Accepts(right, holds) <==> HoldAll(conditions, holds);
    hide HoldAll, AndAll, IsCondition, Injection, WellNested, Accepts, AcceptsAtom, ParseAnd, ParseAtom, FindOp, Join;
    FindAcross(d, inj, '&');
    var i := FindOp(d, 0, '&', Plain, 0);
    if i < |d| {
      SplitWellNested(d, '&');
      AndUnfolds(d, holds);
      AndUnfolds(d + inj, holds);
      AndConjoined(d[i + 2..], conditions, holds);
      SplitAcross(d, inj, i);
    } else {
      AtomConjoined(d, right, holds);
    }
  }

  lemma DisjunctsUnfold(s: string)
    ensures var i := FindOp(s, 0, '|', Plain, 0);
      Disjuncts(s) == if i == |s| then [s] else [s[..i]] + Disjuncts(s[i + 2..])
  {
    hide FindOp;
  }

  /** The conditions become part of the last disjunct. */
  lemma {:induction false} LastDisjunct(s: string, conditions: seq<string>)
    requires WellNested(s) && conditions != [] && forall c | c in conditions :: IsCondition(c)
    ensures var ds, n := Disjuncts(s), |Disjuncts(s)| - 1;
      Disjuncts(s + Injection(conditions)) == ds[..n] + [ds[n] + Injection(conditions)] && WellNested(ds[n])
    decreases |s|
  {
    hide HoldAll, AndAll, IsCondition, Injection, WellNested, FindOp, Disjuncts, Meaning, ParseAnd, Join;
    var inj := Injection(conditions);
    InjectionReads(conditions, _ => true);
    FindAcross(s, inj, '|');
    DisjunctsUnfold(s);
    DisjunctsUnfold(s + inj);
    var i := FindOp(s, 0, '|', Plain, 0);
    if i < |s| {
      SplitWellNested(s, '|');
      LastDisjunct(s[i + 2..], conditions);
      SplitAcross(s, inj, i);
    }
  }

  lemma {:induction false} FlatBalanced(s: string, i: nat, m: Mode, depth: nat)
    requires i <= |s| && Free(s, "()")
    ensures Balanced(s, i, m, depth) <==> depth == 0 && Scan(m, s[i..]) == Plain
    decreases |s| - i
  {
    if i < |s| {
      assert s[i] !in "()" && s[i..][1..] == s[i + 1..];
      FlatBalanced(s, i + 1, Next(m, s[i]), depth);
    }
  }

  /** Text without parentheses neither mends nor breaks the nesting of what stands in front of it. */
  lemma {:induction false} BalancedInFront(s: string, right: string, k: nat, m: Mode, depth: nat)
    requires k <= |s| && Scan(m, s[k..]) == Plain && Free(right, "()") && Scan(Plain, right) == Plain
    ensures Balanced(s + right, k, m, depth) <==> Balanced(s, k, m, depth)
    decreases |s| - k
  {
    if k == |s| {
      assert (s + right)[k..] == right;
      FlatBalanced(right, 0, Plain, depth);
      assert right[0..] == right;
      Shift(s + right, k, k, '|', Plain, depth);
    } else if depth + Paren(m, s[k]) >= 0 {
      assert s[k..][1..] == s[k + 1..];
      BalancedInFront(s, right, k + 1, Next(m, s[k]), depth + Paren(m, s[k]));
    }
  }

  /** A condition holds no parenthesis, no backquote and no brace. */
  lemma ConditionFree(c: string, bad: string)
    requires IsCondition(c) && bad in ["()", "`", "}"]
    ensures Free(c, bad)
  {
    var name, p :| name != "" && LogQL.AllNameChars(name) && Free(p, "\"\n\\{}()`") &&
      c == LogQL.RegexText(name, " ", p);
    assert c == name + (" =~ \"" + (p + "\""));
    assert Free(name, bad) by {
      forall i | 0 <= i < |name| ensures name[i] !in bad { assert LogQL.IsNameChar(name[i]); }
    }
    assert Free(p, bad) by { forall i | 0 <= i < |p| ensures p[i] !in bad { assert p[i] !in "\"\n\\{}()`"; } }
    FreeAppend(name, " =~ \"" + (p + "\""), bad);
    FreeAppend(" =~ \"", p + "\"", bad);
    FreeAppend(p, "\"", bad);
  }

  lemma {:induction false} InjectionFree(conditions: seq<string>, bad: string)
    requires conditions != [] && (forall c | c in conditions :: IsCondition(c)) && bad in ["()", "`", "}"]
    ensures Free(Injection(conditions), bad)
  {
    ConditionFree(conditions[0], bad);
    FreeAppend(" && ", Join(conditions, " && "), bad);
    if |conditions| > 1 {
      InjectionFree(conditions[1..], bad);
      FreeAppend(conditions[0], Injection(conditions[1..]), bad);
      assert Join(conditions, " && ") == conditions[0] + Injection(conditions[1..]);
    }
  }

  function Enclosed(existing: string): string { "(" + existing + ")" }

  /** The disjuncts that the user's text closes off in front of the last one, which the conditions follow. */
  function Earlier(existing: string): seq<string> {
    if existing == "" then [] else var ds := Disjuncts(Enclosed(existing)); ds[..|ds| - 1]
  }

  predicate AcceptsLast(existing: string, holds: string -> bool) {
    existing == "" || var ds := Disjuncts(Enclosed(existing)); Accepts(ds[|ds| - 1], holds)
  }

  predicate Reads(existing: string) {
    existing == "" || (WellNested(Enclosed(existing)) && ParseOr(Enclosed(existing)).Some?)
  }

  lemma LastOf(front: seq<string>, last: string, holds: string -> bool)
    ensures AllRead(front + [last]) <==> AllRead(front) && ParseAnd(last).Some?
    ensures (exists d | d in front + [last] :: Accepts(d, holds)) <==>
      (exists d | d in front :: Accepts(d, holds)) || Accepts(last, holds)
  {
    assert forall d :: d in front + [last] <==> d in front || d == last;
  }

  /** The conditions neither mend nor break the nesting. */
  lemma EnclosedNests(e: string, conditions: seq<string>)
    requires Scan(Plain, e) == Plain
    requires conditions != [] && forall c | c in conditions :: IsCondition(c)
    ensures WellNested(e + Injection(conditions)) <==> WellNested(e)
  {
    hide Balanced, Scan, Injection, IsCondition;
    InjectionFree(conditions, "()");
    InjectionCloses(conditions);
    assert e[0..] == e;
    BalancedInFront(e, Injection(conditions), 0, Plain, 0);
  }

  /** The conditions restrict the last disjunct and no other. */
  lemma DisjunctsConjoined(e: string, conditions: seq<string>, holds: string -> bool)
    requires WellNested(e) && conditions != [] && forall c | c in conditions :: IsCondition(c)
    ensures
      var text, ds, n := e + Injection(conditions), Disjuncts(e), |Disjuncts(e)| - 1;
      && (ParseOr(text).Some? <==> ParseOr(e).Some?)
      && (ParseOr(text).Some? ==> (Meaning(ParseOr(text).value, holds) <==>
            (exists d | d in ds[..n] :: Accepts(d, holds)) || (Accepts(ds[n], holds) && HoldAll(conditions, holds))))
  {
    hide Balanced, ParseOr, Disjuncts, Injection, Accepts, AllRead, HoldAll, Meaning, IsCondition, FindOp, ParseAnd,
      Join, WellNested;
    var inj, ds := Injection(conditions), Disjuncts(e);
    var n := |ds| - 1;
    LastDisjunct(e, conditions);
    AndConjoined(ds[n], conditions, holds);
    OrReads(e + inj, holds);
    OrReads(e, holds);
    LastOf(ds[..n], ds[n], holds);
    LastOf(ds[..n], ds[n] + inj, holds);
    assert ds == ds[..n] + [ds[n]];
  }

  /** The parenthesised text with the conditions after it. */
  lemma EnclosedReads(existing: string, conditions: seq<string>, holds: string -> bool)
    requires existing != "" && Scan(Plain, Enclosed(existing)) == Plain
    requires conditions != [] && forall c | c in conditions :: IsCondition(c)
    ensures var text := Enclosed(existing) + Injection(conditions);
      && (WellNested(text) && ParseOr(text).Some? <==> Reads(existing))
      && (Reads(existing) ==> (Meaning(ParseOr(text).value, holds) <==>
            (exists d | d in Earlier(existing) :: Accepts(d, holds)) ||
            (AcceptsLast(existing, holds) && HoldAll(conditions, holds))))
  {
    var e := Enclosed(existing);
    hide Scan, Enclosed, Injection, IsCondition, WellNested, ParseOr, Disjuncts, Accepts, HoldAll, Meaning;
    EnclosedNests(e, conditions);
    if WellNested(e) { DisjunctsConjoined(e, conditions, holds); }
  }

  lemma InjectionCloses(conditions: seq<string>)
    requires conditions != [] && forall c | c in conditions :: IsCondition(c)
    ensures Scan(Plain, Injection(conditions)) == Plain
  {
    InjectionReads(conditions, _ => true);
    hide Injection;
    BalancedScans(Injection(conditions), 0, Plain, 0);
    assert Injection(conditions)[0..] == Injection(conditions);
  }

  /** Braces around a padded filter whose literals are closed. */
  lemma BracedReads(body: string, tail: string)
    requires body != "" && IsTrimmed(body, IsUnicodeSpace) && Scan(Plain, body) == Plain && Free(body, "}")
    ensures ParseSpanset("{ " + body + " }" + tail)
      == if WellNested(body) && ParseOr(body).Some? then Some((ParseOr(body).value, tail)) else None
  {
    PaddedScan(body);
    OutputText(body, tail);
    hide Scan, Trim, Free, BracedBlock, WellNested, ParseOr, PlaceAfter;
    TrimPadded(" ", body, " ", IsUnicodeSpace);
    BracesRead(" " + body + " ", tail, false);
  }

  lemma PaddedScan(body: string)
    requires Scan(Plain, body) == Plain && Free(body, "}")
    ensures Free(" " + body + " ", "}") && PlaceAfter(OUTSIDE, " " + body + " ", false) == OUTSIDE
  {
    assert Scan(Plain, " ") == Plain && Free(" ", "}");
    hide Scan, Free, PlaceAfter;
    ScanAppend(Plain, " " + body, " ");
    ScanAppend(Plain, " ", body);
    FreeAppend(" " + body, " ", "}");
    FreeAppend(" ", body, "}");
    PlaceIsScan(Plain, " " + body + " ");
  }

  lemma OutputText(body: string, tail: string)
    ensures "{ " + body + " }" + tail == "{" + (" " + body + " ") + "}" + tail
  {}

  /** What the rewrite puts between the braces. */
  function Padded(block: string, cs: seq<string>, ns: seq<string>): string {
    " " + Body(Trim(block, IsUnicodeSpace), Conditions(cs, ns)) + " "
  }

  /** The output, and how a reader finds its braces. */
  lemma OutputBraces(query: string, cs: seq<string>, ns: seq<string>)
    requires cs != [] && Pasteable(cs) && Pasteable(ns) && Leading(query).Some?
    ensures ScopeTraceQL(query, cs, ns).Ok?
    ensures var (block, tail) := Leading(query).value;
      BracedBlock(ScopeTraceQL(query, cs, ns).value, false) == ReadOn(Padded(block, cs, ns), tail, false)
  {
    var (block, tail) := Leading(query).value;
    var body := Body(Trim(block, IsUnicodeSpace), Conditions(cs, ns));
    ConditionsShape(cs, ns);
    LeadingText(query);
    TrimmedBlock(block);
    ConditionsAreConditions(cs, ns);
    BodyEnds(Trim(block, IsUnicodeSpace), Conditions(cs, ns));
    OutputText(body, tail);
    assert Free(" ", "}");
    hide Leading, Trim, Free, Pasteable, BracedBlock, ReadOn, Conditions, IsCondition;
    FreeAppend(" " + body, " ", "}");
    FreeAppend(" ", body, "}");
    BracesRead(" " + body + " ", tail, false);
  }

  lemma EnclosedCloses(existing: string)
    requires Scan(Plain, existing) == Plain
    ensures Scan(Plain, Enclosed(existing)) == Plain
  {
    ScanAppend(Plain, "(" + existing, ")");
    ScanAppend(Plain, "(", existing);
    ScanOrdinary(Plain, "(");
    ScanOrdinary(Plain, ")");
  }

  lemma BodyIs(existing: string, conditions: seq<string>)
    requires conditions != []
    ensures Body(existing, conditions) ==
      if existing == "" then Join(conditions, " && ") else Enclosed(existing) + Injection(conditions)
  {
    if existing != "" {
      BodyShape(existing, conditions);
      assert "(" + existing + ")" + " && " + Join(conditions, " && ") == Enclosed(existing) + Injection(conditions);
    }
  }

  /** What the body reads as, whatever the user's text. */
  lemma BodyMeans(existing: string, conditions: seq<string>, holds: string -> bool)
    requires conditions != [] && (forall c | c in conditions :: IsCondition(c)) && Scan(Plain, existing) == Plain
    ensures var body := Body(existing, conditions);
      && Scan(Plain, body) == Plain
      && (WellNested(body) && ParseOr(body).Some? <==> Reads(existing))
      && (Reads(existing) ==> (Meaning(ParseOr(body).value, holds) <==>
            (exists d | d in Earlier(existing) :: Accepts(d, holds)) ||
            (AcceptsLast(existing, holds) && HoldAll(conditions, holds))))
  {
    var e, inj := Enclosed(existing), Injection(conditions);
    BodyIs(existing, conditions);
    if existing == "" {
      var text := Join(conditions, " && ");
      ConditionsJoined("", conditions);
      assert "" + text == text && text[0..] == text;
      AndAllMeans(conditions, holds);
      BalancedScans(text, 0, Plain, 0);
    } else {
      EnclosedCloses(existing);
      InjectionCloses(conditions);
      ScanAppend(Plain, e, inj);
      EnclosedReads(existing, conditions, holds);
    }
  }

  ghost predicate Granted(holds: string -> bool, cs: seq<string>, ns: seq<string>) {
    holds(ClusterCondition(cs)) && (ns == [] || holds(NamespaceCondition(ns)))
  }

  lemma GrantedIsAllHold(cs: seq<string>, ns: seq<string>, holds: string -> bool)
    ensures HoldAll(Conditions(cs, ns), holds) <==> Granted(holds, cs, ns)
  {
    ConditionsShape(cs, ns);
    assert ClusterCondition(cs) in Conditions(cs, ns) && (ns != [] ==> NamespaceCondition(ns) in Conditions(cs, ns));
  }

  lemma LeadingBlock(query: string)
    requires Leading(query).Some?
    ensures var block := Leading(query).value.0;
      Free(block, "}") && Free(Trim(block, IsUnicodeSpace), "}") &&
        IsTrimmed(Trim(block, IsUnicodeSpace), IsUnicodeSpace)
    ensures var block := Leading(query).value.0;
      Scan(Plain, block) == Plain ==> Scan(Plain, Trim(block, IsUnicodeSpace)) == Plain
  {
    var block := Leading(query).value.0;
    LeadingText(query);
    ScanTrimmed(block);
    TrimmedBlock(block);
  }

  /** Main theorem: for every query that the code accepts and whose first braces cut no literal, however its
      parentheses nest: the output reads just when the user's text in parentheses does, with the tail unchanged, and
      then it accepts what one of the disjuncts closed off by that text accepts, or what the last one accepts AND the
      conditions let through. */
  lemma ScopedSpansetReads(query: string, cs: seq<string>, ns: seq<string>, holds: string -> bool)
    requires cs != [] && Pasteable(cs) && Pasteable(ns)
    requires Leading(query).Some? && Scan(Plain, Leading(query).value.0) == Plain
    ensures ScopeTraceQL(query, cs, ns).Ok?
    ensures
      var (block, tail) := Leading(query).value;
      var existing := Trim(block, IsUnicodeSpace);
      var output := ParseSpanset(ScopeTraceQL(query, cs, ns).value);
      && (output.Some? <==> Reads(existing))
      && (output.Some? ==> output.value.1 == tail)
      && (output.Some? ==> (Meaning(output.value.0, holds) <==>
            (exists d | d in Earlier(existing) :: Accepts(d, holds)) ||
            (AcceptsLast(existing, holds) && Granted(holds, cs, ns))))
  {
    var (block, tail) := Leading(query).value;
    var existing, conditions := Trim(block, IsUnicodeSpace), Conditions(cs, ns);
    ConditionsShape(cs, ns);
    hide ParseSpanset, Meaning, Accepts, AcceptsLast, Earlier, Reads, HoldAll, Conditions;
    LeadingBlock(query);
    ConditionsAreConditions(cs, ns);
    BodyEnds(existing, conditions);
    BodyMeans(existing, conditions, holds);
    GrantedIsAllHold(cs, ns, holds);
    BracedReads(Body(existing, conditions), tail);
  }

  /* What that means for access. */

  /** Whatever a filter accepts meets the conditions. */
  ghost predicate Confined(f: Filter, cs: seq<string>, ns: seq<string>) {
    forall holds: string -> bool :: Meaning(f, holds) ==> Granted(holds, cs, ns)
  }

  /** The filter itself demands this condition. */
  predicate Demands(f: Filter, condition: string) { !Meaning(f, c => c != condition) }

  predicate DemandsAll(f: Filter, cs: seq<string>, ns: seq<string>) {
    Demands(f, ClusterCondition(cs)) && (ns == [] || Demands(f, NamespaceCondition(ns)))
  }

  lemma {:induction false} Monotone(f: Filter, p: string -> bool, q: string -> bool)
    requires Meaning(f, p) && forall c :: p(c) ==> q(c)
    ensures Meaning(f, q)
    decreases f
  {
    match f
    case Everything =>
    case Condition(_) =>
    case And(l, r) =>
      Monotone(l, p, q);
      Monotone(r, p, q);
    case Or(l, r) => if Meaning(l, p) { Monotone(l, p, q); } else { Monotone(r, p, q); }
  }

  lemma ConfinedIsDemanding(f: Filter, cs: seq<string>, ns: seq<string>)
    ensures Confined(f, cs, ns) <==> DemandsAll(f, cs, ns)
  {
    var c, n := ClusterCondition(cs), NamespaceCondition(ns);
    if DemandsAll(f, cs, ns) {
      forall holds: string -> bool | Meaning(f, holds) ensures Granted(holds, cs, ns) {
        if !holds(c) { Monotone(f, holds, x => x != c); }
        if ns != [] && !holds(n) { Monotone(f, holds, x => x != n); }
      }
    } else if !Demands(f, c) {
      assert !Granted(x => x != c, cs, ns);
    } else {
      assert !Granted(x => x != n, cs, ns);
    }
  }

  /** Main theorem: what the output reads as is confined to the granted clusters and namespaces just when every disjunct
      that the user's text closes off demands the conditions itself; in particular when no `||` of that text is outside
      its parentheses and the ones the rewrite adds. */
  lemma WhenConfined(query: string, cs: seq<string>, ns: seq<string>)
    requires cs != [] && Pasteable(cs) && Pasteable(ns)
    requires Leading(query).Some? && Scan(Plain, Leading(query).value.0) == Plain
    ensures ScopeTraceQL(query, cs, ns).Ok?
    ensures
      var existing := Trim(Leading(query).value.0, IsUnicodeSpace);
      var output := ParseSpanset(ScopeTraceQL(query, cs, ns).value);
      && (output.Some? ==> (Confined(output.value.0, cs, ns)
            <==> forall d | d in Earlier(existing) :: ParseAnd(d).Some? && DemandsAll(ParseAnd(d).value, cs, ns)))
      && (output.Some? && FindOp(Enclosed(existing), 0, '|', Plain, 0) == |Enclosed(existing)| ==>
         Confined(output.value.0, cs, ns))
  {
    var existing := Trim(Leading(query).value.0, IsUnicodeSpace);
    ScopedSpansetReads(query, cs, ns, _ => true);
    var output := ParseSpanset(ScopeTraceQL(query, cs, ns).value);
    if output.Some? {
      EarlierRead(existing);
      forall holds: string -> bool
        ensures Meaning(output.value.0, holds) <==>
          (exists d | d in Earlier(existing) :: Accepts(d, holds)) ||
          (AcceptsLast(existing, holds) && Granted(holds, cs, ns)) {
        ScopedSpansetReads(query, cs, ns, holds);
      }
      hide ScopeTraceQL, ParseSpanset, Meaning, Earlier, AcceptsLast, Granted, DemandsAll, ParseAnd;
      forall d | d in Earlier(existing)
        ensures Confined(ParseAnd(d).value, cs, ns) <==> DemandsAll(ParseAnd(d).value, cs, ns) {
        ConfinedIsDemanding(ParseAnd(d).value, cs, ns);
      }
      ConfinedPieces(existing, output.value.0, cs, ns);
    }
    if FindOp(Enclosed(existing), 0, '|', Plain, 0) == |Enclosed(existing)| { OneDisjunct(existing); }
  }

  lemma OneDisjunct(existing: string)
    requires FindOp(Enclosed(existing), 0, '|', Plain, 0) == |Enclosed(existing)|
    ensures Earlier(existing) == []
  {}

  lemma EarlierRead(existing: string)
    requires Reads(existing)
    ensures AllRead(Earlier(existing))
  {
    if existing != "" { OrReads(Enclosed(existing), _ => true); }
  }

  lemma ConfinedPieces(existing: string, f: Filter, cs: seq<string>, ns: seq<string>)
    requires AllRead(Earlier(existing))
    requires forall holds: string -> bool ::
      (Meaning(f, holds) <==>
        (exists d | d in Earlier(existing) :: Accepts(d, holds)) ||
          (AcceptsLast(existing, holds) && Granted(holds, cs, ns)))
    ensures Confined(f, cs, ns) <==> forall d | d in Earlier(existing) :: Confined(ParseAnd(d).value, cs, ns)
  {
    hide Earlier, AcceptsLast, Granted, Meaning;
    if Confined(f, cs, ns) {
      forall d, holds: string -> bool | d in Earlier(existing) && Meaning(ParseAnd(d).value, holds)
        ensures Granted(holds, cs, ns) {
        assert Accepts(d, holds);
        assert Meaning(f, holds);
      }
    } else {
      var holds: string -> bool :| Meaning(f, holds) && !Granted(holds, cs, ns);
      var d :| d in Earlier(existing) && Accepts(d, holds);
      assert Meaning(ParseAnd(d).value, holds);
    }
  }

  /* The user's text closes the parenthesis, writes a disjunction and opens it again. */

  lemma {:induction false} BalancedAppend(s: string, right: string, k: nat, m: Mode, depth: nat)
    requires k <= |s| && Balanced(s, k, m, depth) && WellNested(right)
    ensures Balanced(s + right, k, m, depth)
    decreases |s| - k
  {
    if k == |s| {
      Shift(s + right, k, k, '|', Plain, 0);
      assert (s + right)[k..] == right;
    } else {
      BalancedAppend(s, right, k + 1, Next(m, s[k]), depth + Paren(m, s[k]));
    }
  }

  /** A balanced text in parentheses is one atom. */
  lemma EnclosedIsAtom(a: string)
    requires WellNested(a)
    ensures WellNested(Enclosed(a)) && ParseAtom(Enclosed(a)) == ParseOr(a)
    ensures forall c | c in "|&" :: FindOp(Enclosed(a), 0, c, Plain, 0) == |Enclosed(a)|
  {
    var text := Enclosed(a);
    assert text[0] == '(' && text[|a| + 1] == ')' && At(text, 1, a);
    forall c | c in "|&" ensures FindOp(text, 0, c, Plain, 0) == |text| { SkipParentheses(text, a, c); }
    SkipParentheses(text, a, '|');
    assert text[1..|text| - 1] == a;
    TrimTrimmed(text, IsUnicodeSpace);
  }

  lemma OneBar(left: string, right: string)
    requires FindOp(left, 0, '|', Plain, 0) == |left| && WellNested(left) && FindOp(right, 0, '|', Plain, 0) == |right|
    ensures Disjuncts(left + (" " + ("||" + right))) == [left + " ", right]
  {
    var rest := " " + ("||" + right);
    var text := left + rest;
    assert rest[1] == '|' && rest[2] == '|' && FindOp(rest, 1, '|', Plain, 0) == 1 &&
      FindOp(rest, 0, '|', Plain, 0) == 1;
    hide WellNested, FindOp;
    FindAcross(left, rest, '|');
    assert text[..|left| + 1] == left + " " && text[|left| + 3..] == right;
  }

  /** The two disjuncts. */
  lemma ClosedDisjunction(a: string, b: string)
    requires WellNested(a) && WellNested(b)
    ensures WellNested(Enclosed(a + ") || (" + b))
    ensures Disjuncts(Enclosed(a + ") || (" + b)) == [Enclosed(a) + " ", " " + Enclosed(b)]
  {
    var left, right := Enclosed(a), " " + Enclosed(b);
    var rest := " " + ("||" + right);
    assert Enclosed(a + ") || (" + b) == left + rest;
    hide WellNested, Enclosed, ParseAtom, FindOp, Disjuncts;
    EnclosedIsAtom(a);
    EnclosedIsAtom(b);
    FindLed(right, Enclosed(b), '|');
    OneBar(left, right);
    NestedSpace(Enclosed(b));
    NestedBars(right);
    NestedAppend(left, rest);
  }

  lemma FindLed(right: string, atom: string, c: char)
    requires right == " " + atom && c in "|&" && FindOp(atom, 0, c, Plain, 0) == |atom|
    ensures FindOp(right, 0, c, Plain, 0) == |right|
  {
    assert right[1..] == atom;
    Shift(right, 1, 1, c, Plain, 0);
  }

  lemma NestedAppend(left: string, right: string)
    requires WellNested(left) && WellNested(right)
    ensures WellNested(left + right)
  {
    BalancedAppend(left, right, 0, Plain, 0);
  }

  lemma NestedSpace(s: string)
    requires WellNested(s)
    ensures WellNested(" " + s)
  {
    assert WellNested(" ");
    NestedAppend(" ", s);
  }

  lemma NestedBars(s: string)
    requires WellNested(s)
    ensures WellNested(" " + ("||" + s))
  {
    var bars := "||";
    assert bars[0] == '|' && bars[1] == '|' && Balanced(bars, 2, Plain, 0) && Balanced(bars, 1, Plain, 0) &&
      WellNested(bars);
    NestedAppend(bars, s);
    NestedSpace(bars + s);
  }

  lemma AtomThenSpace(atom: string)
    requires FindOp(atom, 0, '&', Plain, 0) == |atom| && WellNested(atom)
    ensures ParseAnd(atom + " ") == ParseAtom(atom)
  {
    FindAcross(atom, " ", '&');
    hide WellNested, ParseAtom;
    AtomTrimmed(atom);
  }

  lemma TrimSpaceBefore(s: string)
    ensures Trim(" " + s, IsUnicodeSpace) == Trim(s, IsUnicodeSpace)
  {
    assert (" " + s)[1..] == s;
  }

  lemma AtomPadded(atom: string)
    ensures ParseAtom(" " + atom) == ParseAtom(atom)
  {
    TrimSpaceBefore(atom);
    hide Trim;
  }

  lemma SpaceThenAtom(atom: string)
    requires FindOp(atom, 0, '&', Plain, 0) == |atom|
    ensures ParseAnd(" " + atom) == ParseAtom(atom)
  {
    hide FindOp, ParseAtom;
    FindLed(" " + atom, atom, '&');
    AtomPadded(atom);
  }

  /** The rewrite of `a) || (b` accepts whatever `a` accepts, granted or not: it is confined just when `a` demands the
      conditions itself. */
  lemma DisjunctionEscapes(query: string, a: string, b: string, cs: seq<string>, ns: seq<string>)
    requires cs != [] && Pasteable(cs) && Pasteable(ns)
    requires Leading(query).Some? && Trim(Leading(query).value.0, IsUnicodeSpace) == a + ") || (" + b
    requires WellNested(a) && WellNested(b) && ParseOr(a).Some? && ParseOr(b).Some?
    ensures ScopeTraceQL(query, cs, ns).Ok?
    ensures
      var output := ParseSpanset(ScopeTraceQL(query, cs, ns).value);
      && output.Some?
      && (forall holds: string -> bool ::
            (Meaning(output.value.0, holds) <==>
              Meaning(ParseOr(a).value, holds) || (Meaning(ParseOr(b).value, holds) && Granted(holds, cs, ns))))
      && (Confined(output.value.0, cs, ns) <==> DemandsAll(ParseOr(a).value, cs, ns))
  {
    hide ScopeTraceQL, ParseSpanset, Meaning, Granted, DemandsAll, ParseOr, WellNested, Leading, Trim, Pasteable,
      Confined;
    DisjunctionConfines(query, a, b, cs, ns);
    forall holds: string -> bool
      ensures
        var f := ParseSpanset(ScopeTraceQL(query, cs, ns).value).value.0;
        Meaning(f, holds) <==>
          Meaning(ParseOr(a).value, holds) || (Meaning(ParseOr(b).value, holds) && Granted(holds, cs, ns)) {
      DisjunctionMeans(query, a, b, cs, ns, holds);
    }
  }

  lemma DisjunctionScans(query: string, a: string, b: string)
    requires Leading(query).Some? && Trim(Leading(query).value.0, IsUnicodeSpace) == a + ") || (" + b
    requires WellNested(a) && WellNested(b)
    ensures Scan(Plain, Leading(query).value.0) == Plain
  {
    hide Leading, Trim, Scan, WellNested;
    ClosedLiterals(a, b);
    ScanTrimmed(Leading(query).value.0);
  }

  lemma DisjunctionConfines(query: string, a: string, b: string, cs: seq<string>, ns: seq<string>)
    requires cs != [] && Pasteable(cs) && Pasteable(ns)
    requires Leading(query).Some? && Trim(Leading(query).value.0, IsUnicodeSpace) == a + ") || (" + b
    requires WellNested(a) && WellNested(b) && ParseOr(a).Some? && ParseOr(b).Some?
    ensures ScopeTraceQL(query, cs, ns).Ok? && ParseSpanset(ScopeTraceQL(query, cs, ns).value).Some?
    ensures Confined(ParseSpanset(ScopeTraceQL(query, cs, ns).value).value.0, cs, ns) <==>
      DemandsAll(ParseOr(a).value, cs, ns)
  {
    hide ScopeTraceQL, ParseSpanset, Meaning, Earlier, AcceptsLast, Granted, DemandsAll, ParseAnd, ParseOr, Accepts,
      WellNested, Reads;
    hide Leading, Trim, Scan, Pasteable, Confined, Enclosed;
    DisjunctionScans(query, a, b);
    ClosedDisjunctionReads(a, b, _ => true);
    WhenConfined(query, cs, ns);
    ScopedSpansetReads(query, cs, ns, _ => true);
    var d := Enclosed(a) + " ";
    assert forall e :: e in [d] <==> e == d;
  }

  lemma DisjunctionMeans(query: string, a: string, b: string, cs: seq<string>, ns: seq<string>, holds: string -> bool)
    requires cs != [] && Pasteable(cs) && Pasteable(ns)
    requires Leading(query).Some? && Trim(Leading(query).value.0, IsUnicodeSpace) == a + ") || (" + b
    requires WellNested(a) && WellNested(b) && ParseOr(a).Some? && ParseOr(b).Some?
    requires ScopeTraceQL(query, cs, ns).Ok? && ParseSpanset(ScopeTraceQL(query, cs, ns).value).Some?
    ensures
      var f := ParseSpanset(ScopeTraceQL(query, cs, ns).value).value.0;
      Meaning(f, holds) <==>
        Meaning(ParseOr(a).value, holds) || (Meaning(ParseOr(b).value, holds) && Granted(holds, cs, ns))
  {
    hide ScopeTraceQL, ParseSpanset, Meaning, Earlier, AcceptsLast, Granted, ParseAnd, ParseOr, Accepts, WellNested,
      Reads;
    hide Leading, Trim, Scan, Pasteable, Enclosed;
    DisjunctionScans(query, a, b);
    ClosedDisjunctionReads(a, b, holds);
    ScopedSpansetReads(query, cs, ns, holds);
  }

  lemma SmallConditions(cs: seq<string>, ns: seq<string>, text: string)
    requires |text| == 1
    ensures !DemandsAll(Condition(text), cs, ns)
  {
    assert |ClusterCondition(cs)| > 1;
  }

  lemma OneLetter(text: string)
    requires text in ["a", "b"]
    ensures WellNested(text) && ParseOr(text) == Some(Condition(text))
  {
    assert Balanced(text, 1, Plain, 0);
    assert IsTrimmed(text, IsUnicodeSpace);
    TrimTrimmed(text, IsUnicodeSpace);
  }

  /** For one such query, whatever the grants, the output reads and is not confined. */
  lemma EscapingQuery(cs: seq<string>, ns: seq<string>)
    requires cs != [] && Pasteable(cs) && Pasteable(ns)
    ensures
      var output := ScopeTraceQL("{ a) || (b }", cs, ns);
      output.Ok? && ParseSpanset(output.value).Some? && !Confined(ParseSpanset(output.value).value.0, cs, ns)
  {
    var inner, block := "a) || (b", " a) || (b ";
    assert block == " " + inner + " " && "{ a) || (b }" == "{" + block + "}" + "" && inner == "a" + ") || (" + "b";
    TrimPadded(" ", inner, " ", IsUnicodeSpace);
    hide ScopeTraceQL, ParseSpanset, Confined, DemandsAll, WellNested, ParseOr;
    LeadingOf(block, "");
    OneLetter("a");
    OneLetter("b");
    DisjunctionEscapes("{ a) || (b }", "a", "b", cs, ns);
    SmallConditions(cs, ns, "a");
  }

  lemma ClosedLiterals(a: string, b: string)
    requires WellNested(a) && WellNested(b)
    ensures Scan(Plain, a + ") || (" + b) == Plain
  {
    BalancedScans(a, 0, Plain, 0);
    BalancedScans(b, 0, Plain, 0);
    assert a[0..] == a && b[0..] == b;
    ScanAppend(Plain, a + ") || (", b);
    ScanAppend(Plain, a, ") || (");
    ScanOrdinary(Plain, ") || (");
  }

  lemma ClosedDisjunctionReads(a: string, b: string, holds: string -> bool)
    requires WellNested(a) && WellNested(b) && ParseOr(a).Some? && ParseOr(b).Some?
    ensures var existing := a + ") || (" + b;
      && Reads(existing) && Earlier(existing) == [Enclosed(a) + " "] && ParseAnd(Enclosed(a) + " ") == ParseOr(a)
      && ((exists d | d in Earlier(existing) :: Accepts(d, holds)) <==> Meaning(ParseOr(a).value, holds))
      && (AcceptsLast(existing, holds) <==> Meaning(ParseOr(b).value, holds))
  {
    var existing := a + ") || (" + b;
    ClosedDisjunction(a, b);
    EnclosedIsAtom(a);
    EnclosedIsAtom(b);
    AtomThenSpace(Enclosed(a));
    SpaceThenAtom(Enclosed(b));
    var ds := Disjuncts(Enclosed(existing));
    assert ds[..|ds| - 1] == [Enclosed(a) + " "];
    assert Enclosed(a) + " " in Earlier(existing);
    hide WellNested, ParseAtom, Enclosed, ParseAnd, FindOp;
    OrReads(Enclosed(existing), holds);
  }

  /* The rest of the query: the rewrite leaves further spansets alone. */

  /** The first `{` outside literals, or the end. */
  function Opening(s: string, m: Mode): (i: nat)
    ensures i <= |s|
    decreases |s|
  {
    if s == "" || (m == Plain && s[0] == '{') then 0 else 1 + Opening(s[1..], Next(m, s[0]))
  }

  /** The spansets that are still to come. */
  function Further(tail: string): Option<seq<Filter>>
    decreases |tail|
  {
    var i := Opening(tail, Plain);
    if i == |tail| then Some([])
    else match ParseSpanset(tail[i..])
      case None => None
      case Some((f, rest)) =>
        match Further(rest)
        case None => None
        case Some(fs) => Some([f] + fs)
  }

  /** All spansets of a query. */
  function Spansets(query: string): Option<seq<Filter>> {
    match ParseSpanset(query)
    case None => None
    case Some((f, tail)) =>
      match Further(tail)
      case None => None
      case Some(fs) => Some([f] + fs)
  }

  ghost predicate AllConfined(fs: seq<Filter>, cs: seq<string>, ns: seq<string>) {
    forall f | f in fs :: Confined(f, cs, ns)
  }

  /** The whole output is confined just when its first spanset is and every further one demands the conditions
      itself. */
  lemma WholeQueryConfined(query: string, cs: seq<string>, ns: seq<string>)
    requires cs != [] && Pasteable(cs) && Pasteable(ns)
    requires Leading(query).Some? && Scan(Plain, Leading(query).value.0) == Plain
    ensures ScopeTraceQL(query, cs, ns).Ok?
    ensures
      var (block, tail) := Leading(query).value;
      var output := ScopeTraceQL(query, cs, ns).value;
      && (Spansets(output).Some? <==> Reads(Trim(block, IsUnicodeSpace)) && Further(tail).Some?)
      && (Spansets(output).Some? ==>
            ParseSpanset(output).Some? &&
            (AllConfined(Spansets(output).value, cs, ns) <==>
              Confined(ParseSpanset(output).value.0, cs, ns) &&
                forall f | f in Further(tail).value :: DemandsAll(f, cs, ns)))
  {
    ScopedSpansetReads(query, cs, ns, _ => true);
    var tail := Leading(query).value.1;
    var output := ScopeTraceQL(query, cs, ns).value;
    if Spansets(output).Some? {
      var first, others := ParseSpanset(output).value.0, Further(tail).value;
      assert Spansets(output).value == [first] + others;
      hide ParseSpanset, Spansets, Further, Confined, DemandsAll;
      forall f | f in others ensures Confined(f, cs, ns) <==> DemandsAll(f, cs, ns) { ConfinedIsDemanding(f, cs, ns); }
      assert forall f :: f in [first] + others <==> f == first || f in others;
    }
  }

  function Longest(f: Filter): nat {
    match f
    case Everything => 0
    case Condition(text) => |text|
    case And(l, r) => if Longest(l) > Longest(r) then Longest(l) else Longest(r)
    case Or(l, r) => if Longest(l) > Longest(r) then Longest(l) else Longest(r)
  }

  /** A filter demands nothing that is longer than all it says. */
  lemma {:induction false} NothingLonger(f: Filter, condition: string)
    requires |condition| > Longest(f)
    ensures !Demands(f, condition)
    decreases f
  {
    match f
    case Everything =>
    case Condition(_) =>
    case And(l, r) =>
      NothingLonger(l, condition);
      NothingLonger(r, condition);
    case Or(l, r) =>
      NothingLonger(l, condition);
      NothingLonger(r, condition);
  }

  /** Some cluster's condition is not demanded. */
  lemma UnforeseenCluster(f: Filter) returns (cs: seq<string>)
    ensures cs != [] && Pasteable(cs) && !Demands(f, ClusterCondition(cs))
  {
    var name := seq(Longest(f) + 1, _ => 'a');
    cs := [name];
    assert Safe(name) && Free(name, "`");
    QuoteIsPlain(name);
    assert QuoteAll(cs) == [name] && AlternationOf(cs) == name;
    assert |ClusterCondition(cs)| > |name|;
    NothingLonger(f, ClusterCondition(cs));
  }

  /** Main theorem: the scope reaches the whole query, whatever the grants, just when the first spanset is the only
      one: no `{` follows it outside literals. */
  lemma ScopeReachesWholeQuery(query: string)
    requires Leading(query).Some? && Scan(Plain, Leading(query).value.0) == Plain
    requires Reads(Trim(Leading(query).value.0, IsUnicodeSpace)) &&
      Earlier(Trim(Leading(query).value.0, IsUnicodeSpace)) == []
    requires Further(Leading(query).value.1).Some?
    ensures
      (forall cs, ns | cs != [] && Pasteable(cs) && Pasteable(ns) ::
        var output := ScopeTraceQL(query, cs, ns);
        output.Ok? && Spansets(output.value).Some? && AllConfined(Spansets(output.value).value, cs, ns))
      <==> Opening(Leading(query).value.1, Plain) == |Leading(query).value.1|
  {
    var tail := Leading(query).value.1;
    var fs := Further(tail).value;
    assert fs == [] <==> Opening(tail, Plain) == |tail|;
    hide ScopeTraceQL, Spansets, ParseSpanset, AllConfined, Confined, DemandsAll, Further, Opening, Earlier, Reads;
    if fs == [] {
      forall cs, ns | cs != [] && Pasteable(cs) && Pasteable(ns)
        ensures var output := ScopeTraceQL(query, cs, ns);
          output.Ok? && Spansets(output.value).Some? && AllConfined(Spansets(output.value).value, cs, ns) {
        WhenConfined(query, cs, ns);
        WholeQueryConfined(query, cs, ns);
      }
    } else {
      var cs := UnforeseenCluster(fs[0]);
      WholeQueryConfined(query, cs, []);
      NotDemanded(fs, cs);
      assert Pasteable([]);
    }
  }

  lemma NotDemanded(fs: seq<Filter>, cs: seq<string>)
    requires fs != [] && !Demands(fs[0], ClusterCondition(cs))
    ensures !forall f | f in fs :: DemandsAll(f, cs, [])
  {
    assert fs[0] in fs;
  }

  /** For this query, whatever the grants, the second spanset is not confined. */
  lemma SecondSpansetEscapes(cs: seq<string>, ns: seq<string>)
    requires cs != [] && Pasteable(cs) && Pasteable(ns)
    ensures
      var output := ScopeTraceQL("{ a } || { b }", cs, ns);
      output.Ok? && Spansets(output.value).Some? && !AllConfined(Spansets(output.value).value, cs, ns)
  {
    SecondText();
    FurtherExample();
    FirstExample();
    hide ScopeTraceQL, Spansets, AllConfined, DemandsAll, Further, Reads, Leading, ParseSpanset, Confined, Pasteable,
      Scan, Trim, Free;
    LeadingOf(" a ", " || { b }");
    WholeQueryConfined("{ a } || { b }", cs, ns);
    SmallConditions(cs, ns, "b");
    assert Condition("b") in [Condition("b")];
  }

  lemma SecondText()
    ensures "{ a } || { b }" == "{" + " a " + "}" + " || { b }" && Free(" a ", "}")
  {}

  lemma FirstExample()
    ensures Scan(Plain, " a ") == Plain && Reads(Trim(" a ", IsUnicodeSpace))
  {
    ScanOrdinary(Plain, " a ");
    assert " " + "a" + " " == " a ";
    TrimPadded(" ", "a", " ", IsUnicodeSpace);
    OneLetter("a");
    EnclosedIsAtom("a");
    AtomOnly("a");
  }

  lemma AtomOnly(a: string)
    requires WellNested(a)
    ensures ParseOr(Enclosed(a)) == ParseOr(a)
  {
    EnclosedIsAtom(a);
  }

  lemma OneSpanset()
    ensures ParseSpanset("{ b }") == Some((Condition("b"), ""))
  {
    ScanOrdinary(Plain, " b ");
    PlaceIsScan(Plain, " b ");
    BracesRead(" b ", "", false);
    assert "{ b }" == "{" + " b " + "}" + "" && " " + "b" + " " == " b ";
    TrimPadded(" ", "b", " ", IsUnicodeSpace);
    OneLetter("b");
  }

  lemma {:induction false} OpeningAfter(s: string, rest: string)
    requires Free(s, "\"`\\{")
    ensures Opening(s + ("{" + rest), Plain) == |s|
  {
    if s == "" {
      assert s + ("{" + rest) == "{" + rest;
    } else {
      assert (s + ("{" + rest))[1..] == s[1..] + ("{" + rest);
      OpeningAfter(s[1..], rest);
    }
  }

  lemma NothingFurther()
    ensures Further("") == Some([])
  {}

  lemma OneFurther(tail: string, i: nat, f: Filter)
    requires i < |tail| && Opening(tail, Plain) == i && ParseSpanset(tail[i..]) == Some((f, ""))
    ensures Further(tail) == Some([f])
  {
    NothingFurther();
    hide ParseSpanset, Opening;
    assert [f] + [] == [f];
  }

  lemma FurtherExample()
    ensures Further(" || { b }") == Some([Condition("b")])
  {
    hide Further, ParseSpanset, Opening, Meaning;
    var tail := " || { b }";
    assert tail == " || " + ("{" + " b }") && tail[4..] == "{ b }";
    OpeningAfter(" || ", " b }");
    OneSpanset();
    OneFurther(tail, 4, Condition("b"));
  }

  /* What the conditions mean of a span whose resource has these attributes. */

  ghost predicate Satisfied(condition: string, attributes: Labels, sem: Semantics, other: string -> bool) {
    match LogQL.ParseMatcher(condition)
    case Some(m) => Holds(m, attributes, sem)
    case None => other(condition)
  }

  predicate SpanPermitted(attributes: Labels, cs: seq<string>, ns: seq<string>) {
    Get(attributes, "resource.cluster") in cs && (ns == [] || Get(attributes, "resource.namespace") in ns)
  }

  lemma GrantedIsPermitted(cs: seq<string>, ns: seq<string>, attributes: Labels, sem: Semantics, other: string -> bool)
    requires cs != [] && Pasteable(cs) && Pasteable(ns) && Regex.Honours(sem.regex)
    ensures Granted(c => Satisfied(c, attributes, sem, other), cs, ns) <==> SpanPermitted(attributes, cs, ns)
  {
    hide LogQL.ParseMatcher, ClusterCondition, NamespaceCondition, AlternationOf;
    InjectedConditionsRead(cs, ns);
    AlternationIsExact(cs, Get(attributes, "resource.cluster"));
    if ns != [] { AlternationIsExact(ns, Get(attributes, "resource.namespace")); }
  }

  /* Well-formed filters. */

  /** The code's regular expression finds the block, when no `}` is inside a literal. */
  lemma PlainBlock(query: string)
    requires BracedBlock(query, false).Some? && Free(BracedBlock(query, false).value.0, "}")
    ensures Leading(query) == BracedBlock(query, false)
  {
    ReadableLeads(query);
    LeadingRead(query, false);
    BlockHoldsBrace(query, false);
  }

  /** Main theorem: for every well-formed spanset filter that holds no `}`, however it is built from
      `&&`, `||` and parentheses, the rewritten filter is the original AND the cluster condition AND,
      when there is one, the namespace condition; and the tail is unchanged. */
  lemma ScopedSpansetMeans(query: string, cs: seq<string>, ns: seq<string>, holds: string -> bool)
    requires cs != [] && Pasteable(cs) && Pasteable(ns)
    requires ParseSpanset(query).Some? && Free(BracedBlock(query, false).value.0, "}")
    ensures ScopeTraceQL(query, cs, ns).Ok?
    ensures var (f, tail) := ParseSpanset(query).value;
      var output := ParseSpanset(ScopeTraceQL(query, cs, ns).value);
      && output.Some? && output.value.1 == tail
      && (Meaning(output.value.0, holds) <==>
            Meaning(f, holds) && holds(ClusterCondition(cs)) && (ns == [] || holds(NamespaceCondition(ns))))
  {
    var (block, tail) := BracedBlock(query, false).value;
    var existing := Trim(block, IsUnicodeSpace);
    PlainBlock(query);
    TrimmedBlock(block);
    TrimTrimmed(existing, IsUnicodeSpace);
    ReadableCloses(block);
    hide ScopeTraceQL, Leading, BracedBlock, Trim, Scan, Meaning, Earlier, AcceptsLast, Reads, WellNested, ParseOr,
      Pasteable;
    ScopedSpansetReads(query, cs, ns, holds);
    WellNestedReads(existing, ParseFilter(block).value, holds);
  }

  lemma ReadableCloses(block: string)
    requires ParseFilter(block).Some?
    ensures Scan(Plain, block) == Plain
  {
    var t := Trim(block, IsUnicodeSpace);
    ScanTrimmed(block);
    if t != "" {
      BalancedScans(t, 0, Plain, 0);
      assert t[0..] == t;
    }
  }

  /** A well-nested filter is one disjunct when it is in parentheses. */
  lemma WellNestedReads(existing: string, f: Filter, holds: string -> bool)
    requires IsTrimmed(existing, IsUnicodeSpace) && ParseFilter(existing) == Some(f)
    ensures Reads(existing) && Earlier(existing) == [] && (AcceptsLast(existing, holds) <==> Meaning(f, holds))
  {
    TrimTrimmed(existing, IsUnicodeSpace);
    if existing != "" {
      EnclosedIsAtom(existing);
      assert Disjuncts(Enclosed(existing)) == [Enclosed(existing)];
      assert ParseAnd(Enclosed(existing)) == ParseAtom(Enclosed(existing));
    }
  }

  /* A `}` inside a literal: the code's regular expression stops at it, and the parenthesis that the rewrite closes
     there is swallowed by the literal. */

  /** Opening minus closing parentheses outside literals. */
  function Nesting(m: Mode, s: string): int
    decreases |s|
  {
    if s == "" then 0 else Paren(m, s[0]) + Nesting(Next(m, s[0]), s[1..])
  }

  lemma {:induction false} NestingAppend(m: Mode, a: string, b: string)
    ensures Nesting(m, a + b) == Nesting(m, a) + Nesting(Scan(m, a), b)
    decreases |a|
  {
    if a == "" {
      assert a + b == b;
    } else {
      assert (a + b)[1..] == a[1..] + b;
      NestingAppend(Next(m, a[0]), a[1..], b);
    }
  }

  lemma {:induction false} NestingOfBalanced(s: string, i: nat, m: Mode, depth: int)
    requires i <= |s| && Balanced(s, i, m, depth)
    ensures depth + Nesting(m, s[i..]) == 0
    decreases |s| - i
  {
    if i < |s| {
      assert s[i..][1..] == s[i + 1..];
      NestingOfBalanced(s, i + 1, Next(m, s[i]), depth + Paren(m, s[i]));
    }
  }

  lemma {:induction false} FlatNesting(m: Mode, s: string)
    requires Free(s, "()")
    ensures Nesting(m, s) == 0
    decreases |s|
  {
    if s != "" { FlatNesting(Next(m, s[0]), s[1..]); }
  }

  lemma TrimKeepsNesting(s: string)
    ensures Nesting(Plain, Trim(s, IsUnicodeSpace)) == Nesting(Plain, s)
  {
    var t := Trim(s, IsUnicodeSpace);
    var before, after := TrimParts(s, IsUnicodeSpace);
    NestingAppend(Plain, before + t, after);
    NestingAppend(Plain, before, t);
    ScanSpaces(Plain, before);
    FlatNesting(Plain, before);
    FlatNesting(Scan(Plain, before + t), after);
  }

  /** Pasted inside an open literal, a condition leaves it open. */
  lemma ConditionPasses(m: Mode, front: string, c: string)
    requires (m == InString || m == InRaw) && IsCondition(c) && Free(front, "\"`\\")
    ensures Scan(m, front + c) == m
  {
    var name, p :| name != "" && LogQL.AllNameChars(name) && Free(p, "\"\n\\{}()`") &&
      c == LogQL.RegexText(name, " ", p);
    var lead := front + name + " =~ ";
    assert front + c == lead + ("\"" + (p + "\""));
    assert Free(name, "\"`\\") by {
      forall i | 0 <= i < |name| ensures name[i] !in "\"`\\" { assert LogQL.IsNameChar(name[i]); }
    }
    assert Free(p, "\"`\\") by { forall i | 0 <= i < |p| ensures p[i] !in "\"`\\" { assert p[i] !in "\"\n\\{}()`"; } }
    FreeAppend(front + name, " =~ ", "\"`\\");
    FreeAppend(front, name, "\"`\\");
    QuotedPasses(m, lead, p);
  }

  lemma QuotedPasses(m: Mode, lead: string, p: string)
    requires (m == InString || m == InRaw) && Free(lead, "\"`\\") && Free(p, "\"`\\")
    ensures Scan(m, lead + ("\"" + (p + "\""))) == m
  {
    var inside := Next(m, '"');
    assert Scan(m, "\"") == inside && Scan(inside, "\"") == m;
    ScanAppend(m, lead, "\"" + (p + "\""));
    ScanAppend(m, "\"", p + "\"");
    ScanAppend(inside, p, "\"");
    ScanOrdinary(m, lead);
    ScanOrdinary(inside, p);
  }

  lemma {:induction false} InjectionPasses(m: Mode, conditions: seq<string>)
    requires (m == InString || m == InRaw) && conditions != [] && forall c | c in conditions :: IsCondition(c)
    ensures Scan(m, Injection(conditions)) == m
  {
    ConditionPasses(m, " && ", conditions[0]);
    if |conditions| > 1 {
      InjectionPasses(m, conditions[1..]);
      ScanAppend(m, " && " + conditions[0], Injection(conditions[1..]));
      assert Injection(conditions) == " && " + conditions[0] + Injection(conditions[1..]);
    }
  }

  /** The mode that an open literal is in after any character that does not close it. */
  function StillOpen(m: Mode): Mode { if m == InRaw then InRaw else InString }

  /** The closing parenthesis and the conditions, pasted into an open literal. */
  lemma RestPasses(m: Mode, conditions: seq<string>)
    requires m != Plain && conditions != [] && forall c | c in conditions :: IsCondition(c)
    ensures var rest := ")" + Injection(conditions) + " "; Scan(m, rest) == StillOpen(m) && Nesting(m, rest) == 0
  {
    var to, inj := StillOpen(m), Injection(conditions);
    InjectionPasses(to, conditions);
    InjectionFree(conditions, "()");
    hide Injection;
    assert Scan(m, ")") == to && Nesting(m, ")") == 0;
    ScanAppend(m, ")" + inj, " ");
    ScanAppend(m, ")", inj);
    NestingAppend(m, ")" + inj, " ");
    NestingAppend(m, ")", inj);
    FlatNesting(to, inj);
    FlatNesting(to, " ");
    assert Scan(to, " ") == to;
  }

  /** What the rewrite puts between the braces when the user's text ends inside a literal. */
  lemma SwallowedBody(pre: string, conditions: seq<string>)
    requires conditions != [] && (forall c | c in conditions :: IsCondition(c)) && Free(pre, "}") &&
      Scan(Plain, pre) != Plain
    ensures var text := " " + Body(Trim(pre, IsUnicodeSpace), conditions) + " ";
      && Free(text, "}")
      && Scan(Plain, text) == StillOpen(Scan(Plain, pre))
      && Nesting(Plain, text) == Nesting(Plain, pre) + 1
  {
    var existing := Trim(pre, IsUnicodeSpace);
    ScanTrimmed(pre);
    TrimKeepsNesting(pre);
    TrimmedBlock(pre);
    BodyEnds(existing, conditions);
    assert Scan(Plain, "") == Plain;
    BodyIs(existing, conditions);
    var front, rest := " (" + existing, ")" + Injection(conditions) + " ";
    var text := " " + Body(existing, conditions) + " ";
    BodyPieces(existing, conditions);
    hide Body, Injection;
    OpenFront(existing);
    RestPasses(Scan(Plain, existing), conditions);
    ScanAppend(Plain, front, rest);
    NestingAppend(Plain, front, rest);
    FreeAppend(" " + Body(existing, conditions), " ", "}");
    FreeAppend(" ", Body(existing, conditions), "}");
  }

  lemma BodyPieces(existing: string, conditions: seq<string>)
    requires conditions != [] && existing != ""
    ensures " " + Body(existing, conditions) + " " == " (" + existing + (")" + Injection(conditions) + " ")
  {
    BodyIs(existing, conditions);
    var inj := Injection(conditions);
    hide Injection, Body;
    assert Body(existing, conditions) == "(" + existing + ")" + inj;
  }

  lemma OpenFront(existing: string)
    ensures Scan(Plain, " (" + existing) == Scan(Plain, existing) &&
      Nesting(Plain, " (" + existing) == Nesting(Plain, existing) + 1
  {
    ScanAppend(Plain, " (", existing);
    NestingAppend(Plain, " (", existing);
    ScanOrdinary(Plain, " (");
    assert " ("[1..] == "(" && Nesting(Plain, "(") == 1 && Nesting(Plain, " (") == 1;
  }

  /** Nesting of a block that a brace inside a literal divides. */
  lemma NestingAround(pre: string, post: string)
    ensures Nesting(Plain, pre + "}" + post) == Nesting(Plain, pre) + Nesting(Next(Scan(Plain, pre), '}'), post)
  {
    NestingAppend(Plain, pre, "}" + post);
    assert pre + ("}" + post) == pre + "}" + post && ("}" + post)[1..] == post;
  }

  lemma SpansetOf(query: string)
    ensures ParseSpanset(query).Some? <==>
      BracedBlock(query, false).Some? && ParseFilter(BracedBlock(query, false).value.0).Some?
  {}

  lemma WholeNesting(pre: string, text: string, post: string)
    requires Nesting(Plain, text) == Nesting(Plain, pre) + 1
    requires Scan(Plain, pre) != Plain && Scan(Plain, text) == StillOpen(Scan(Plain, pre))
    requires ParseFilter(pre + "}" + post).Some?
    ensures ParseFilter(text + "}" + post) == None
  {
    hide Nesting, Scan, ParseFilter;
    NestingAround(pre, post);
    NestingAround(text, post);
    NestedBlock(pre + "}" + post);
    NotNestedBlock(text + "}" + post);
  }

  /** Then the output of a well-formed query does not read at all. */
  lemma HiddenBraceIsUnreadable(query: string, cs: seq<string>, ns: seq<string>)
    requires cs != [] && Pasteable(cs) && Pasteable(ns)
    requires ParseSpanset(query).Some? && !Free(BracedBlock(query, false).value.0, "}")
    ensures ScopeTraceQL(query, cs, ns).Ok? && ParseSpanset(ScopeTraceQL(query, cs, ns).value) == None
  {
    hide ScopeTraceQL, Leading, BracedBlock, Padded, Scan, Close, PlaceAfter, ParseFilter, ParseSpanset, Nesting, Free,
      Pasteable;
    SpansetOf(query);
    ReadableLeads(query);
    BlockHoldsBrace(query, false);
    LeadingRead(query, false);
    var (pre, rest) := Leading(query).value;
    OutputBraces(query, cs, ns);
    SwallowedPadding(query, cs, ns);
    SpansetOf(ScopeTraceQL(query, cs, ns).value);
    WholeNesting(pre, Padded(pre, cs, ns), rest[..Close(rest, Code(StillOpen(Scan(Plain, pre))), false)]);
  }

  /** Both texts go on in the same literal. */
  lemma SwallowedPadding(query: string, cs: seq<string>, ns: seq<string>)
    requires cs != [] && Pasteable(cs) && Pasteable(ns)
    requires Leading(query).Some? && PlaceAfter(OUTSIDE, Leading(query).value.0, false) != OUTSIDE
    ensures var pre, text := Leading(query).value.0, Padded(Leading(query).value.0, cs, ns);
      && PlaceAfter(OUTSIDE, pre, false) == Code(Scan(Plain, pre)) && Scan(Plain, pre) != Plain
      && PlaceAfter(OUTSIDE, text, false) == Code(Scan(Plain, text)) == Code(StillOpen(Scan(Plain, pre)))
      && Nesting(Plain, text) == Nesting(Plain, pre) + 1
  {
    var pre := Leading(query).value.0;
    ConditionsShape(cs, ns);
    LeadingText(query);
    PlaceIsScan(Plain, pre);
    PlaceIsScan(Plain, Padded(pre, cs, ns));
    ConditionsAreConditions(cs, ns);
    hide Conditions, IsCondition, Scan, PlaceAfter, Nesting, Leading, Body, Trim;
    SwallowedBody(pre, Conditions(cs, ns));
  }

  lemma NestedBlock(block: string)
    requires ParseFilter(block).Some?
    ensures Nesting(Plain, block) == 0
  {
    var t := Trim(block, IsUnicodeSpace);
    TrimKeepsNesting(block);
    if t != "" {
      NestingOfBalanced(t, 0, Plain, 0);
      assert t[0..] == t;
    }
  }

  lemma NotNestedBlock(block: string)
    requires Nesting(Plain, block) != 0
    ensures ParseFilter(block) == None
  {
    if ParseFilter(block).Some? { NestedBlock(block); }
  }

  /** For every well-formed query the output reads, and then as `ScopedSpansetMeans` says, if and only if no `}` hides
      in a literal of the filter. */
  lemma OutputReadsIffNoHiddenBrace(query: string, cs: seq<string>, ns: seq<string>)
    requires cs != [] && Pasteable(cs) && Pasteable(ns) && ParseSpanset(query).Some?
    ensures ScopeTraceQL(query, cs, ns).Ok?
    ensures ParseSpanset(ScopeTraceQL(query, cs, ns).value).Some? <==> Free(BracedBlock(query, false).value.0, "}")
  {
    if Free(BracedBlock(query, false).value.0, "}") {
      ScopedSpansetMeans(query, cs, ns, _ => true);
    } else {
      HiddenBraceIsUnreadable(query, cs, ns);
    }
  }

  /* A query that is not well formed by itself, though, can be completed by what the rewrite adds. */

  lemma {:induction false} SkipRaw(s: string, i: nat, j: nat, c: char)
    requires i <= j <= |s| && forall k | i <= k < j :: s[k] != '`'
    ensures Same(s, i, InRaw, 0, j, InRaw, 0, c)
    decreases j - i
  {
    if i < j { SkipRaw(s, i + 1, j, c); }
  }

  lemma RawScan(inner: string, c: char)
    requires Free(inner, "`") && c in "|&"
    ensures var text := "a=`" + inner + "`"; FindOp(text, 0, c, Plain, 0) == |text| && WellNested(text)
  {
    var text := "a=`" + inner + "`";
    var e := |inner| + 3;
    assert text[2] == '`' && text[e] == '`' && |text| == e + 1 && forall k | 3 <= k < e :: text[k] == inner[k - 3];
    assert text[0] == 'a' && text[1] == '=';
    Skip(text, 0, 2, c, Plain);
    assert Same(text, 2, Plain, 0, 3, InRaw, 0, c);
    SkipRaw(text, 3, e, c);
    assert Same(text, e, InRaw, 0, e + 1, Plain, 0, c);
  }

  lemma RawCondition(inner: string)
    requires Free(inner, "`")
    ensures var text := "a=`" + inner + "`"; WellNested(text) && ParseOr(text) == Some(Condition(text))
  {
    var text := "a=`" + inner + "`";
    RawScan(inner, '|');
    RawScan(inner, '&');
    assert text[0] == 'a' && text[|text| - 1] == '`';
    hide FindOp, WellNested;
    TrimTrimmed(text, IsUnicodeSpace);
    assert ParseAtom(text) == Some(Condition(text));
    assert ParseAnd(text) == ParseAtom(text);
  }

  /** The inner text of the only literal of that output. */
  lemma RawInner(conditions: seq<string>)
    requires conditions != [] && forall c | c in conditions :: IsCondition(c)
    ensures Free(")" + Injection(conditions) + " }", "`")
  {
    InjectionFree(conditions, "`");
    FreeAppend(")" + Injection(conditions), " }", "`");
    FreeAppend(")", Injection(conditions), "`");
  }

  lemma CutText(conditions: seq<string>)
    requires conditions != []
    ensures var text := " " + Body("a=`", conditions) + " ";
      text + "}" + "`)" == " " + Enclosed("a=`" + (")" + Injection(conditions) + " }") + "`")
  {
    BodyIs("a=`", conditions);
    var inj := Injection(conditions);
    hide Body, Injection;
    assert " " + ("(" + "a=`" + ")" + inj) + " " + "}" + "`)" == " " + ("(" + ("a=`" + (")" + inj + " }") + "`") + ")");
  }

  lemma CutBlockReads(conditions: seq<string>)
    requires conditions != [] && forall c | c in conditions :: IsCondition(c)
    ensures var text := " " + Body("a=`", conditions) + " ";
      ParseFilter(text + "}" + "`)") == Some(Condition("a=`" + (")" + Injection(conditions) + " }") + "`"))
  {
    var inner := ")" + Injection(conditions) + " }";
    var atom := "a=`" + inner + "`";
    CutText(conditions);
    RawInner(conditions);
    hide Body, Injection, FindOp;
    RawCondition(inner);
    EnclosedIsAtom(atom);
    AtomOnly(atom);
    TrimSpaceBefore(Enclosed(atom));
    TrimTrimmed(Enclosed(atom), IsUnicodeSpace);
  }

  /** The literal that this query's first brace cuts swallows the conditions, whatever the grants. */
  lemma CutLiteralEscapes(cs: seq<string>, ns: seq<string>)
    requires cs != [] && Pasteable(cs) && Pasteable(ns)
    ensures
      var output := ScopeTraceQL("{a=`}`)}", cs, ns);
      output.Ok? && ParseSpanset(output.value).Some? && !Confined(ParseSpanset(output.value).value.0, cs, ns)
  {
    var conditions := Conditions(cs, ns);
    var atom := "a=`" + (")" + Injection(conditions) + " }") + "`";
    ConditionsShape(cs, ns);
    ConditionsAreConditions(cs, ns);
    CutOpen();
    CutBlockReads(conditions);
    assert atom[0] == 'a';
    hide Body, Injection, ParseFilter, Confined, Conditions, Scan, Trim, IsCondition, Close, PlaceAfter, ScopeTraceQL,
      Leading, DemandsAll, BracedBlock;
    LeadingOf("a=`", "`)}");
    OutputBraces("{a=`}`)}", cs, ns);
    SwallowedPadding("{a=`}`)}", cs, ns);
    ConfinedIsDemanding(Condition(atom), cs, ns);
    DifferentStart(atom, cs, ns);
  }

  lemma CutOpen()
    ensures Free("a=`", "}") && Scan(Plain, "a=`") == InRaw && Trim("a=`", IsUnicodeSpace) == "a=`"
    ensures PlaceAfter(OUTSIDE, "a=`", false) == Code(InRaw)
    ensures "{a=`}`)}" == "{" + "a=`" + "}" + "`)}"
    ensures Close("`)}", Code(InRaw), false) == 2 && "`)}"[..2] == "`)" && "`)}"[3..] == ""
  {
    assert "a=`"[1..] == "=`" && "=`"[1..] == "`" && Scan(Plain, "`") == InRaw;
    PlaceIsScan(Plain, "a=`");
    TrimTrimmed("a=`", IsUnicodeSpace);
    assert "`)}"[1..] == ")}" && ")}"[1..] == "}" && Close("}", OUTSIDE, false) == 0 &&
      Close(")}", OUTSIDE, false) == 1;
  }

  lemma DifferentStart(text: string, cs: seq<string>, ns: seq<string>)
    requires text != "" && text[0] == 'a'
    ensures !DemandsAll(Condition(text), cs, ns)
  {
    assert ClusterCondition(cs)[0] == 'r';
  }

  /** Read as matches on resource attributes, the output accepts the spans that the original accepts and whose cluster
      and namespace are listed. */
  lemma ScopedSpansetPermits(query: string, cs: seq<string>, ns: seq<string>, attributes: Labels, sem: Semantics,
      other: string -> bool)
    requires cs != [] && Pasteable(cs) && Pasteable(ns) && Regex.Honours(sem.regex)
    requires ParseSpanset(query).Some? && Free(BracedBlock(query, false).value.0, "}")
    ensures ScopeTraceQL(query, cs, ns).Ok?
    ensures
      var holds := c => Satisfied(c, attributes, sem, other);
      var output := ParseSpanset(ScopeTraceQL(query, cs, ns).value);
      && output.Some?
      && (Meaning(output.value.0, holds) <==>
         Meaning(ParseSpanset(query).value.0, holds) && SpanPermitted(attributes, cs, ns))
  {
    ScopedSpansetMeans(query, cs, ns, c => Satisfied(c, attributes, sem, other));
    GrantedIsPermitted(cs, ns, attributes, sem, other);
  }
}
