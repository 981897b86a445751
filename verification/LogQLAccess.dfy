/** What the LogQL rewrite (backend/internal/tenancy/logql.go) makes of every text that it accepts, also of texts that
    are no query by themselves and that the rewrite itself completes. */
module LogQLAccess {
  import opened Wrappers
  import opened Text
  import opened Alternation
  import opened PromQL
  import opened Quoting
  import opened Braces
  import opened LogQL

  /* A literal goes on to the end of its matcher. */

  lemma DigitIsOrdinary(c: char, radix: nat)
    requires Digit(c, radix).Some? && radix <= 16
    ensures c !in "\"`\\"
  {}

  lemma {:induction false} NumberIsOrdinary(digits: string, radix: nat, value: nat)
    requires Quoting.Number(digits, radix, value).Some? && radix <= 16
    ensures Free(digits, "\"`\\")
    decreases |digits|
  {
    if digits != "" {
      NumberIsOrdinary(digits[1..], radix, value * radix + Digit(digits[0], radix).value);
      DigitIsOrdinary(digits[0], radix);
      hide Digit;
      assert Free([digits[0]], "\"`\\") && digits == [digits[0]] + digits[1..];
      FreeAppend([digits[0]], digits[1..], "\"`\\");
    }
  }

  lemma NumericIsOrdinary(s: string, i: nat, n: nat, radix: nat, limit: nat)
    requires Numeric(s, i, n, radix, limit).Some? && radix <= 16
    ensures i + n <= |s| && forall j | i <= j < i + n :: s[j] !in "\"`\\"
  {
    var digits := s[i..i + n];
    NumberIsOrdinary(digits, radix, 0);
    forall j | i <= j < i + n ensures s[j] !in "\"`\\" { assert digits[j - i] == s[j]; }
  }

  lemma EscapeIsOrdinary(s: string, j: nat)
    requires s != "" && Escape(s).Some? && 2 <= j < Escape(s).value.1
    ensures s[j] !in "\"`\\"
  {
    hide Numeric;
    if s[1] in "abfnrtv\\\"" {
    } else if s[1] == 'x' {
      NumericIsOrdinary(s, 2, 2, 16, 0xFF);
    } else if s[1] == 'u' {
      NumericIsOrdinary(s, 2, 4, 16, 0x10FFFF);
    } else if s[1] == 'U' {
      NumericIsOrdinary(s, 2, 8, 16, 0x10FFFF);
    } else {
      NumericIsOrdinary(s, 1, 3, 8, 0xFF);
    }
  }

  predicate InsideString(m: Mode) { m == InString || m == AfterBackslash }

  lemma EscapeStays(s: string, i: nat)
    requires s != "" && s[0] == '\\' && Escape(s).Some? && i <= Escape(s).value.1
    ensures InsideString(Scan(InString, s[..i])) && (i >= 2 ==> Scan(InString, s[..i]) == InString)
  {
    hide Escape;
    if i == 1 {
      assert s[..1][1..] == "";
    } else if i >= 2 {
      assert s[..i][1..][1..] == s[2..i];
      forall j | 0 <= j < |s[2..i]| ensures s[2..i][j] !in "\"`\\" { EscapeIsOrdinary(s, j + 2); }
      ScanOrdinary(InString, s[2..i]);
    }
  }

  lemma Beyond(s: string, n: nat, i: nat)
    requires n <= i <= |s|
    ensures s[..i] == s[..n] + s[n..][..i - n]
  {}

  /** The contents of a double-quoted literal do not leave it. */
  lemma {:induction false} ContentsStay(s: string, i: nat)
    requires Unquote(s).Some? && i <= |s|
    ensures InsideString(Scan(InString, s[..i])) && (i == |s| ==> Scan(InString, s[..i]) == InString)
    decreases |s|
  {
    if i > 0 {
      hide Escape;
      var n := if s[0] == '\\' then Escape(s).value.1 else 1;
      if s[0] == '\\' {
        EscapeStays(s, if i < n then i else n);
      } else {
        assert s[..1][1..] == "" && Scan(InString, s[..1]) == InString;
      }
      if n <= i {
        hide Scan;
        Beyond(s, n, i);
        ContentsStay(s[n..], i - n);
        ScanAppend(InString, s[..n], s[n..][..i - n]);
      }
    }
  }

  lemma {:induction false} RawStays(s: string)
    requires Free(s, "`")
    ensures Scan(InRaw, s) == InRaw
    decreases |s|
  {
    if s != "" { RawStays(s[1..]); }
  }

  /** A literal is left by its last character, and not before. */
  lemma LiteralIsOne(v: string, i: nat)
    requires Literal(v).Some? && 0 < i <= |v|
    ensures Scan(Plain, v[..i]) == Plain <==> i == |v|
  {
    var body := v[1..|v| - 1];
    var n := if i == |v| then i - 2 else i - 1;
    assert v[..n + 1][1..] == body[..n] && body[..|body|] == body;
    assert Scan(Plain, v[..n + 1]) == Scan(Next(Plain, v[0]), body[..n]);
    if v[0] == '"' { ContentsStay(body, n); } else { RawStays(body[..n]); }
    if i == |v| {
      var last := [v[|v| - 1]];
      assert v[..i] == v[..n + 1] + last && last[1..] == "";
      ScanAppend(Plain, v[..n + 1], last);
      assert Scan(Scan(Plain, v[..n + 1]), last) == Next(Scan(Plain, v[..n + 1]), last[0]);
    }
  }

  lemma OperatorFront(rest: string)
    requires Operator(rest).Some?
    ensures var text := Operator(rest).value.1;
      && |text| <= |rest| && rest == rest[..|rest| - |text|] + text && Free(rest[..|rest| - |text|], "\"`")
  {
    var n := |rest| - |Operator(rest).value.1|;
    assert rest[..n] == "=~" || rest[..n] == "!~" || rest[..n] == "!=" || rest[..n] == "=";
  }

  lemma SpacesAreFree(s: string)
    requires All(s, IsUnicodeSpace)
    ensures Free(s, "\"`")
  {
    forall i | 0 <= i < |s| ensures s[i] !in "\"`" { assert IsUnicodeSpace(s[i]); }
  }

  lemma NameIsFree(s: string)
    requires AllNameChars(s)
    ensures Free(s, "\"`")
  {
    forall i | 0 <= i < |s| ensures s[i] !in "\"`" { assert IsNameChar(s[i]); }
  }

  lemma FourParts(a: string, b: string, c: string, d: string)
    ensures a + (b + (c + d)) == a + (b + c) + d
  {}

  /** No quote stands before the operand. */
  lemma OperationFront(t: string) returns (front: string)
    requires Operation(t).Some?
    ensures t == front + Operation(t).value.2 && Free(front, "\"`")
  {
    var n := NameLength(t);
    var name, rest := t[..n], TrimLeft(t[n..], IsUnicodeSpace);
    var cut := TrimLeftParts(t[n..], IsUnicodeSpace);
    var op := rest[..|rest| - |Operator(rest).value.1|];
    hide Free, All, AllNameChars, Operator, TrimLeft, NameLength;
    OperatorFront(rest);
    NameIsFree(name);
    SpacesAreFree(cut);
    FreeAppend(cut, op, "\"`");
    FreeAppend(name, cut + op, "\"`");
    front := name + (cut + op);
    assert t == name + t[n..];
    FourParts(name, cut, op, Operator(rest).value.1);
  }

  lemma FreeThrough(a: string, b: string, c: string)
    requires Free(a, "\"`") && Free(b, "\"`") && Free(c, "\"`")
    ensures Free(a + (b + c), "\"`")
  {
    FreeAppend(b, c, "\"`");
    FreeAppend(a, b + c, "\"`");
  }

  lemma Grouped(before: string, front: string, cut: string, v: string, after: string)
    ensures before + (front + (cut + v)) + after == before + (front + cut) + v + after
  {}

  /** The literal of a matcher. */
  function OperandOf(s: string): string
    requires Operation(Trim(s, IsUnicodeSpace)).Some?
  {
    TrimLeft(Operation(Trim(s, IsUnicodeSpace)).value.2, IsUnicodeSpace)
  }

  lemma OperandReads(s: string)
    requires ParseMatcher(s).Some?
    ensures Operation(Trim(s, IsUnicodeSpace)).Some? && Literal(OperandOf(s)).Some?
    ensures OperandOf(s) != ""
  {}

  /** A matcher is some text without quotes, its literal, and space. */
  lemma MatcherParts(s: string) returns (front: string, v: string, after: string)
    requires ParseMatcher(s).Some?
    ensures s == front + v + after && Free(front, "\"`") && All(after, IsUnicodeSpace)
    ensures Literal(v).Some? && v != ""
  {
    OperandReads(s);
    hide Free, All, Trim, TrimLeft, Operation, ParseMatcher, Literal;
    var before, cut: string;
    before, after := TrimParts(s, IsUnicodeSpace);
    front := OperationFront(Trim(s, IsUnicodeSpace));
    cut := TrimLeftParts(Operation(Trim(s, IsUnicodeSpace)).value.2, IsUnicodeSpace);
    v := OperandOf(s);
    SpacesAreFree(before);
    SpacesAreFree(cut);
    FreeThrough(before, front, cut);
    Grouped(before, front, cut, v, after);
    front := before + (front + cut);
  }

  lemma PrefixOf(front: string, v: string, after: string, a: string, c: string)
    requires front + v + after == a + c && |front| <= |a| < |front + v|
    ensures a == front + v[..|a| - |front|]
  {
    assert (front + v + after)[..|a|] == (a + c)[..|a|] == a;
  }

  lemma FrontOf(front: string, v: string, after: string, a: string, c: string)
    requires front + v + after == a + c && |a| <= |front|
    ensures a == front[..|a|]
  {
    assert (front + v + after)[..|a|] == (a + c)[..|a|] == a;
  }

  lemma BackOf(front: string, v: string, after: string, a: string, c: string)
    requires front + v + after == a + c && |front + v| <= |a|
    ensures c == after[|after| - |c|..]
  {
    assert (front + v + after)[|a|..] == (a + c)[|a|..] == c;
  }

  /** In a matcher a literal is open from its first quote to its last character. */
  lemma OpenUntilEnd(s: string, a: string, b: string, c: string)
    requires ParseMatcher(s).Some? && s == a + b + c
    requires Scan(Plain, a) != Plain && Scan(Plain, a + b) == Plain
    ensures All(c, IsUnicodeSpace)
  {
    var front, v, after := MatcherParts(s);
    hide Scan, ParseMatcher, Literal;
    assert front + v + after == a + (b + c) == (a + b) + c;
    NoQuoteNoLiteral(front);
    if |a| <= |front| {
      FrontOf(front, v, after, a, b + c);
      NoQuoteNoLiteral(front[..|a|]);
    } else if |a + b| < |front + v| {
      PrefixOf(front, v, after, a + b, c);
      LiteralIsOne(v, |a + b| - |front|);
      ScanAppend(Plain, front, v[..|a + b| - |front|]);
    } else {
      BackOf(front, v, after, a + b, c);
    }
  }

  lemma MatcherEndsOutside(s: string)
    requires ParseMatcher(s).Some?
    ensures Scan(Plain, s) == Plain
  {
    var front, v, after := MatcherParts(s);
    hide ParseMatcher, Literal;
    LiteralIsOne(v, |v|);
    assert v[..|v|] == v;
    NoQuoteNoLiteral(front);
    ScanAppend(Plain, front + v, after);
    ScanAppend(Plain, front, v);
    ScanSpaces(Plain, after);
  }

  /** A block that ends inside a literal does not read. */
  lemma BlockEndsOutside(e: string)
    requires ParseBlock(e).Some?
    ensures Scan(Plain, e) == Plain
  {
    if Trim(e, IsUnicodeSpace) == "" {
      BlankIsSpace(e);
      ScanSpaces(Plain, e);
    } else {
      hide ParseBlock, ParseMatcher, Split, Scan, Trim;
      BlockIs(e);
      var x := Split(e, Plain);
      MatcherEndsOutside(x[|x| - 1]);
      LastPieceScan(e, Plain);
    }
  }

  /* The kept text ends outside literals and comments. */

  /** What the text that the code keeps between the braces reads as. */
  function KeptMatchers(query: string): Option<seq<Matcher>>
    requires Leading(query).Some?
  {
    ParseBlock(Strip(OUTSIDE, Kept(query)))
  }

  /** What the output is to be: those matchers, the injected ones, and the tail. */
  function Scoped(query: string, cs: seq<string>, ns: seq<string>): Option<(seq<Matcher>, string)>
    requires Leading(query).Some?
  {
    match KeptMatchers(query)
    case None => None
    case Some(ms) => Some((ms + Injected(cs, ns), Leading(query).value.1))
  }

  lemma FirstBlockReads(a: string, b: string)
    requires Trim(a, IsUnicodeSpace) != "" && Scan(Plain, a) == Plain && ParseBlock(a + ("," + b)).Some?
    ensures ParseBlock(a).Some?
  {
    LongerIsNotBlank(a, "," + b);
    hide Split, Trim, ParseMatcher, ParseBlock, Scan;
    BlockIs(a + ("," + b));
    assert a + "," + b == a + ("," + b);
    SplitAppend(a, b, Plain);
    BlockIs(a);
    var x, all := Split(a, Plain), Split(a + ("," + b), Plain);
    assert forall i | 0 <= i < |x| :: x[i] == all[i];
  }

  /** When the output's block reads, the kept text does. */
  lemma KeptReads(block: string, cs: seq<string>, ns: seq<string>)
    requires cs != [] && forall n | n in cs + ns :: Safe(n)
    requires PlaceAfter(OUTSIDE, Trim(block, IsUnicodeSpace), true) == OUTSIDE
    requires ParseBlock(Strip(OUTSIDE, Combined(block, cs, ns))).Some?
    ensures ParseBlock(Strip(OUTSIDE, Trim(block, IsUnicodeSpace))).Some?
  {
    var existing, pasted := Trim(block, IsUnicodeSpace), "," + (" " + InjectedText(cs, ns));
    var before, after := TrimParts(block, IsUnicodeSpace);
    assert (forall n | n in cs :: n in cs + ns) && (forall n | n in ns :: n in cs + ns);
    hide Strip, PlaceAfter, ParseBlock, InjectedText, Combined, Trim, Safe, Scan;
    EmptyReads();
    if existing != "" {
      CombinedShape(block, cs, ns);
      Regroup(existing, ",", " " + InjectedText(cs, ns));
      CommaSpace(InjectedText(cs, ns));
      InjectionIsKept(", ", cs, ns);
      StripAppend(OUTSIDE, existing, pasted);
      LastIsKept(existing);
      ScanStripped(OUTSIDE, existing);
      FirstBlockReads(Strip(OUTSIDE, existing), " " + InjectedText(cs, ns));
    }
  }

  /** Main theorem: for every text that the code accepts whose kept part ends outside literals and comments, well formed
      or not, the output reads just when the kept text does, and then as its matchers followed by the injected ones,
      with the same tail. */
  lemma KeptSelectorReads(query: string, cs: seq<string>, ns: seq<string>)
    requires cs != [] && forall n | n in cs + ns :: Safe(n)
    requires Leading(query).Some? && KeptEnd(query) == OUTSIDE
    ensures ScopeLogQL(query, cs, ns).Ok? && ParseSelector(ScopeLogQL(query, cs, ns).value) == Scoped(query, cs, ns)
  {
    var (block, tail) := Leading(query).value;
    OutputBraces(query, cs, ns);
    hide Strip, PlaceAfter, ParseBlock, InjectedText, Injected, Combined, Trim, Safe, Leading, ScopeLogQL, BracedBlock;
    TrimmedReads(block);
    if KeptMatchers(query).Some? {
      CombinedReads(block, KeptMatchers(query).value, cs, ns);
    } else if ParseBlock(Strip(OUTSIDE, Combined(block, cs, ns))).Some? {
      KeptReads(block, cs, ns);
    }
    KeptPlace(block, cs, ns);
  }

  lemma CombinedIs(block: string, cs: seq<string>, ns: seq<string>)
    ensures
      var existing, injected := Trim(block, IsUnicodeSpace), InjectedText(cs, ns);
      Combined(block, cs, ns) == if existing == "" then injected else existing + (", " + injected)
  {
    hide InjectedText, Trim;
    Regroup(Trim(block, IsUnicodeSpace), ", ", InjectedText(cs, ns));
  }

  lemma KeptPlace(block: string, cs: seq<string>, ns: seq<string>)
    requires cs != [] && forall n | n in cs + ns :: Safe(n)
    requires PlaceAfter(OUTSIDE, Trim(block, IsUnicodeSpace), true) == OUTSIDE
    ensures PlaceAfter(OUTSIDE, Combined(block, cs, ns), true) == OUTSIDE
  {
    var existing, pasted := Trim(block, IsUnicodeSpace), ", " + InjectedText(cs, ns);
    assert (forall n | n in cs :: n in cs + ns) && (forall n | n in ns :: n in cs + ns);
    assert "" + InjectedText(cs, ns) == InjectedText(cs, ns);
    hide Strip, PlaceAfter, InjectedText, Trim, Safe, Combined;
    CombinedIs(block, cs, ns);
    InjectionIsKept(", ", cs, ns);
    InjectionIsKept("", cs, ns);
    PlaceAppend(OUTSIDE, existing, pasted, true);
  }

  /* It ends in a comment. */

  lemma NothingSkipped(rest: string)
    ensures SkipBlanks("{" + rest, OUTSIDE, true) == "{" + rest
  {}

  lemma BracedOpen(rest: string)
    ensures
      var end := Close(rest, OUTSIDE, true);
      BracedBlock("{" + rest, true) == if end == |rest| then None else Some((rest[..end], rest[end + 1..]))
  {
    var s := "{" + rest;
    hide Close, SkipBlanks;
    NothingSkipped(rest);
    assert s[0] == '{' && s[1..] == rest;
  }

  lemma KeptHoldsNoBrace(query: string)
    requires Leading(query).Some?
    ensures Free(Kept(query), "}")
  {
    var block := Leading(query).value.0;
    LeadingText(query);
    var before, after := TrimParts(block, IsUnicodeSpace);
    FreeAppend(before + Kept(query), after, "}");
    FreeAppend(before, Kept(query), "}");
  }

  lemma SlicesOfSum(a: string, b: string, j: nat)
    requires j <= |b|
    ensures (a + b)[..|a| + j] == a + b[..j] && (j < |b| ==> (a + b)[|a| + j + 1..] == b[j + 1..])
  {}

  /** The query without what is injected, and without the brace that the code found. */
  function Uninjected(query: string): string
    requires Leading(query).Some?
  {
    "{" + (Kept(query) + Leading(query).value.1)
  }

  lemma UninjectedBraces(query: string)
    requires Leading(query).Some? && KeptEnd(query) == Comment
    ensures
      var tail := Leading(query).value.1;
      var j := Close(tail, Comment, true);
      BracedBlock(Uninjected(query), true) ==
        if j == |tail| then None else Some((Kept(query) + tail[..j], tail[j + 1..]))
  {
    var kept, tail := Kept(query), Leading(query).value.1;
    KeptHoldsNoBrace(query);
    hide PlaceAfter, Trim, Leading, BracedBlock, Free, Close, Kept;
    BracedOpen(kept + tail);
    CloseAppend(kept, tail, OUTSIDE, true);
    SlicesOfSum(kept, tail, Close(tail, Comment, true));
  }

  /** Both texts go on in the comment, and are read to the same place. */
  lemma CommentGoesOnInBoth(query: string, cs: seq<string>, ns: seq<string>) returns (rest: string, tail: string)
    requires cs != [] && forall n | n in cs + ns :: Safe(n)
    requires Leading(query).Some? && KeptEnd(query) == Comment
    ensures ScopeLogQL(query, cs, ns).Ok?
    ensures
      var read, output := BracedBlock(Uninjected(query), true), BracedBlock(ScopeLogQL(query, cs, ns).value, true);
      && (read.Some? <==> output.Some?)
      && (read.Some? ==> read.value == (Kept(query) + rest, tail) && |tail| < |Leading(query).value.1|)
      && (read.Some? ==> output.value == (Combined(Leading(query).value.0, cs, ns) + "}" + rest, tail))
  {
    var (block, all) := Leading(query).value;
    OutputBraces(query, cs, ns);
    UninjectedBraces(query);
    hide Strip, PlaceAfter, Combined, Trim, Safe, Leading, ScopeLogQL, BracedBlock, Close, Uninjected;
    InjectionCommented(block, cs, ns);
    var j := Close(all, Comment, true);
    rest, tail := all[..j], if j < |all| then all[j + 1..] else "";
  }

  lemma CommentBlocks(query: string, rest: string, cs: seq<string>, ns: seq<string>)
    requires cs != [] && forall n | n in cs + ns :: Safe(n)
    requires Leading(query).Some? && KeptEnd(query) == Comment
    ensures
      Strip(OUTSIDE, Combined(Leading(query).value.0, cs, ns) + "}" + rest) == Strip(OUTSIDE, Kept(query) + rest)
  {
    var block := Leading(query).value.0;
    hide Strip, PlaceAfter, Combined, Trim, Safe, Leading;
    InjectionCommented(block, cs, ns);
    CommentedRest(Combined(block, cs, ns), rest);
    StripAppend(OUTSIDE, Kept(query), rest);
  }

  /** Main theorem: when the kept text ends in a comment the injected text and the closing brace become part of it.
      Whatever the grants, the output reads as the same text without them, and its selector, if there is one, ends in
      what was the tail. */
  lemma CommentTakesInjection(query: string, cs: seq<string>, ns: seq<string>)
    requires cs != [] && forall n | n in cs + ns :: Safe(n)
    requires Leading(query).Some? && KeptEnd(query) == Comment
    ensures ScopeLogQL(query, cs, ns).Ok?
    ensures ParseSelector(ScopeLogQL(query, cs, ns).value) == ParseSelector(Uninjected(query))
    ensures ParseSelector(Uninjected(query)).Some? ==>
      |ParseSelector(Uninjected(query)).value.1| < |Leading(query).value.1|
  {
    hide Strip, ParseBlock, Combined, Safe, Leading, ScopeLogQL, BracedBlock, Uninjected, Kept, KeptEnd;
    var rest, tail := CommentGoesOnInBoth(query, cs, ns);
    CommentBlocks(query, rest, cs, ns);
  }

  /* It ends inside a double-quoted literal. */

  /** Names that are read as one piece wherever they are pasted. */
  predicate IsPlain(name: string) { Safe(name) && Free(name, ",`#") }

  lemma {:induction false} PlainPattern(names: seq<string>)
    requires forall n | n in names :: IsPlain(n)
    ensures Free(AlternationOf(names), ",`#\"\\")
  {
    PatternIsOrdinary(names, ",`#");
    var p := AlternationOf(names);
    forall i | 0 <= i < |p| ensures p[i] !in ",`#\"\\" { assert p[i] !in "\"\n\\{}()" + ",`#"; }
  }

  /** A piece that starts with a name pattern goes on with the quote behind it. */
  lemma {:induction false} PieceStarts(p: string, more: string)
    requires Free(p, ",`#\"\\")
    ensures p + "\"" <= Split(p + ("\"" + more), Plain)[0]
  {
    var s := p + ("\"" + more);
    if p == "" {
      assert s[0] == '"' && Split(s, Plain)[0][0] == '"';
    } else {
      assert s[1..] == p[1..] + ("\"" + more) && p == [p[0]] + p[1..];
      PieceStarts(p[1..], more);
      assert p[0] !in ",`#\"\\";
      assert Split(s, Plain)[0] == [p[0]] + Split(s[1..], Plain)[0];
    }
  }

  /** The pasted text up to the quote that closes the literal. */
  const CLOSING := ", cluster=~\""

  lemma ClosingIs()
    ensures CLOSING == [','] + (" cluster=~" + "\"")
    ensures Free(" cluster=~", "\"\n\\") && Free(" cluster=~", "\"\\")
  {}

  lemma QuoteCloses()
    ensures Scan(InString, "\"") == Plain
    ensures Strip(Code(InString), "\"") == "\"" && PlaceAfter(Code(InString), "\"", true) == OUTSIDE
  {
    assert "\""[1..] == "";
  }

  lemma InnerCloses(inner: string)
    requires Free(inner, "\"\\")
    ensures var s := inner + "\""; Strip(Code(InString), s) == s && PlaceAfter(Code(InString), s, true) == OUTSIDE
  {
    hide Strip, PlaceAfter, Free;
    QuoteCloses();
    StripNothing(InString, inner);
    StripAppend(Code(InString), inner, "\"");
    PlaceAppend(Code(InString), inner, "\"", true);
  }

  lemma CommaThen(m: Mode, s: string)
    requires InsideString(m)
    ensures Scan(m, [','] + s) == Scan(InString, s) && Split([','] + s, m) == Prefixed(',', Split(s, InString))
    ensures Strip(Code(m), [','] + s) == [','] + Strip(Code(InString), s)
    ensures PlaceAfter(Code(m), [','] + s, true) == PlaceAfter(Code(InString), s, true)
  {
    assert ([','] + s)[1..] == s;
    SplitUnfolds([','] + s, m);
  }

  lemma ClosingCloses(m: Mode)
    requires InsideString(m)
    ensures Scan(m, CLOSING) == Plain && Split(CLOSING, m) == [CLOSING]
    ensures Strip(Code(m), CLOSING) == CLOSING && PlaceAfter(Code(m), CLOSING, true) == OUTSIDE
  {
    var inner := " cluster=~";
    ClosingIs();
    hide Scan, Split, Strip, PlaceAfter, Free;
    CommaThen(m, inner + "\"");
    SplitInside(inner);
    ScanInside(inner);
    QuoteCloses();
    ScanAppend(InString, inner, "\"");
    InnerCloses(inner);
  }

  lemma PatternIsKept(p: string, more: string)
    requires Free(p, ",`#\"\\")
    ensures Strip(OUTSIDE, p + ("\"" + more)) == p + ("\"" + Strip(Code(InString), more))
  {
    assert ("\"" + more)[1..] == more;
    assert Strip(OUTSIDE, "\"" + more) == "\"" + Strip(Code(InString), more);
    forall i | 0 <= i < |p| ensures p[i] !in "\"`#" { assert p[i] !in ",`#\"\\"; }
    hide Strip;
    StripNothing(Plain, p);
    StripAppend(OUTSIDE, p, "\"" + more);
  }

  lemma Regrouped(existing: string, p: string, other: string, rest: string)
    ensures
      existing + (", " + ("cluster=~" + ("\"" + (p + "\"")) + other)) + rest ==
        existing + (", " + "cluster=~" + "\"" + (p + ("\"" + (other + rest))))
  {}

  lemma InjectionPieces(existing: string, rest: string, cs: seq<string>, ns: seq<string>) returns (more: string)
    ensures existing + (", " + InjectedText(cs, ns)) + rest ==
      existing + (CLOSING + (AlternationOf(cs) + ("\"" + more)))
  {
    var p := AlternationOf(cs);
    InjectedTextShape(cs, ns);
    var other := if ns == [] then "" else "," + (" " + RegexText("namespace", "", AlternationOf(ns)));
    assert RegexText("cluster", "", p) == "cluster=~" + ("\"" + (p + "\"")) by {
      OperatorJoins("cluster", "\"" + (p + "\""));
    }
    more := other + rest;
    assert CLOSING == ", " + "cluster=~" + "\"";
    hide InjectedText, AlternationOf, RegexText;
    Regrouped(existing, p, other, rest);
  }

  lemma OperatorJoins(name: string, operand: string)
    ensures name + ("" + ("=~" + ("" + operand))) == (name + "=~") + operand
  {
    assert "" + operand == operand && "" + ("=~" + operand) == "=~" + operand;
  }

  /** What the output's block reads as behind the kept text. */
  lemma ClosedBlock(block: string, rest: string, cs: seq<string>, ns: seq<string>) returns (w: string)
    requires forall n | n in cs :: IsPlain(n)
    requires var p := PlaceAfter(OUTSIDE, Trim(block, IsUnicodeSpace), true); p.Code? && InsideString(p.mode)
    ensures
      Strip(OUTSIDE, Combined(block, cs, ns) + rest) ==
        Strip(OUTSIDE, Trim(block, IsUnicodeSpace)) + (CLOSING + (AlternationOf(cs) + ("\"" + w)))
  {
    var existing := Trim(block, IsUnicodeSpace);
    var p := PlaceAfter(OUTSIDE, existing, true);
    assert PlaceAfter(OUTSIDE, "", true) == OUTSIDE;
    hide Strip, PlaceAfter, Trim, InjectedText, AlternationOf, Combined;
    CombinedIs(block, cs, ns);
    var more := InjectionPieces(existing, rest, cs, ns);
    ClosingCloses(p.mode);
    PlainPattern(cs);
    var pasted := AlternationOf(cs) + ("\"" + more);
    StripAppend(OUTSIDE, existing, CLOSING + pasted);
    StripAppend(p, CLOSING, pasted);
    PatternIsKept(AlternationOf(cs), more);
    w := Strip(Code(InString), more);
  }

  lemma GluedAt(x: seq<string>, y: seq<string>)
    requires x != [] && y != []
    ensures |x| <= |Glued(x, y)| && Glued(x, y)[|x| - 1] == x[|x| - 1] + y[0]
  {}

  lemma PrefixSplits(text: string, p: string) returns (r: string)
    requires p + "\"" <= text
    ensures text == p + ("\"" + r)
  {
    r := text[|p| + 1..];
    assert text == text[..|p| + 1] + r && text[..|p| + 1] == p + "\"";
  }

  lemma ClosedPiece(e: string, p: string, w: string) returns (r: string)
    requires InsideString(Scan(Plain, e)) && Free(p, ",`#\"\\")
    ensures
      var x, whole := Split(e, Plain), Split(e + (CLOSING + (p + ("\"" + w))), Plain);
      |x| <= |whole| && whole[|x| - 1] == x[|x| - 1] + CLOSING + (p + ("\"" + r))
  {
    hide Split, Scan, Free, Glued;
    var rest, m := p + ("\"" + w), Scan(Plain, e);
    ClosingCloses(m);
    SplitGlue(e, CLOSING + rest, Plain);
    SplitGlue(CLOSING, rest, m);
    PieceStarts(p, w);
    r := PrefixSplits(Split(rest, Plain)[0], p);
    GluedAt([CLOSING], Split(rest, Plain));
    GluedAt(Split(e, Plain), Split(CLOSING + rest, m));
    Regroup(Split(e, Plain)[|Split(e, Plain)| - 1], CLOSING, p + ("\"" + r));
  }

  lemma QuoteIsNoSpace(p: string, r: string)
    ensures !All(p + ("\"" + r), IsUnicodeSpace)
  {
    assert (p + ("\"" + r))[|p|] == '"';
  }

  /** Text that goes on behind the closing quote of a literal, and is no separator, makes a piece unreadable. */
  lemma ClosedIsUnreadable(e: string, p: string, w: string)
    requires InsideString(Scan(Plain, e)) && Free(p, ",`#\"\\")
    ensures ParseBlock(e + (CLOSING + (p + ("\"" + w)))).None?
  {
    var text := e + (CLOSING + (p + ("\"" + w)));
    if ParseBlock(text).Some? {
      hide Split, Scan, Free, ParseMatcher, ParseBlock, Trim, All;
      OpenIsNotBlank(e, CLOSING + (p + ("\"" + w)));
      BlockIs(text);
      var x, k := Split(e, Plain), |Split(e, Plain)| - 1;
      var r := ClosedPiece(e, p, w);
      LastPieceScan(e, Plain);
      ClosingCloses(Scan(Plain, e));
      ScanAppend(Plain, x[k], CLOSING);
      OpenUntilEnd(Split(text, Plain)[k], x[k], CLOSING, p + ("\"" + r));
      QuoteIsNoSpace(p, r);
    }
  }

  /** The output's block starts with the combined text. */
  lemma OutputBlock(query: string, cs: seq<string>, ns: seq<string>) returns (rest: string)
    requires cs != [] && (forall n | n in cs + ns :: Safe(n)) && Leading(query).Some?
    ensures ScopeLogQL(query, cs, ns).Ok?
    ensures
      var read := BracedBlock(ScopeLogQL(query, cs, ns).value, true);
      read.Some? ==> read.value.0 == Combined(Leading(query).value.0, cs, ns) + rest
  {
    var (block, tail) := Leading(query).value;
    OutputBraces(query, cs, ns);
    hide BracedBlock, Combined, Safe, Leading, ScopeLogQL, Close, PlaceAfter;
    var q := PlaceAfter(OUTSIDE, Combined(block, cs, ns), true);
    if q == OUTSIDE {
      rest := "";
    } else {
      rest := "}" + tail[..Close(tail, Move(q, '}', true), true)];
      Regroup(Combined(block, cs, ns), "}", tail[..Close(tail, Move(q, '}', true), true)]);
    }
  }

  /** Main theorem: when the kept text ends inside a double-quoted literal, no output for plain names reads. */
  lemma OpenStringIsUnreadable(query: string, cs: seq<string>, ns: seq<string>)
    requires cs != [] && forall n | n in cs + ns :: IsPlain(n)
    requires Leading(query).Some? && KeptEnd(query).Code? && InsideString(KeptEnd(query).mode)
    ensures ScopeLogQL(query, cs, ns).Ok? && ParseSelector(ScopeLogQL(query, cs, ns).value).None?
  {
    var block := Leading(query).value.0;
    assert forall n | n in cs :: n in cs + ns;
    assert forall n | n in cs + ns :: IsPlain(n) ==> Safe(n);
    hide Strip, PlaceAfter, ParseBlock, Combined, Trim, IsPlain, Safe, Leading, ScopeLogQL, BracedBlock, AlternationOf,
      Free, Scan;
    var rest := OutputBlock(query, cs, ns);
    var w := ClosedBlock(block, rest, cs, ns);
    ScanStripped(OUTSIDE, Kept(query));
    PlainPattern(cs);
    ClosedIsUnreadable(Strip(OUTSIDE, Kept(query)), AlternationOf(cs), w);
  }

  /* It ends inside a raw literal. */

  /** Pasted text: it does not end the literal, and its last character is neither space nor quote. */
  predicate IsPasted(y: string) { Free(y, "`") && y != "" && y[|y| - 1] == '}' }

  /** The matcher whose raw literal a text has begun: its value so far. */
  function RawBegun(g: string): Option<Matcher> {
    match Operation(TrimLeft(g, IsUnicodeSpace))
    case None => None
    case Some((kind, name, text)) =>
      match RawValue(TrimLeft(text, IsUnicodeSpace))
      case None => None
      case Some(value) => Some(Matcher(kind, name, value))
  }

  function RawValue(v: string): Option<string> {
    if v != "" && v[0] == '`' && Free(v[1..], "`") then Some(v[1..]) else None
  }

  /** The rest of a raw literal, to its end. */
  function RawEnd(r: string): Option<string> {
    var t := TrimRight(r, IsUnicodeSpace);
    if t != "" && t[|t| - 1] == '`' && Free(t[..|t| - 1], "`") then Some(t[..|t| - 1]) else None
  }

  /** A matcher with some text pasted into its raw literal. */
  function RawMatcher(begun: Option<Matcher>, y: string, end: Option<string>): Option<Matcher> {
    if begun.Some? && end.Some?
    then Some(Matcher(begun.value.kind, begun.value.name, begun.value.value + (y + end.value)))
    else None
  }

  lemma PastedIsTrimmed(y: string)
    requires IsPasted(y)
    ensures TrimRight(y, IsUnicodeSpace) == y
  {}

  lemma TrimAround(g: string, y: string, r: string)
    requires IsPasted(y) && !Free(g, "\"`")
    ensures Trim(g + (y + r), IsUnicodeSpace) == TrimLeft(g, IsUnicodeSpace) + (y + TrimRight(r, IsUnicodeSpace))
    ensures !Free(TrimLeft(g, IsUnicodeSpace), "\"`")
  {
    hide TrimLeft, TrimRight, Free;
    TrimKeepsQuote(g, y + r);
    PastedIsTrimmed(y);
    TrimRightThen(TrimLeft(g, IsUnicodeSpace), y + r, IsUnicodeSpace);
    TrimRightThen(y, r, IsUnicodeSpace);
    assert y + "" == y;
  }

  /** The literal in which a text ends is the one that its operand starts. */
  lemma OperandScans(s: string)
    requires Operation(s).Some?
    ensures Scan(Plain, s) == Scan(Plain, TrimLeft(Operation(s).value.2, IsUnicodeSpace))
  {
    var text := Operation(s).value.2;
    hide Operation, TrimLeft, Scan, Free, All;
    var front := OperationFront(s);
    var cut := TrimLeftParts(text, IsUnicodeSpace);
    var v := TrimLeft(text, IsUnicodeSpace);
    SpacesAreFree(cut);
    NoQuoteNoLiteral(front);
    NoQuoteNoLiteral(cut);
    ScanAppend(Plain, front, text);
    ScanAppend(Plain, cut, v);
  }

  lemma LeftTrimScans(g: string)
    ensures Scan(Plain, TrimLeft(g, IsUnicodeSpace)) == Scan(Plain, g)
  {
    var cut := TrimLeftParts(g, IsUnicodeSpace);
    SpacesAreFree(cut);
    NoQuoteNoLiteral(cut);
    ScanAppend(Plain, cut, TrimLeft(g, IsUnicodeSpace));
  }

  lemma StringIsLeft(v: string, more: string)
    requires v != "" && v[0] == '"' && Scan(Plain, v) == InRaw
    ensures Unquote(v[1..] + more).None?
  {
    assert (v[1..] + more)[..|v[1..]|] == v[1..];
    if Unquote(v[1..] + more).Some? { ContentsStay(v[1..] + more, |v[1..]|); }
  }

  lemma BodyOf(v: string, y: string, last: string)
    requires v != "" && last != ""
    ensures
      var whole := v + (y + last);
      |whole| >= 2 && whole[0] == v[0] && whole[|whole| - 1] == last[|last| - 1] &&
      whole[1..|whole| - 1] == v[1..] + (y + last[..|last| - 1])
  {}

  /** A literal that is raw where `y` is pasted. */
  lemma RawLiteral(v: string, y: string, r: string)
    requires v != "" && Scan(Plain, v) == InRaw && IsPasted(y)
    ensures
      Literal(v + (y + TrimRight(r, IsUnicodeSpace))) ==
        if RawValue(v).Some? && RawEnd(r).Some? then Some(RawValue(v).value + (y + RawEnd(r).value)) else None
  {
    var last := TrimRight(r, IsUnicodeSpace);
    var whole := v + (y + last);
    hide TrimRight, Scan, Unquote;
    if last == "" {
      assert y + last == y && whole[|whole| - 1] == '}';
    } else {
      BodyOf(v, y, last);
      var inner := last[..|last| - 1];
      FreeAppend(v[1..], y + inner, "`");
      FreeAppend(y, inner, "`");
      if v[0] == '"' { StringIsLeft(v, y + inner); }
    }
  }

  lemma RawOperand(s: string, y: string, r: string)
    requires Operation(s).Some? && !Free(Operation(s).value.2, "\"`") && Scan(Plain, s) == InRaw && IsPasted(y)
    ensures
      var (kind, name, text) := Operation(s).value;
      var v := RawValue(TrimLeft(text, IsUnicodeSpace));
      WithValue(kind, name, text + (y + TrimRight(r, IsUnicodeSpace))) ==
        if v.Some? && RawEnd(r).Some? then Some(Matcher(kind, name, v.value + (y + RawEnd(r).value))) else None
  {
    var text := Operation(s).value.2;
    hide Operation, TrimLeft, TrimRight, Scan, Free, Literal, RawValue, RawEnd, IsPasted;
    OperandScans(s);
    TrimKeepsQuote(text, y + TrimRight(r, IsUnicodeSpace));
    RawLiteral(TrimLeft(text, IsUnicodeSpace), y, r);
  }

  lemma RawPiece(g: string, y: string, r: string)
    requires Scan(Plain, g) == InRaw && IsPasted(y)
    ensures ParseMatcher(g + (y + r)) == RawMatcher(RawBegun(g), y, RawEnd(r))
  {
    if Free(g, "\"`") { NoQuoteNoLiteral(g); }
    hide Operation, TrimLeft, TrimRight, Trim, Scan, Free, WithValue, RawValue, RawEnd, IsPasted;
    var s, z := TrimLeft(g, IsUnicodeSpace), y + TrimRight(r, IsUnicodeSpace);
    TrimAround(g, y, r);
    LeftTrimScans(g);
    if Operation(s).Some? || Operation(s + z).Some? {
      OperationThen(s, z);
      RawOperand(s, y, r);
    }
  }

  lemma {:induction false} RawIsOne(y: string)
    requires Free(y, "`")
    ensures Split(y, InRaw) == [y] && Strip(Code(InRaw), y) == y && PlaceAfter(Code(InRaw), y, true) == Code(InRaw)
    decreases |y|
  {
    if y != "" {
      RawIsOne(y[1..]);
      assert [y[0]] + y[1..] == y;
    }
  }

  /** The pieces of a text with `y` pasted into a raw literal: only the piece at the seam has it. */
  lemma RawPieces(e: string, y: string, w: string)
    requires Scan(Plain, e) == InRaw && IsPasted(y)
    ensures
      var x, rest := Split(e, Plain), Split(w, InRaw);
      Split(e + (y + w), Plain) == x[..|x| - 1] + [x[|x| - 1] + (y + rest[0])] + rest[1..]
  {
    RawIsOne(y);
    RawStays(y);
    hide Split, Scan, Free;
    SplitGlue(e, y + w, Plain);
    SplitGlue(y, w, InRaw);
    var rest := Split(w, InRaw);
    assert Glued([y], rest) == [y + rest[0]] + rest[1..];
    assert ([y + rest[0]] + rest[1..])[1..] == rest[1..];
  }

  lemma SeamScans(e: string)
    requires Scan(Plain, e) == InRaw
    ensures var x := Split(e, Plain); Scan(Plain, x[|x| - 1]) == InRaw
  {
    LastPieceScan(e, Plain);
  }

  /** One list of pieces that read, and another that differs in one of them. */
  lemma OtherPieces(a: seq<string>, b: seq<string>, k: nat)
    requires |a| == |b| && k < |a| && (forall i | 0 <= i < |a| && i != k :: a[i] == b[i])
    requires ParseMatcher(a[k]).Some? <==> ParseMatcher(b[k]).Some?
    ensures ParseAll(a).Some? <==> ParseAll(b).Some?
    ensures ParseAll(a).Some? ==> ParseAll(b).value == ParseAll(a).value[k := ParseMatcher(b[k]).value]
  {
    hide ParseMatcher;
    assert ParseAll(a).Some? ==> forall i | 0 <= i < |b| :: ParseMatcher(b[i]).Some?;
    assert ParseAll(b).Some? ==> forall i | 0 <= i < |a| :: ParseMatcher(a[i]).Some?;
  }

  /** Two texts pasted into the same raw literal: each reads when the other does, and only the one value differs. */
  lemma RawSeam(e: string, y: string, z: string, w: string)
      returns (k: nat, begun: Option<Matcher>, end: Option<string>)
    requires Scan(Plain, e) == InRaw && IsPasted(y) && IsPasted(z)
    ensures
      var one, other := ParseBlock(e + (y + w)), ParseBlock(e + (z + w));
      && (one.Some? <==> other.Some?)
      && (one.Some? ==> begun.Some? && end.Some? && k < |one.value| && Some(one.value[k]) == RawMatcher(begun, y, end))
      && (one.Some? ==> other.value == one.value[k := RawMatcher(begun, z, end).value])
  {
    hide Split, Scan, ParseBlock, ParseMatcher, Trim, IsPasted, RawBegun, RawEnd, RawMatcher;
    var x, rest := Split(e, Plain), Split(w, InRaw);
    k, begun, end := |x| - 1, RawBegun(x[|x| - 1]), RawEnd(rest[0]);
    OpenIsNotBlank(e, y + w);
    OpenIsNotBlank(e, z + w);
    BlockIs(e + (y + w));
    BlockIs(e + (z + w));
    RawPieces(e, y, w);
    RawPieces(e, z, w);
    SeamScans(e);
    RawPiece(x[k], y, rest[0]);
    RawPiece(x[k], z, rest[0]);
    BothRaw(begun, y, z, end);
    OtherPieces(Split(e + (y + w), Plain), Split(e + (z + w), Plain), k);
  }

  lemma BothRaw(begun: Option<Matcher>, y: string, z: string, end: Option<string>)
    ensures RawMatcher(begun, y, end).Some? <==> begun.Some? && end.Some?
    ensures RawMatcher(begun, z, end).Some? <==> begun.Some? && end.Some?
  {}

  lemma RawGoesOnWith(y: string, rest: string)
    requires IsPasted(y)
    ensures Strip(Code(InRaw), y + rest) == y + Strip(Code(InRaw), rest)
  {
    RawIsOne(y);
    StripAppend(Code(InRaw), y, rest);
  }

  /** The query's own block: space and the brace are in the literal. */
  lemma RawBlock(block: string, rest: string) returns (before: string, pad: string)
    requires PlaceAfter(OUTSIDE, Trim(block, IsUnicodeSpace), true) == Code(InRaw)
    ensures PlaceAfter(OUTSIDE, block, true) == Code(InRaw)
    ensures All(before, IsUnicodeSpace) && All(pad, IsUnicodeSpace) && IsPasted(pad + "}")
    ensures
      Strip(OUTSIDE, block + "}" + rest) ==
        before + (Strip(OUTSIDE, Trim(block, IsUnicodeSpace)) + (pad + "}" + Strip(Code(InRaw), rest))) + ""
  {
    var e := Strip(OUTSIDE, Trim(block, IsUnicodeSpace));
    hide Strip, PlaceAfter, Trim, All, Free;
    before, pad := StripTrimmed(block);
    SpacesAreFree(pad);
    NoBackquoteIn(pad);
    RawIsOne(pad);
    assert (pad + "}")[|pad|] == '}';
    RawGoesOnWith("}", rest);
    StripAppend(OUTSIDE, block, "}" + rest);
    Regroup(block, "}", rest);
    RawGrouped(before, e, pad, Strip(Code(InRaw), rest));
  }

  lemma NoBackquoteIn(pad: string)
    requires Free(pad, "\"`")
    ensures Free(pad, "`") && Free(pad + "}", "`") && IsPasted("}")
  {}

  lemma RawGrouped(before: string, e: string, pad: string, rest: string)
    ensures before + e + pad + ("}" + rest) == before + (e + (pad + "}" + rest)) + ""
  {}

  /** The output's block: so are the injected text and the brace. */
  lemma RawOutputBlock(block: string, rest: string, cs: seq<string>, ns: seq<string>)
    requires PlaceAfter(OUTSIDE, Trim(block, IsUnicodeSpace), true) == Code(InRaw)
    requires Free(", " + InjectedText(cs, ns) + "}", "`")
    ensures PlaceAfter(OUTSIDE, Combined(block, cs, ns), true) == Code(InRaw)
    ensures IsPasted(", " + InjectedText(cs, ns) + "}")
    ensures
      Strip(OUTSIDE, Combined(block, cs, ns) + "}" + rest) ==
        Strip(OUTSIDE, Trim(block, IsUnicodeSpace)) + (", " + InjectedText(cs, ns) + "}" + Strip(Code(InRaw), rest))
  {
    var existing, pasted := Trim(block, IsUnicodeSpace), ", " + InjectedText(cs, ns);
    assert PlaceAfter(OUTSIDE, "", true) == OUTSIDE;
    hide Strip, PlaceAfter, Trim, InjectedText, Combined, Free, IsPasted;
    CombinedIs(block, cs, ns);
    ClosedPaste(pasted);
    RawIsOne(pasted);
    PlaceAppend(OUTSIDE, existing, pasted, true);
    RawGoesOnWith(pasted + "}", rest);
    StripAppend(OUTSIDE, existing, pasted + "}" + rest);
    FourPieces(existing, pasted, "}", rest);
  }

  lemma FourPieces(a: string, b: string, c: string, d: string)
    ensures a + b + c + d == a + (b + c + d)
  {}

  lemma ClosedPaste(pasted: string)
    requires Free(pasted + "}", "`")
    ensures Free(pasted, "`") && IsPasted(pasted + "}")
  {
    FreeAppend(pasted, "}", "`");
    assert (pasted + "}")[|pasted|] == '}';
  }

  lemma RawBraces(query: string, cs: seq<string>, ns: seq<string>) returns (j: nat)
    requires cs != [] && (forall n | n in cs + ns :: Safe(n)) && Leading(query).Some?
    requires PlaceAfter(OUTSIDE, Leading(query).value.0, true) == Code(InRaw)
    requires PlaceAfter(OUTSIDE, Combined(Leading(query).value.0, cs, ns), true) == Code(InRaw)
    ensures ScopeLogQL(query, cs, ns).Ok? && j <= |Leading(query).value.1|
    ensures
      var (block, tail) := Leading(query).value;
      var read, output := BracedBlock(query, true), BracedBlock(ScopeLogQL(query, cs, ns).value, true);
      if j == |tail| then read == output == None
      else
        && read == Some((block + "}" + tail[..j], tail[j + 1..]))
        && output == Some((Combined(block, cs, ns) + "}" + tail[..j], tail[j + 1..]))
  {
    var (block, tail) := Leading(query).value;
    hide ScopeLogQL, BracedBlock, Combined, Leading, Safe, Close, PlaceAfter;
    j := Close(tail, Code(InRaw), true);
    LeadingRead(query, true);
    OutputBraces(query, cs, ns);
  }

  /** Main theorem: when the kept text ends inside a raw literal, and no name holds a backquote, the output reads just
      when the query does, and differs from it in nothing but the value of that literal: the injected text stands there
      in the place of the space before the brace. */
  lemma RawLiteralTakesInjection(query: string, cs: seq<string>, ns: seq<string>)
    returns (k: nat, begun: string, pad: string, end: string)
    requires cs != [] && forall n | n in cs + ns :: Safe(n) && Free(n, "`")
    requires Leading(query).Some? && KeptEnd(query) == Code(InRaw)
    ensures ScopeLogQL(query, cs, ns).Ok? && All(pad, IsUnicodeSpace)
    ensures
      var read, output := ParseSelector(query), ParseSelector(ScopeLogQL(query, cs, ns).value);
      && (read.Some? <==> output.Some?)
      && (read.Some? ==> k < |read.value.0| && read.value.0[k].value == begun + (pad + "}" + end))
      && (read.Some? ==>
           output.value.0 ==
             read.value.0[k := read.value.0[k].(value := begun + (", " + InjectedText(cs, ns) + "}" + end))])
      && (read.Some? ==> output.value.1 == read.value.1)
  {
    var (block, tail) := Leading(query).value;
    var e, z := Strip(OUTSIDE, Kept(query)), ", " + InjectedText(cs, ns) + "}";
    hide ScopeLogQL, BracedBlock, Combined, Leading, Safe, Close, PlaceAfter, Strip, Trim, ParseBlock, InjectedText,
      IsPasted, Free;
    ScanStripped(OUTSIDE, Kept(query));
    NoBackquote(cs, ns);
    var before: string;
    before, pad := RawBlock(block, "");
    RawOutputBlock(block, "", cs, ns);
    var j := RawBraces(query, cs, ns);
    k, begun, end := 0, "", "";
    if j < |tail| {
      before, pad := RawBlock(block, tail[..j]);
      RawOutputBlock(block, tail[..j], cs, ns);
      var w := Strip(Code(InRaw), tail[..j]);
      SameBlock(before, e + (pad + "}" + w));
      var start: Option<Matcher>, rest: Option<string>;
      k, start, rest := RawSeam(e, pad + "}", z, w);
      if ParseBlock(e + (pad + "}" + w)).Some? {
        begun, end := start.value.value, rest.value;
      }
    }
  }

  /* Every text the code accepts. */

  /** Main theorem: for every text that the code accepts, well formed or not, and safe names, an output that reads
      is the scoped selector just when the kept text ends outside literals and comments. */
  lemma AcceptedIsScopedIff(query: string, cs: seq<string>, ns: seq<string>)
    requires cs != [] && forall n | n in cs + ns :: Safe(n)
    requires Leading(query).Some?
    ensures ScopeLogQL(query, cs, ns).Ok?
    ensures
      var output := ParseSelector(ScopeLogQL(query, cs, ns).value);
      output.Some? ==> (output == Scoped(query, cs, ns) <==> KeptEnd(query) == OUTSIDE)
  {
    OutputBraces(query, cs, ns);
    hide ScopeLogQL, ParseSelector, Leading, Safe, PlaceAfter, Strip, Trim, ParseBlock, BracedBlock;
    if KeptEnd(query) == OUTSIDE {
      KeptSelectorReads(query, cs, ns);
    } else if KeptEnd(query) == Comment {
      CommentTakesInjection(query, cs, ns);
    } else {
      ScanStripped(OUTSIDE, Kept(query));
      if KeptMatchers(query).Some? { BlockEndsOutside(Strip(OUTSIDE, Kept(query))); }
    }
  }

  predicate AreGrants(cs: seq<string>, ns: seq<string>) { cs != [] && forall n | n in cs + ns :: IsPlain(n) }

  function Output(query: string, cs: seq<string>, ns: seq<string>): string
    requires Leading(query).Some? && cs != []
  {
    ScopeLogQL(query, cs, ns).value
  }

  /** Whether the output reads, which does not depend on the grants. */
  predicate OutputReads(query: string)
    requires Leading(query).Some?
  {
    match KeptEnd(query)
    case Comment => ParseSelector(Uninjected(query)).Some?
    case Code(Plain) => KeptMatchers(query).Some?
    case Code(InRaw) => ParseSelector(query).Some?
    case _ => false
  }

  lemma PlainIsSafe(cs: seq<string>, ns: seq<string>)
    requires AreGrants(cs, ns)
    ensures forall n | n in cs + ns :: Safe(n) && Free(n, "`")
  {
    forall n | n in cs + ns ensures Safe(n) && Free(n, "`") {
      assert IsPlain(n);
      forall i | 0 <= i < |n| ensures n[i] !in "`" { assert n[i] !in ",`#"; }
    }
  }

  lemma OutputReadsIff(query: string, cs: seq<string>, ns: seq<string>)
    requires Leading(query).Some? && AreGrants(cs, ns)
    ensures ParseSelector(Output(query, cs, ns)).Some? <==> OutputReads(query)
  {
    hide ScopeLogQL, ParseSelector, Leading, Safe, IsPlain, PlaceAfter, Strip, Trim, ParseBlock, BracedBlock;
    PlainIsSafe(cs, ns);
    match KeptEnd(query)
    case Comment => CommentTakesInjection(query, cs, ns);
    case Code(Plain) => KeptSelectorReads(query, cs, ns);
    case Code(InRaw) => var k, begun, pad, end := RawLiteralTakesInjection(query, cs, ns);
    case Code(_) => OpenStringIsUnreadable(query, cs, ns);
  }

  /** Whatever the grants, an output that reads is the scoped selector. */
  ghost predicate AlwaysScoped(query: string)
    requires Leading(query).Some?
  {
    forall cs, ns | AreGrants(cs, ns) ::
      var output := ParseSelector(Output(query, cs, ns));
      output.Some? ==> output == Scoped(query, cs, ns)
  }

  lemma OneGrant()
    ensures AreGrants(["g"], [])
  {
    assert ["g"] + [] == ["g"];
  }

  /** Main theorem: for every text that the code accepts, the rewrite is right, whatever the grants, if and only if the
      kept text ends outside literals and comments, or no output reads at all. */
  lemma ScopedWhateverTheGrants(query: string)
    requires Leading(query).Some?
    ensures AlwaysScoped(query) <==> KeptEnd(query) == OUTSIDE || !OutputReads(query)
  {
    hide ScopeLogQL, ParseSelector, Leading, Safe, IsPlain, KeptEnd, Scoped, OutputReads;
    OneGrant();
    PlainIsSafe(["g"], []);
    AcceptedIsScopedIff(query, ["g"], []);
    OutputReadsIff(query, ["g"], []);
    forall cs, ns | AreGrants(cs, ns) && ParseSelector(Output(query, cs, ns)).Some?
      ensures KeptEnd(query) == OUTSIDE ==> ParseSelector(Output(query, cs, ns)) == Scoped(query, cs, ns)
      ensures OutputReads(query) {
      PlainIsSafe(cs, ns);
      AcceptedIsScopedIff(query, cs, ns);
      OutputReadsIff(query, cs, ns);
    }
  }

  /* Queries that only the rewrite completes. */

  lemma HashLine(b: string)
    ensures Strip(OUTSIDE, ",#" + ("\n" + b)) == "," + ("\n" + Strip(OUTSIDE, b))
    ensures PlaceAfter(OUTSIDE, ",#" + ("\n" + b), true) == PlaceAfter(OUTSIDE, b, true)
  {
    var s := ",#" + ("\n" + b);
    assert s[0] == ',' && s[1..][0] == '#' && s[1..][1..] == "\n" + b && ("\n" + b)[1..] == b;
    assert Strip(OUTSIDE, s) == "," + Strip(OUTSIDE, s[1..]) && Strip(OUTSIDE, s[1..]) == Strip(Comment, "\n" + b);
    assert PlaceAfter(OUTSIDE, s, true) == PlaceAfter(Comment, "\n" + b, true);
  }

  lemma HashPlace()
    ensures PlaceAfter(OUTSIDE, ",#", true) == Comment
  {
    assert ",#"[1..] == "#" && "#"[1..] == "";
  }

  lemma LineFeedIsUnreadable(a: string)
    requires Trim(a, IsUnicodeSpace) != "" && Scan(Plain, a) == Plain
    ensures ParseBlock(a + ("," + "\n")).None?
  {
    var text := a + ("," + "\n");
    LongerIsNotBlank(a, "," + "\n");
    assert Trim("\n", IsUnicodeSpace) == "" && ParseMatcher("\n").None?;
    SplitSpaces("\n", Plain);
    hide Split, Trim, ParseMatcher, ParseBlock, Scan;
    BlockIs(text);
    assert a + "," + "\n" == text;
    SplitAppend(a, "\n", Plain);
    var x := Split(a, Plain);
    assert Split(text, Plain)[|x|] == "\n";
  }

  /** The query of the witnesses: a comment, a line feed and a brace between two blocks. */
  function TwoBlocks(a: string, b: string): string { "{" + (a + (",#" + "\n")) + "}" + ("\n" + b + "}") }

  lemma TwoBlocksLead(a: string, b: string)
    requires IsTrimmed(a, IsUnicodeSpace) && a != "" && Free(a, "}")
    ensures Leading(TwoBlocks(a, b)) == Some((a + (",#" + "\n"), "\n" + b + "}")) && Kept(TwoBlocks(a, b)) == a + ",#"
  {
    var block, kept := a + (",#" + "\n"), a + ",#";
    assert block == "" + kept + "\n" && kept[0] == a[0] && kept[|kept| - 1] == '#';
    FreeAppend(a, ",#" + "\n", "}");
    hide Leading, Trim, Free;
    LeadingOf(block, "\n" + b + "}");
    TrimPadded("", kept, "\n", IsUnicodeSpace);
  }

  lemma TwoBlocksDoNotRead(a: string, b: string)
    requires IsTrimmed(a, IsUnicodeSpace) && a != "" && Free(a, "}") && PlaceAfter(OUTSIDE, a, true) == OUTSIDE
    ensures ParseSelector(TwoBlocks(a, b)).None?
  {
    var block := a + (",#" + "\n");
    assert ",#" + ("\n" + "") == ",#" + "\n" && Strip(OUTSIDE, "") == "" && PlaceAfter(OUTSIDE, "", true) == OUTSIDE;
    assert "," + ("\n" + "") == "," + "\n";
    hide Leading, Trim, Free, Strip, PlaceAfter, BracedBlock, ParseBlock, TwoBlocks;
    TwoBlocksLead(a, b);
    LeadingRead(TwoBlocks(a, b), true);
    HashLine("");
    PlaceAppend(OUTSIDE, a, ",#" + "\n", true);
    StripAppend(OUTSIDE, a, ",#" + "\n");
    LastIsKept(a);
    ScanStripped(OUTSIDE, a);
    LineFeedIsUnreadable(Strip(OUTSIDE, a));
  }

  lemma SecondBlock(b: string, more: seq<Matcher>)
    requires PlaceAfter(OUTSIDE, b, true) == OUTSIDE
    requires ParseBlock(Strip(OUTSIDE, b)) == Some(more) && more != []
    ensures ParseAll(Split("\n" + Strip(OUTSIDE, b), Plain)) == Some(more) &&
      Scan(Plain, "\n" + Strip(OUTSIDE, b)) == Plain
  {
    var e := Strip(OUTSIDE, b);
    assert Trim(e, IsUnicodeSpace) != "";
    ScanStripped(OUTSIDE, b);
    assert ("\n" + e)[1..] == e;
    assert "\n" + e + "" == "\n" + e;
    hide Trim, ParseBlock, Strip, PlaceAfter, Split;
    SameBlock("\n", e);
    if Trim("\n" + e, IsUnicodeSpace) == "" {
      BlankIsSpace("\n" + e);
      BlankRest(e);
    }
    BlockIs("\n" + e);
  }

  lemma BlankRest(e: string)
    requires All("\n" + e, IsUnicodeSpace)
    ensures Trim(e, IsUnicodeSpace) == ""
  {
    forall i | 0 <= i < |e| ensures IsUnicodeSpace(e[i]) { assert ("\n" + e)[i + 1] == e[i]; }
    assert "" + "" + e == e && Trim("", IsUnicodeSpace) == "";
    TrimIgnoresPadding("", "", e, IsUnicodeSpace);
  }

  lemma TwoBlocksText(a: string, b: string)
    requires Free(a, "}") && Free(b, "}")
    ensures
      var front := a + (",#" + ("\n" + b));
      && a + ",#" + ("\n" + b + "}") == front + "}" && Free(front, "}")
      && (front + "}")[..|front|] == front && (front + "}")[|front| + 1..] == ""
  {
    assert Free(",#", "}") && Free("\n", "}");
    hide Free;
    FreeAppend(a, ",#" + ("\n" + b), "}");
    FreeAppend(",#", "\n" + b, "}");
    FreeAppend("\n", b, "}");
  }

  lemma TwoBlocksUninjected(a: string, b: string, ms: seq<Matcher>, more: seq<Matcher>)
    requires IsTrimmed(a, IsUnicodeSpace) && a != "" && Free(a, "}") && PlaceAfter(OUTSIDE, a, true) == OUTSIDE
    requires ParseBlock(Strip(OUTSIDE, a)) == Some(ms)
    requires Free(b, "}") && PlaceAfter(OUTSIDE, b, true) == OUTSIDE
    requires ParseBlock(Strip(OUTSIDE, b)) == Some(more) && more != []
    ensures ParseSelector("{" + (a + ",#" + ("\n" + b + "}"))) == Some((ms + more, ""))
  {
    var comment := ",#" + ("\n" + b);
    var front := a + comment;
    assert Close("}", OUTSIDE, true) == 0;
    hide Free, Trim, Strip, PlaceAfter, BracedBlock, ParseBlock, Close, Split, Scan;
    TwoBlocksText(a, b);
    BracedOpen(front + "}");
    HashLine(b);
    PlaceAppend(OUTSIDE, a, comment, true);
    StripAppend(OUTSIDE, a, comment);
    CloseAppend(front, "}", OUTSIDE, true);
    LastIsKept(a);
    ScanStripped(OUTSIDE, a);
    SecondBlock(b, more);
    BlocksRead(Strip(OUTSIDE, a), "\n" + Strip(OUTSIDE, b), ms, more);
  }

  /** A family of texts that do not read, and whose output reads without what was to be injected, whatever the
      grants. */
  lemma CommentCompletesQuery(a: string, b: string, ms: seq<Matcher>, more: seq<Matcher>, cs: seq<string>,
      ns: seq<string>)
    requires cs != [] && forall n | n in cs + ns :: Safe(n)
    requires IsTrimmed(a, IsUnicodeSpace) && a != "" && Free(a, "}") && PlaceAfter(OUTSIDE, a, true) == OUTSIDE
    requires ParseBlock(Strip(OUTSIDE, a)) == Some(ms)
    requires Free(b, "}") && PlaceAfter(OUTSIDE, b, true) == OUTSIDE
    requires ParseBlock(Strip(OUTSIDE, b)) == Some(more) && more != []
    ensures
      var query := TwoBlocks(a, b);
      && ParseSelector(query).None?
      && ScopeLogQL(query, cs, ns).Ok? && ParseSelector(ScopeLogQL(query, cs, ns).value) == Some((ms + more, ""))
  {
    hide Leading, Trim, Free, Strip, PlaceAfter, ParseSelector, ParseBlock, TwoBlocks, ScopeLogQL, Safe;
    TwoBlocksLead(a, b);
    TwoBlocksDoNotRead(a, b);
    HashPlace();
    PlaceAppend(OUTSIDE, a, ",#", true);
    CommentTakesInjection(TwoBlocks(a, b), cs, ns);
    TwoBlocksUninjected(a, b, ms, more);
  }

  lemma LetterText(name: string, value: string)
    requires name in ["a", "c"] && value in ["b", "d"]
    ensures EqualText(name, value) != "" && Free(EqualText(name, value), "}")
    ensures AllNameChars(name) && Free(value, "\"\n\\") && Free(value, "\"\\")
  {
    var text := EqualText(name, value);
    assert text == name + "=\"" + value + "\"";
  }

  lemma LetterBlock(name: string, value: string)
    requires name in ["a", "c"] && value in ["b", "d"]
    ensures
      var text := EqualText(name, value);
      && IsTrimmed(text, IsUnicodeSpace) && text != "" && Free(text, "}") && PlaceAfter(OUTSIDE, text, true) == OUTSIDE
      && ParseBlock(Strip(OUTSIDE, text)) == Some([Matcher(MatchEqual, name, value)])
  {
    assert name != "";
    hide ParseBlock, Strip, PlaceAfter, EqualText, Free, AllNameChars;
    LetterText(name, value);
    EqualTextIsKept(name, value);
    EqualBlockReads(name, value);
  }

  const COMMENTED := "{a=\"b\",#\n}\nc=\"d\"}"

  lemma CommentedIs()
    ensures TwoBlocks(EqualText("a", "b"), EqualText("c", "d")) == COMMENTED
  {
    assert EqualText("a", "b") == "a=\"b\"" && EqualText("c", "d") == "c=\"d\"";
  }

  /** One of them. */
  lemma CommentedOut(cs: seq<string>, ns: seq<string>)
    requires cs != [] && forall n | n in cs + ns :: Safe(n)
    ensures ParseSelector(COMMENTED).None?
    ensures ScopeLogQL(COMMENTED, cs, ns).Ok?
    ensures ParseSelector(ScopeLogQL(COMMENTED, cs, ns).value)
        == Some(([Matcher(MatchEqual, "a", "b"), Matcher(MatchEqual, "c", "d")], ""))
  {
    hide ParseSelector, ScopeLogQL, Safe, Strip, PlaceAfter, ParseBlock, EqualText, TwoBlocks, Free;
    CommentedIs();
    LetterBlock("a", "b");
    LetterBlock("c", "d");
    var m1, m2 := Matcher(MatchEqual, "a", "b"), Matcher(MatchEqual, "c", "d");
    CommentCompletesQuery(EqualText("a", "b"), EqualText("c", "d"), [m1], [m2], cs, ns);
    assert [m1] + [m2] == [m1, m2];
  }
}
