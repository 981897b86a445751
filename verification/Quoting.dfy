/** How LogQL and TraceQL text is read around string literals, and when a name pattern survives being
    pasted between double quotes, which is how both rewrites inject it. */
module Quoting {
  import opened Wrappers
  import opened Text
  import opened Regex
  import opened Alternation

  datatype Mode = Plain | InString | AfterBackslash | InRaw

  function Next(m: Mode, c: char): Mode {
    match m
    case Plain => if c == '"' then InString else if c == '`' then InRaw else Plain
    case InString => if c == '"' then Plain else if c == '\\' then AfterBackslash else InString
    case AfterBackslash => InString
    case InRaw => if c == '`' then Plain else InRaw
  }

  function Scan(m: Mode, s: string): Mode
    decreases |s|
  {
    if s == "" then m else Scan(Next(m, s[0]), s[1..])
  }

  lemma {:induction false} ScanAppend(m: Mode, a: string, b: string)
    ensures Scan(m, a + b) == Scan(Scan(m, a), b)
    decreases |a|
  {
    if a == "" {
      assert a + b == b;
    } else {
      assert (a + b)[1..] == a[1..] + b;
      ScanAppend(Next(m, a[0]), a[1..], b);
    }
  }

  lemma {:induction false} ScanOrdinary(m: Mode, s: string)
    requires m != AfterBackslash && Free(s, "\"`\\")
    ensures Scan(m, s) == m
  {
    if s != "" { ScanOrdinary(m, s[1..]); }
  }

  /** Space at either end does not change whether a text ends outside a literal, or in which kind. */
  lemma ScanTrimmed(s: string)
    ensures Scan(Plain, s) == Plain <==> Scan(Plain, Trim(s, IsUnicodeSpace)) == Plain
    ensures Scan(Plain, s) == InRaw <==> Scan(Plain, Trim(s, IsUnicodeSpace)) == InRaw
  {
    var t := Trim(s, IsUnicodeSpace);
    var before, after := TrimParts(s, IsUnicodeSpace);
    ScanAppend(Plain, before + t, after);
    ScanAppend(Plain, before, t);
    ScanSpaces(Plain, before);
    ScanSpaces(Scan(Plain, t), after);
  }

  lemma {:induction false} ScanSpaces(m: Mode, s: string)
    requires All(s, IsUnicodeSpace)
    ensures Scan(m, s) == m || (m == AfterBackslash && Scan(m, s) == InString)
    decreases |s|
  {
    if s != "" { ScanSpaces(Next(m, s[0]), s[1..]); }
  }

  /** The digits of a base up to sixteen. */
  function Digit(c: char, radix: nat): Option<nat> {
    var d := if IsDigit(c) then (c - '0') as nat
      else if 'a' <= c <= 'f' then (c - 'a') as nat + 10
      else if 'A' <= c <= 'F' then (c - 'A') as nat + 10
      else 16;
    if d < radix then Some(d) else None
  }

  /** The number that the digits spell, after `value`. */
  function Number(digits: string, radix: nat, value: nat): Option<nat>
    decreases |digits|
  {
    if digits == "" then Some(value)
    else match Digit(digits[0], radix)
      case None => None
      case Some(d) => Number(digits[1..], radix, value * radix + d)
  }

  /** The character with a code, up to a limit; surrogates are none. */
  function Character(code: nat, limit: nat): Option<char> {
    if code <= limit && (code < 0xD800 || 0xE000 <= code <= 0x10FFFF) then Some(code as char) else None
  }

  /** `n` digits from position `i` on, as a character: the escape ends behind them. */
  function Numeric(s: string, i: nat, n: nat, radix: nat, limit: nat): (r: Option<(char, nat)>)
    ensures r.Some? ==> r.value.1 == i + n <= |s|
  {
    if i + n > |s| then None
    else match Number(s[i..i + n], radix, 0)
      case None => None
      case Some(code) => match Character(code, limit) case None => None case Some(c) => Some((c, i + n))
  }

  /** The escape that a backslash starts: its character and its length. */
  function Escape(s: string): (r: Option<(char, nat)>)
    requires s != ""
    ensures r.Some? ==> 2 <= r.value.1 <= |s|
  {
    if |s| < 2 then None
    else if s[1] in "abfnrtv\\\"" then Some((Unescape(s[1]), 2))
    else if s[1] == 'x' then Numeric(s, 2, 2, 16, 0xFF)
    else if s[1] == 'u' then Numeric(s, 2, 4, 16, 0x10FFFF)
    else if s[1] == 'U' then Numeric(s, 2, 8, 16, 0x10FFFF)
    else Numeric(s, 1, 3, 8, 0xFF)
  }

  /** Contents of a double-quoted literal; other escapes are rejected. */
  function Unquote(s: string): Option<string>
    decreases |s|
  {
    if s == "" then Some("")
    else if s[0] == '"' || s[0] == '\n' then None
    else if s[0] == '\\' then
      match Escape(s)
      case None => None
      case Some((c, n)) =>
        match Unquote(s[n..])
        case None => None
        case Some(rest) => Some([c] + rest)
    else match Unquote(s[1..])
      case None => None
      case Some(rest) => Some([s[0]] + rest)
  }

  function Unescape(c: char): char {
    match c
    case 'a' => '\U{7}'
    case 'b' => '\U{8}'
    case 'f' => '\U{c}'
    case 'n' => '\n'
    case 'r' => '\r'
    case 't' => '\t'
    case 'v' => '\U{b}'
    case _ => c
  }

  function Literal(s: string): Option<string> {
    if |s| < 2 then None
    else
      var body := s[1..|s| - 1];
      if s[0] == '"' && s[|s| - 1] == '"' then Unquote(body)
      else if s[0] == '`' && s[|s| - 1] == '`' && Free(body, "`") then Some(body)
      else None
  }

  /** A literal reads back as its own text exactly when it has nothing to escape. */
  lemma {:induction false} UnquoteIdentity(s: string)
    ensures Unquote(s) == Some(s) <==> Free(s, "\"\n\\")
    ensures Unquote(s).Some? ==> |Unquote(s).value| <= |s|
    decreases |s|
  {
    if s != "" {
      UnquoteIdentity(s[1..]);
      assert Free(s, "\"\n\\") <==> s[0] !in "\"\n\\" && Free(s[1..], "\"\n\\") by {
        FreeAppend([s[0]], s[1..], "\"\n\\");
        assert [s[0]] + s[1..] == s;
      }
      if s[0] == '\\' && Escape(s).Some? {
        UnquoteIdentity(s[Escape(s).value.1..]);
      } else if Unquote(s).Some? {
        assert Unquote(s).value[1..] == Unquote(s[1..]).value && s == [s[0]] + s[1..];
      }
    }
  }

  /** No escape contains one of these. */
  predicate IsInert(c: char) { c !in "\"\\" && Digit(c, 16).None? && c !in "abfnrtvxuU" }

  lemma {:induction false} InertNumber(a: string, c: char, b: string, radix: nat, value: nat)
    requires Digit(c, radix).None?
    ensures Number(a + [c] + b, radix, value).None?
    decreases |a|
  {
    var s := a + [c] + b;
    if a != "" && Digit(a[0], radix).Some? {
      assert s[1..] == a[1..] + [c] + b;
      InertNumber(a[1..], c, b, radix, value * radix + Digit(a[0], radix).value);
    }
  }

  /** An escape with such a character behind its first letters is none. */
  lemma InertNumeric(s: string, at: nat, i: nat, n: nat, radix: nat, limit: nat)
    requires at < |s| && i <= at && IsInert(s[at]) && radix <= 16 && Numeric(s, i, n, radix, limit).Some?
    ensures i + n <= at
  {
    if at < i + n {
      var digits := s[i..i + n];
      assert digits == s[i..at] + [s[at]] + s[at + 1..i + n];
      InertNumber(s[i..at], s[at], s[at + 1..i + n], radix, 0);
    }
  }

  lemma EscapeEndsBefore(l: string, c: char, r: string)
    requires l != "" && IsInert(c) && Escape(l + [c] + r).Some?
    ensures Escape(l + [c] + r).value.1 <= |l| && Escape(l) == Escape(l + [c] + r)
  {
    var s := l + [c] + r;
    var at := |l|;
    assert s[at] == c;
    if |l| >= 2 {
      assert s[1] == l[1];
      if s[1] in "abfnrtv\\\"" {
      } else if s[1] == 'x' {
        InertNumeric(s, at, 2, 2, 16, 0xFF);
        assert s[2..4] == l[2..4];
      } else if s[1] == 'u' {
        InertNumeric(s, at, 2, 4, 16, 0x10FFFF);
        assert s[2..6] == l[2..6];
      } else if s[1] == 'U' {
        InertNumeric(s, at, 2, 8, 16, 0x10FFFF);
        assert s[2..10] == l[2..10];
      } else {
        InertNumeric(s, at, 1, 3, 8, 0xFF);
        assert s[1..4] == l[1..4];
      }
    } else {
      assert s[1] == c;
      InertNumeric(s, at, 1, 3, 8, 0xFF);
    }
  }

  lemma RestOf(l: string, c: char, r: string, n: nat)
    requires n <= |l|
    ensures (l + [c] + r)[n..] == l[n..] + [c] + r
  {}

  lemma Follows(first: char, v: string, c: char, w: string)
    ensures [first] + (v + [c] + w) == [first] + v + [c] + w
  {}

  /** Such a character stands for itself, after what the text before it stands for. */
  lemma {:induction false} UnquoteAcross(l: string, c: char, r: string)
    requires IsInert(c) && Unquote(l + [c] + r).Some?
    ensures Unquote(l).Some? && Unquote(r).Some? &&
      Unquote(l + [c] + r).value == Unquote(l).value + [c] + Unquote(r).value
    decreases |l|
  {
    hide Escape;
    var s := l + [c] + r;
    if l == "" {
      assert s[0] == c && s[1..] == r;
    } else {
      if l[0] == '\\' { EscapeEndsBefore(l, c, r); }
      var first, n := if l[0] == '\\' then Escape(l).value.0 else l[0], if l[0] == '\\' then Escape(l).value.1 else 1;
      RestOf(l, c, r, n);
      assert s[0] == l[0];
      UnquoteAcross(l[n..], c, r);
      Follows(first, Unquote(l[n..]).value, c, Unquote(r).value);
    }
  }

  /** No regular-expression operator, double quote or line feed. */
  predicate Safe(name: string) { Free(name, OPERATORS + "\"\n") }

  lemma {:induction false} QuoteIsPlain(name: string)
    ensures Free(Quote(name), "\"\n\\") <==> Safe(name)
    ensures Safe(name) ==> Quote(name) == name
  {
    if name != "" {
      QuoteIsPlain(name[1..]);
      var rest := Quote(name[1..]);
      assert Safe(name) ==> Safe(name[1..]);
      if IsOperator(name[0]) {
        assert Quote(name)[0] == '\\';
      } else {
        assert Quote(name)[1..] == rest;
        if Free(Quote(name), "\"\n\\") {
          forall i | 0 <= i < |rest| ensures rest[i] !in "\"\n\\" { assert Quote(name)[i + 1] == rest[i]; }
          assert Quote(name)[0] == name[0];
        }
      }
    }
  }

  /** The injected pattern reads back as the same text if and only if every name is safe. */
  lemma {:induction false} PatternSurvivesQuoting(names: seq<string>)
    ensures Unquote(AlternationOf(names)) == Some(AlternationOf(names)) <==> forall n | n in names :: Safe(n)
  {
    UnquoteIdentity(AlternationOf(names));
    if names != [] {
      QuoteIsPlain(names[0]);
      assert QuoteAll(names)[1..] == QuoteAll(names[1..]);
      var first, rest := Quote(names[0]), AlternationOf(names[1..]);
      UnquoteIdentity(rest);
      PatternSurvivesQuoting(names[1..]);
      assert forall n :: n in names <==> n == names[0] || n in names[1..];
      if |names| > 1 {
        var text := AlternationOf(names);
        assert text == first + "|" + rest;
        FreeAppend(first + "|", rest, "\"\n\\");
        FreeAppend(first, "|", "\"\n\\");
      }
    }
  }

  lemma FreeAppend(a: string, b: string, bad: string)
    ensures Free(a + b, bad) <==> Free(a, bad) && Free(b, bad)
  {
    if Free(a + b, bad) {
      forall i | 0 <= i < |a| ensures a[i] !in bad { assert (a + b)[i] == a[i]; }
      forall i | 0 <= i < |b| ensures b[i] !in bad { assert (a + b)[|a| + i] == b[i]; }
    }
  }

  /** A pattern of safe names holds none of the characters that end or alter a selector. */
  lemma {:induction false} PatternIsOrdinary(names: seq<string>, extra: string)
    requires forall n | n in names :: Safe(n) && Free(n, extra)
    requires '|' !in extra
    ensures Free(AlternationOf(names), "\"\n\\{}()" + extra)
  {
    if names != [] {
      QuoteIsPlain(names[0]);
      assert names[0] in names;
      assert Free(names[0], "\"\n\\{}()" + extra);
      if |names| > 1 {
        assert QuoteAll(names)[1..] == QuoteAll(names[1..]);
        PatternIsOrdinary(names[1..], extra);
        FreeAppend(names[0] + "|", AlternationOf(names[1..]), "\"\n\\{}()" + extra);
        FreeAppend(names[0], "|", "\"\n\\{}()" + extra);
      }
    }
  }

  /* What a literal denotes whose pattern does not read back as the same text. */

  /** No regular-expression operator but the backslash, no double quote and no line feed. */
  predicate IsUnescaped(name: string) { Free(name, ".+*?()|[]{}^$\"\n") }

  lemma NoEscape(c: char, rest: string)
    requires IsOperator(c) && c != '\\'
    ensures Unquote("\\" + [c] + rest).None?
  {
    var s := "\\" + [c] + rest;
    assert s[0] == '\\' && s[1] == c && Digit(c, 8).None?;
    if |s| >= 4 { assert s[1..4][0] == c; }
    assert Escape(s).None?;
  }

  lemma BackslashEscape(rest: string)
    ensures Unquote("\\\\" + rest) == match Unquote(rest) case None => None case Some(v) => Some("\\" + v)
  {
    var s := "\\\\" + rest;
    assert s[0] == '\\' && s[1] == '\\' && s[2..] == rest;
  }

  function Quoted(c: char): string { if IsOperator(c) then ['\\', c] else [c] }

  lemma CharacterIsUndone(c: char, rest: string)
    requires Unquote(Quoted(c) + rest).Some?
    ensures Free([c], ".+*?()|[]{}^$\"\n") && Unquote(rest).Some?
    ensures Unquote(Quoted(c) + rest).value == [c] + Unquote(rest).value
  {
    var text := Quoted(c) + rest;
    if c == '\\' {
      assert text == "\\\\" + rest;
      BackslashEscape(rest);
    } else if IsOperator(c) {
      assert text == "\\" + [c] + rest;
      NoEscape(c, rest);
    } else {
      assert text[0] == c && text[1..] == rest;
    }
  }

  lemma QuoteIsQuoted(name: string)
    requires name != ""
    ensures Quote(name) == Quoted(name[0]) + Quote(name[1..])
  {
    hide IsOperator;
  }

  lemma QuoteUnfolds(name: string, rest: string)
    requires name != ""
    ensures name == [name[0]] + name[1..] && Quote(name) + rest == Quoted(name[0]) + (Quote(name[1..]) + rest)
  {
    hide Quote, Quoted;
    QuoteIsQuoted(name);
    Regrouped(Quoted(name[0]), Quote(name[1..]), rest);
  }

  /** Inside the literal the escaping is undone: an escaped name stands for itself, or ends the literal. */
  lemma {:induction false} EscapingIsUndone(name: string, rest: string)
    requires Unquote(Quote(name) + rest).Some?
    ensures IsUnescaped(name) && Unquote(rest).Some?
    ensures Unquote(Quote(name) + rest).value == name + Unquote(rest).value
    decreases |name|
  {
    if name == "" {
      assert Quote(name) + rest == rest && forall v: string :: name + v == v;
    } else {
      hide Unquote, Quote, Quoted, Free;
      QuoteUnfolds(name, rest);
      CharacterIsUndone(name[0], Quote(name[1..]) + rest);
      EscapingIsUndone(name[1..], rest);
      Regrouped([name[0]], name[1..], Unquote(rest).value);
      FreeAppend([name[0]], name[1..], ".+*?()|[]{}^$\"\n");
    }
  }

  lemma Regrouped(a: string, b: string, c: string)
    ensures a + (b + c) == a + b + c
  {}

  lemma AlternationUnfolds(names: seq<string>)
    requires names != []
    ensures
      AlternationOf(names) ==
        Quote(names[0]) + if |names| == 1 then "" else "|" + AlternationOf(names[1..])
  {
    hide Quote;
    assert QuoteAll(names)[1..] == QuoteAll(names[1..]);
    Regrouped(Quote(names[0]), "|", AlternationOf(names[1..]));
    assert Quote(names[0]) + "" == Quote(names[0]);
  }

  lemma BarIsUndone(rest: string)
    requires Unquote("|" + rest).Some?
    ensures Unquote(rest).Some? && Unquote("|" + rest).value == "|" + Unquote(rest).value
  {
    assert ("|" + rest)[0] == '|' && ("|" + rest)[1..] == rest;
  }

  /** So the pattern is the names themselves, joined. */
  lemma {:induction false} PatternIsUndone(names: seq<string>)
    requires names != [] && Unquote(AlternationOf(names)).Some?
    ensures forall n | n in names :: IsUnescaped(n)
    ensures Unquote(AlternationOf(names)).value == Join(names, "|")
    decreases |names|
  {
    assert Unquote("") == Some("");
    hide Unquote, AlternationOf, Quote, IsUnescaped;
    AlternationUnfolds(names);
    assert names == [names[0]] + names[1..] && names[0] + "" == names[0];
    if |names| == 1 {
      EscapingIsUndone(names[0], "");
    } else {
      EscapingIsUndone(names[0], "|" + AlternationOf(names[1..]));
      BarIsUndone(AlternationOf(names[1..]));
      PatternIsUndone(names[1..]);
      Regrouped(names[0], "|", Join(names[1..], "|"));
    }
  }

  function Backslashes(s: string): nat {
    if s == "" then 0 else (if s[0] == '\\' then 1 else 0) + Backslashes(s[1..])
  }

  lemma {:induction false} NoBackslashes(s: string)
    ensures Backslashes(s) == 0 <==> Free(s, "\\")
  {
    if s != "" {
      NoBackslashes(s[1..]);
      assert s == [s[0]] + s[1..];
      FreeAppend([s[0]], s[1..], "\\");
    }
  }

  /** Text with no operator but the backslash and the bar. */
  predicate IsSimple(s: string) { Free(s, ".+*?()[]{}^$") }

  /** How many characters of a pattern write its first one. */
  function Width(s: string): nat
    requires s != ""
  {
    if s[0] == '\\' then 2 else 1
  }

  lemma AtomReads(s: string)
    requires s != "" && s[0] != '|' && s[0] != ')' && ParseSequence(s).Some?
    ensures ParseAtom(s).Some?
  {
    hide ParseAtom;
  }

  lemma SequenceUnfolds(s: string)
    requires IsSimple(s) && s != "" && s[0] != '|' && ParseSequence(s).Some?
    ensures
      var n := Width(s);
      && n <= |s| && ParseSequence(s[n..]).Some?
      && ParseSequence(s).value == (Cat(Lit(s[n - 1]), ParseSequence(s[n..]).value.0), ParseSequence(s[n..]).value.1)
  {
    SimpleAt(s, 0);
    AtomReads(s);
    hide ParseAtom, ParseRepeated, IsSimple, IsOperator;
    AtomIsLiteral(s);
  }

  lemma LiteralUnfolds(c: char, w: string)
    ensures LiteralOf([c] + w) == Cat(Lit(c), LiteralOf(w)) &&
      Backslashes([c] + w) == (if c == '\\' then 1 else 0) + Backslashes(w)
  {
    assert ([c] + w)[1..] == w;
  }

  lemma FirstIsNoBar(s: string)
    requires s != "" && s[0] != '|' && Width(s) <= |s|
    ensures Free([s[Width(s) - 1]], "|") ==> Free(s[..Width(s)], "|")
  {}

  /** A sequence parsed out of such text is a literal with at most half of the backslashes that it was written with;
      when it holds no bar, neither does what it was written with. */
  lemma {:induction false} SequenceIsLiteral(s: string) returns (w: string, h: string)
    requires IsSimple(s) && ParseSequence(s).Some?
    ensures ParseSequence(s).value.0 == LiteralOf(w) && s == h + ParseSequence(s).value.1
    ensures Free(w, "|") ==> Free(h, "|") && 2 * Backslashes(w) <= Backslashes(h)
    ensures var rest := ParseSequence(s).value.1; rest == "" || rest[0] == '|'
    decreases |s|
  {
    if s == "" || s[0] == '|' {
      w, h := "", "";
    } else {
      SequenceUnfolds(s);
      var n := Width(s);
      var c := s[n - 1];
      FirstIsNoBar(s);
      SimpleParts(s, n);
      hide ParseSequence, Free, Backslashes, LiteralOf, IsSimple;
      var w', h' := SequenceIsLiteral(s[n..]);
      w, h := [c] + w', s[..n] + h';
      FreeAppend([c], w', "|");
      FreeAppend(s[..n], h', "|");
      CountParts(s, n, h');
      LiteralUnfolds(c, w');
      Regrouped(s[..n], h', ParseSequence(s[n..]).value.1);
    }
  }

  lemma SimpleParts(s: string, n: nat)
    requires IsSimple(s) && n <= |s|
    ensures IsSimple(s[n..])
  {
    assert s == s[..n] + s[n..];
    FreeAppend(s[..n], s[n..], ".+*?()[]{}^$");
  }

  lemma SimpleAt(s: string, i: nat)
    requires IsSimple(s) && i < |s|
    ensures s[i] != '.' && s[i] != '*' && s[i] != '+' && s[i] != '?' && s[i] != '(' && s[i] != ')'
    ensures IsOperator(s[i]) ==> s[i] == '\\' || s[i] == '|'
  {
    assert s[i] !in ".+*?()[]{}^$";
  }

  lemma CharacterIsAtom(s: string)
    requires s != "" && s[0] != '.' && s[0] != '(' && (IsOperator(s[0]) ==> s[0] == '\\') && ParseAtom(s).Some?
    ensures Width(s) <= |s| && ParseAtom(s) == Some((Lit(s[Width(s) - 1]), s[Width(s)..]))
  {
    hide ParseAlternatives, IsOperator;
  }

  lemma AtomIsRepeated(s: string)
    requires s != "" && ParseAtom(s).Some?
    requires var rest := ParseAtom(s).value.1; rest == "" || (rest[0] != '*' && rest[0] != '+' && rest[0] != '?')
    ensures ParseRepeated(s) == ParseAtom(s)
  {
    hide ParseAtom;
  }

  lemma AtomIsLiteral(s: string)
    requires IsSimple(s) && s != "" && s[0] != '|' && ParseAtom(s).Some?
    ensures var n := Width(s); n <= |s| && ParseRepeated(s) == Some((Lit(s[n - 1]), s[n..]))
  {
    var n := Width(s);
    hide ParseAtom, ParseRepeated, IsSimple, IsOperator;
    SimpleAt(s, 0);
    CharacterIsAtom(s);
    if n < |s| {
      SimpleAt(s, n);
      assert s[n..][0] == s[n];
    }
    AtomIsRepeated(s);
  }

  lemma CountParts(s: string, n: nat, h: string)
    requires 0 < n <= |s| && n == Width(s)
    ensures Backslashes(s[..n] + h) == (if n == 2 then 1 + (if s[1] == '\\' then 1 else 0) else 0) + Backslashes(h)
  {
    var t := s[..n] + h;
    assert t[0] == s[0] && (n == 1 ==> t[1..] == h) && (n == 2 ==> t[1..][0] == s[1] && t[1..][1..] == h);
  }

  lemma NotShorter(h: string, rest: string, name: string, more: string)
    requires h + rest == name + more && Free(name, "|") && (rest == "" || rest[0] == '|')
    ensures |name| <= |h|
  {
    var text := h + rest;
    assert forall k | 0 <= k < |name| :: text[k] == name[k];
    assert |h| < |text| ==> text[|h|] == rest[0];
  }

  lemma SameFront(h: string, rest: string, name: string, more: string)
    requires h + rest == name + more && Free(h, "|") && Free(name, "|")
    requires rest == "" || rest[0] == '|'
    requires more == "" || more[0] == '|'
    ensures h == name && rest == more
  {
    NotShorter(h, rest, name, more);
    NotShorter(name, more, h, rest);
    hide Free;
    assert (h + rest)[..|h|] == h && (name + more)[..|name|] == name;
    assert (h + rest)[|h|..] == rest && (name + more)[|name|..] == more;
  }

  predicate AllUnescaped(names: seq<string>) { forall n | n in names :: IsUnescaped(n) }

  lemma UnescapedIsSimple(name: string)
    requires IsUnescaped(name)
    ensures Free(name, "|") && IsSimple(name)
  {
    forall i | 0 <= i < |name| ensures name[i] !in "|" && name[i] !in ".+*?()[]{}^$" {
      assert name[i] !in ".+*?()|[]{}^$\"\n";
    }
  }

  lemma BarThen(rest: string)
    ensures ("|" + rest)[1..] == rest && ("|" + rest)[0] == '|'
  {}

  /** What follows the first name in a pattern. */
  function More(names: seq<string>): string
    requires names != []
  {
    if |names| == 1 then "" else "|" + Join(names[1..], "|")
  }

  lemma JoinedNames(names: seq<string>)
    requires names != [] && AllUnescaped(names)
    ensures Join(names, "|") == names[0] + More(names) && AllUnescaped(names[1..])
    ensures Free(names[0], "|") && IsSimple(names[0])
    ensures |names| > 1 ==> More(names)[1..] == Join(names[1..], "|") && More(names)[0] == '|'
  {
    hide IsUnescaped, Free, IsSimple;
    UnescapedIsSimple(names[0]);
    BarThen(Join(names[1..], "|"));
    Regrouped(names[0], "|", Join(names[1..], "|"));
    assert names[0] + "" == names[0];
  }

  lemma {:induction false} JoinedIsSimple(names: seq<string>)
    requires AllUnescaped(names)
    ensures IsSimple(Join(names, "|"))
    decreases |names|
  {
    if names != [] {
      assert IsSimple("|") && IsSimple("");
      hide IsUnescaped, Free, AllUnescaped, Join;
      JoinedNames(names);
      JoinedIsSimple(names[1..]);
      FreeAppend(names[0], More(names), ".+*?()[]{}^$");
      FreeAppend("|", Join(names[1..], "|"), ".+*?()[]{}^$");
    }
  }

  /** The language of a pattern that has been read back. */
  ghost predicate Denotes(pattern: string, s: string) {
    ParseAlternatives(pattern).Some? && ParseAlternatives(pattern).value.1 == "" &&
      Matches(ParseAlternatives(pattern).value.0, s)
  }

  /** What a pattern of unescaped names accepts, when it is never a text with a bar: texts with at most half of the
      backslashes of some name. */
  lemma {:induction false} AcceptedIsHalved(names: seq<string>, s: string)
    requires names != [] && AllUnescaped(names)
    requires forall t | Denotes(Join(names, "|"), t) :: Free(t, "|")
    requires Denotes(Join(names, "|"), s)
    ensures exists n | n in names :: 2 * Backslashes(s) <= Backslashes(n)
    decreases |names|
  {
    var text := Join(names, "|");
    JoinedNames(names);
    JoinedIsSimple(names);
    hide Free, Backslashes, IsSimple, IsUnescaped, Join, ParseSequence, ParseAlternatives, AllUnescaped, More, Matches;
    SequenceReads(text);
    var w, h := SequenceIsLiteral(text);
    LiteralMatches(w, w);
    LiteralMatches(w, s);
    DenotesUnfolds(text, w);
    DenotesUnfolds(text, s);
    SameFront(h, ParseSequence(text).value.1, names[0], More(names));
    if s == w {
      assert names[0] in names;
    } else {
      forall t | Denotes(Join(names[1..], "|"), t) ensures Free(t, "|") { DenotesUnfolds(text, t); }
      AcceptedIsHalved(names[1..], s);
      var n :| n in names[1..] && 2 * Backslashes(s) <= Backslashes(n);
      assert n in names;
    }
  }

  lemma SequenceReads(text: string)
    requires ParseAlternatives(text).Some?
    ensures ParseSequence(text).Some?
  {}

  lemma DenotesUnfolds(text: string, s: string)
    requires ParseAlternatives(text).Some? && ParseAlternatives(text).value.1 == "" && ParseSequence(text).Some?
    ensures
      var (first, rest) := ParseSequence(text).value;
      Denotes(text, s) <==> Matches(first, s) || (rest != "" && rest[0] == '|' && Denotes(rest[1..], s))
  {
    hide ParseSequence;
  }

  lemma MostBackslashes(names: seq<string>) returns (v: string)
    requires names != []
    ensures v in names && forall n | n in names :: Backslashes(n) <= Backslashes(v)
  {
    v := names[0];
    if |names| > 1 {
      var u := MostBackslashes(names[1..]);
      if Backslashes(u) > Backslashes(v) { v := u; }
      assert names == [names[0]] + names[1..];
    }
  }

  /** The literal into which a pattern is pasted reads as a pattern that accepts exactly the names. */
  ghost predicate IsExact(names: seq<string>) {
    var read := Unquote(AlternationOf(names));
    read.Some? && forall s :: Accepts(read.value, s) <==> s in names
  }

  lemma AcceptsIsDenotes(pattern: string, s: string)
    ensures Accepts(pattern, s) <==> Denotes(pattern, s)
  {
    hide ParseAlternatives, Matches;
  }

  lemma ExactIsSafe(names: seq<string>)
    requires names != [] && IsExact(names)
    ensures forall n | n in names :: Safe(n)
  {
    PatternIsUndone(names);
    var text := Join(names, "|");
    hide Unquote, AlternationOf, Accepts, Join, Denotes, Backslashes, Safe, IsUnescaped, Free;
    var v := MostBackslashes(names);
    forall t ensures Denotes(text, t) <==> t in names { AcceptsIsDenotes(text, t); }
    forall t | Denotes(text, t) ensures Free(t, "|") { UnescapedIsSimple(t); }
    AcceptedIsHalved(names, v);
    forall n | n in names ensures Safe(n) {
      NoBackslashes(n);
      UnescapedIsSafe(n);
    }
  }

  lemma UnescapedIsSafe(name: string)
    requires IsUnescaped(name) && Free(name, "\\")
    ensures Safe(name)
  {
    forall i | 0 <= i < |name| ensures name[i] !in OPERATORS + "\"\n" {
      assert name[i] !in ".+*?()|[]{}^$\"\n" && name[i] !in "\\";
    }
  }

  /** Main theorem: the pasted literal denotes exactly the names if and only if every name is safe. */
  lemma LiteralIsExactIff(names: seq<string>)
    requires names != []
    ensures IsExact(names) <==> forall n | n in names :: Safe(n)
  {
    if forall n | n in names :: Safe(n) {
      PatternSurvivesQuoting(names);
      forall s ensures Accepts(AlternationOf(names), s) <==> s in names { AlternationIsExact(names, s); }
    } else if IsExact(names) {
      ExactIsSafe(names);
    }
  }
}
