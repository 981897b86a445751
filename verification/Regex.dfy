/** Regular expressions as label matchers use them: a recursive-descent parser in which
    `\ . + * ? ( ) | [ ] { } ^ $` are operators, and what the parsed expression matches.
    Character classes, counted repetition, anchors, `\d`-like escapes and lazy operators are
    outside the grammar: a pattern that uses one does not compile here. */
module Regex {
  import opened Wrappers

  datatype Regex =
    | Empty
    | Lit(c: char)
    | Any
    | Cat(left: Regex, right: Regex)
    | Alt(left: Regex, right: Regex)
    | Star(body: Regex)

  const OPERATORS := "\\.+*?()|[]{}^$"

  predicate IsOperator(c: char) { c in OPERATORS }

  /** The anchored (whole string) denotation. */
  ghost predicate Matches(r: Regex, s: string)
    decreases r, |s|
  {
    match r
    case Empty => s == ""
    case Lit(c) => s == [c]
    case Any => |s| == 1
    case Cat(a, b) => exists i | 0 <= i <= |s| :: Matches(a, s[..i]) && Matches(b, s[i..])
    case Alt(a, b) => Matches(a, s) || Matches(b, s)
    case Star(b) => s == "" || exists i | 0 < i <= |s| :: Matches(b, s[..i]) && Matches(r, s[i..])
  }

  type Parsed = Option<(Regex, string)>

  function ParseAlternatives(s: string): (r: Parsed)
    ensures r.Some? ==> |r.value.1| <= |s|
    decreases |s|, 3
  {
    match ParseSequence(s)
    case None => None
    case Some((first, rest)) =>
      if rest == "" || rest[0] != '|' then Some((first, rest))
      else match ParseAlternatives(rest[1..])
        case None => None
        case Some((others, rest')) => Some((Alt(first, others), rest'))
  }

  function ParseSequence(s: string): (r: Parsed)
    ensures r.Some? ==> |r.value.1| <= |s|
    decreases |s|, 2
  {
    if s == "" || s[0] == '|' || s[0] == ')' then Some((Empty, s))
    else match ParseRepeated(s)
      case None => None
      case Some((first, rest)) =>
        match ParseSequence(rest)
        case None => None
        case Some((others, rest')) => Some((Cat(first, others), rest'))
  }

  function ParseRepeated(s: string): (r: Parsed)
    requires s != ""
    ensures r.Some? ==> |r.value.1| < |s|
    decreases |s|, 1
  {
    match ParseAtom(s)
    case None => None
    case Some((atom, rest)) =>
      if rest == "" then Some((atom, rest))
      else if rest[0] == '*' then Some((Star(atom), rest[1..]))
      else if rest[0] == '+' then Some((Cat(atom, Star(atom)), rest[1..]))
      else if rest[0] == '?' then Some((Alt(atom, Empty), rest[1..]))
      else Some((atom, rest))
  }

  function ParseAtom(s: string): (r: Parsed)
    requires s != ""
    ensures r.Some? ==> |r.value.1| < |s|
    decreases |s|, 0
  {
    if s[0] == '\\' then
      if |s| >= 2 && IsOperator(s[1]) then Some((Lit(s[1]), s[2..])) else None
    else if s[0] == '.' then Some((Any, s[1..]))
    else if s[0] == '(' then
      match ParseAlternatives(s[1..])
      case None => None
      case Some((group, rest)) => if rest != "" && rest[0] == ')' then Some((group, rest[1..])) else None
    else if IsOperator(s[0]) then None
    else Some((Lit(s[0]), s[1..]))
  }

  function Compile(pattern: string): Option<Regex> {
    match ParseAlternatives(pattern)
    case Some((r, "")) => Some(r)
    case _ => None
  }

  ghost predicate Accepts(pattern: string, s: string) {
    Compile(pattern).Some? && Matches(Compile(pattern).value, s)
  }

  /** A regular-expression engine is any total function from patterns to languages; this says
      that it honours the grammar wherever the grammar applies. */
  ghost predicate Honours(engine: (string, string) -> bool) {
    forall pattern, s :: Compile(pattern).Some? ==> (engine(pattern, s) <==> Accepts(pattern, s))
  }

  /** `.*`, the value a dashboard uses for "All". */
  lemma AnythingMatches(s: string)
    ensures Accepts(".*", s)
  {
    assert ParseAtom(".*") == Some((Any, "*"));
    assert ParseRepeated(".*") == Some((Star(Any), ""));
    assert ParseSequence("") == Some((Empty, ""));
    assert ParseSequence(".*") == Some((Cat(Star(Any), Empty), ""));
    StarAny(s);
    assert s[..|s|] == s && s[|s|..] == "";
  }

  /** What the operators mean, on a character that is not one of them. */
  lemma OperatorsMean(c: char, d: char, s: string)
    requires !IsOperator(c) && !IsOperator(d)
    ensures Accepts([c, '*'], s) <==> forall k | 0 <= k < |s| :: s[k] == c
    ensures Accepts([c, '+'], s) <==> s != "" && forall k | 0 <= k < |s| :: s[k] == c
    ensures Accepts([c, '?'], s) <==> s == "" || s == [c]
    ensures Accepts(['(', c, ')', d], s) <==> s == [c, d]
    ensures Accepts([c, '|', d], s) <==> s == [c] || s == [d]
    ensures Accepts(".", s) <==> |s| == 1
  {
    PostfixParses(c, '*', Star(Lit(c)));
    PostfixParses(c, '+', Cat(Lit(c), Star(Lit(c))));
    PostfixParses(c, '?', Alt(Lit(c), Empty));
    BothParse(c, d);
    StarLit(c, s);
    PlusLit(c, s);
    hide Compile, ParseAlternatives, ParseSequence;
    CatEmpty(Star(Lit(c)), s);
    CatEmpty(Cat(Lit(c), Star(Lit(c))), s);
    CatEmpty(Alt(Lit(c), Empty), s);
    CatEmpty(Lit(c), s);
    CatEmpty(Lit(d), s);
    CatEmpty(Any, s);
    PairMatches(c, d, s);
  }

  /** Which characters have to be escaped: after a backslash each stands for itself, and alone none but the dot accepts
      itself. */
  lemma EscapedOperators(c: char, s: string)
    requires c in "\\.+*?()|[]{}^$"
    ensures Accepts(['\\', c], s) <==> s == [c]
    ensures Accepts([c], [c]) <==> c == '.'
  {
    var p := ['\\', c];
    assert p[2..] == "" && ParseAtom(p) == Some((Lit(c), ""));
    assert ParseRepeated(p) == Some((Lit(c), ""));
    assert ParseSequence("") == Some((Empty, "")) && ParseSequence(p) == Some((Cat(Lit(c), Empty), ""));
    assert Compile(p) == Some(Cat(Lit(c), Empty));
    CatEmpty(Lit(c), s);
    AloneParses(c);
    CatEmpty(Any, [c]);
    assert Matches(Any, [c]) && !Matches(Empty, [c]) && !Matches(Alt(Empty, Empty), [c]);
    hide ParseAlternatives;
  }

  lemma AloneParses(c: char)
    requires c in "\\.+*?()|[]{}^$"
    ensures Compile([c]) ==
      if c == '.' then Some(Cat(Any, Empty)) else if c == '|' then Some(Alt(Empty, Empty)) else None
  {
    assert [c][1..] == "" && ParseSequence("") == Some((Empty, ""));
    assert ParseAlternatives("") == Some((Empty, ""));
    if c == '.' {
      BothParse('a', 'a');
    } else if c == '|' || c == ')' {
      assert ParseSequence([c]) == Some((Empty, [c]));
    } else {
      assert ParseAtom([c]) == None && ParseSequence([c]) == None;
    }
  }

  lemma PostfixParses(c: char, op: char, r: Regex)
    requires !IsOperator(c)
    requires r == if op == '*' then Star(Lit(c)) else if op == '+' then Cat(Lit(c), Star(Lit(c)))
      else Alt(Lit(c), Empty)
    requires op in "*+?"
    ensures Compile([c, op]) == Some(Cat(r, Empty))
  {
    var p := [c, op];
    assert p[1..] == [op] && [op][1..] == "";
    assert ParseAtom(p) == Some((Lit(c), [op]));
    assert ParseRepeated(p) == Some((r, ""));
    assert ParseSequence("") == Some((Empty, ""));
    assert ParseSequence(p) == Some((Cat(r, Empty), ""));
  }

  lemma BothParse(c: char, d: char)
    requires !IsOperator(c) && !IsOperator(d)
    ensures Compile(['(', c, ')', d]) == Some(Cat(Cat(Lit(c), Empty), Cat(Lit(d), Empty)))
    ensures Compile([c, '|', d]) == Some(Alt(Cat(Lit(c), Empty), Cat(Lit(d), Empty)))
    ensures Compile(".") == Some(Cat(Any, Empty))
  {
    assert ParseSequence("") == Some((Empty, ""));
    OneThen(d, "");
    assert [d] + "" == [d];
    OneThen(c, [')', d]);
    assert [c] + [')', d] == [c, ')', d];
    OneThen(c, ['|', d]);
    assert [c] + ['|', d] == [c, '|', d];
    GroupParses(c, d);
    assert ['|', d][1..] == [d] && ParseAlternatives([d]) == Some((Cat(Lit(d), Empty), ""));
    assert ParseAtom(".") == Some((Any, ""));
    assert ParseRepeated(".") == Some((Any, ""));
    assert ParseSequence(".") == Some((Cat(Any, Empty), ""));
  }

  /** A plain character in front of what ends a sequence. */
  lemma OneThen(c: char, rest: string)
    requires !IsOperator(c) && (rest == "" || rest[0] == '|' || rest[0] == ')')
    ensures ParseSequence([c] + rest) == Some((Cat(Lit(c), Empty), rest))
  {
    var p := [c] + rest;
    assert p[1..] == rest;
    assert ParseAtom(p) == Some((Lit(c), rest));
    assert ParseRepeated(p) == Some((Lit(c), rest));
    assert ParseSequence(rest) == Some((Empty, rest));
  }

  lemma GroupParses(c: char, d: char)
    requires !IsOperator(c) && !IsOperator(d)
    ensures ParseSequence(['(', c, ')', d]) == Some((Cat(Cat(Lit(c), Empty), Cat(Lit(d), Empty)), ""))
  {
    var p := ['(', c, ')', d];
    OneThen(c, [')', d]);
    OneThen(d, "");
    assert [c] + [')', d] == p[1..] && [d] + "" == [d] && [')', d][1..] == [d];
    assert ParseAlternatives(p[1..]) == Some((Cat(Lit(c), Empty), [')', d]));
    assert ParseAtom(p) == Some((Cat(Lit(c), Empty), [d]));
    assert ParseRepeated(p) == Some((Cat(Lit(c), Empty), [d]));
  }

  lemma CatEmpty(r: Regex, s: string)
    ensures Matches(Cat(r, Empty), s) <==> Matches(r, s)
  {
    assert s[..|s|] == s && s[|s|..] == "";
    forall i | 0 <= i <= |s| && s[i..] == "" ensures s[..i] == s {}
  }

  lemma PairMatches(c: char, d: char, s: string)
    ensures Matches(Cat(Cat(Lit(c), Empty), Cat(Lit(d), Empty)), s) <==> s == [c, d]
  {
    forall i | 0 <= i <= |s|
      ensures Matches(Cat(Lit(c), Empty), s[..i]) && Matches(Cat(Lit(d), Empty), s[i..]) <==> i == 1 && s == [c, d] {
      CatEmpty(Lit(c), s[..i]);
      CatEmpty(Lit(d), s[i..]);
      assert s == s[..i] + s[i..];
    }
    if s == [c, d] { assert s[..1] == [c] && s[1..] == [d]; }
  }

  lemma {:induction false} StarLit(c: char, s: string)
    ensures Matches(Star(Lit(c)), s) <==> forall k | 0 <= k < |s| :: s[k] == c
    decreases |s|
  {
    if s != "" {
      StarLit(c, s[1..]);
      assert s == s[..1] + s[1..] && s[..1] == [s[0]];
      forall i | 0 < i <= |s| && Matches(Lit(c), s[..i]) ensures i == 1 {}
      assert Matches(Star(Lit(c)), s) <==> Matches(Lit(c), s[..1]) && Matches(Star(Lit(c)), s[1..]);
    }
  }

  lemma PlusLit(c: char, s: string)
    ensures Matches(Cat(Lit(c), Star(Lit(c))), s) <==> s != "" && forall k | 0 <= k < |s| :: s[k] == c
  {
    forall i | 0 <= i <= |s| && Matches(Lit(c), s[..i]) ensures i == 1 {}
    if s != "" {
      StarLit(c, s[1..]);
      assert s == s[..1] + s[1..] && s[..1] == [s[0]];
    }
  }

  lemma {:induction false} StarAny(s: string)
    ensures Matches(Star(Any), s)
  {
    if s != "" {
      StarAny(s[1..]);
      assert Matches(Any, s[..1]);
    }
  }
}
