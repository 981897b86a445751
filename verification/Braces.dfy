/** The braces at the head of a LogQL or TraceQL query: as the code's regular expression finds them, and as a reader
    finds them that knows about string literals and, in LogQL, about comments. */
module Braces {
  import opened Wrappers
  import opened Text
  import opened Quoting

  /** The class `\s` of Go regular expressions. */
  predicate IsRegexpSpace(c: char) { c == ' ' || c == '\t' || c == '\n' || c == '\U{c}' || c == '\r' }

  function Find(s: string, c: char): (i: nat)
    ensures i <= |s| && (forall k | 0 <= k < i :: s[k] != c) && (i < |s| ==> s[i] == c)
  {
    if s == "" || s[0] == c then 0 else 1 + Find(s[1..], c)
  }

  /** `^\s*\{([^}]*)\}`: what the braces hold, and what follows them. */
  function Leading(query: string): Option<(string, string)> {
    var s := TrimLeft(query, IsRegexpSpace);
    if s == "" || s[0] != '{' then None
    else
      var rest := s[1..];
      var end := Find(rest, '}');
      if end == |rest| then None else Some((rest[..end], rest[end + 1..]))
  }

  lemma LeadingOf(block: string, tail: string)
    requires Free(block, "}")
    ensures Leading("{" + block + "}" + tail) == Some((block, tail))
  {
    var query, rest := "{" + block + "}" + tail, block + "}" + tail;
    assert query[1..] == rest && rest[|block|] == '}';
    assert forall k | 0 <= k < |block| :: rest[k] == block[k];
    assert rest[..|block|] == block && rest[|block| + 1..] == tail;
  }

  /** Where the code's regular expression stops there is no brace before. */
  lemma LeadingText(query: string)
    requires Leading(query).Some?
    ensures var (block, tail) := Leading(query).value;
      TrimLeft(query, IsRegexpSpace) == "{" + (block + "}" + tail) && Free(block, "}")
  {
    var s := TrimLeft(query, IsRegexpSpace);
    var rest := s[1..];
    var end := Find(rest, '}');
    assert s == [s[0]] + rest && rest == rest[..end] + [rest[end]] + rest[end + 1..];
  }

  /** The query starts, after blanks, with braces around a block that holds no `}`. */
  ghost predicate IsLed(query: string, pad: string, block: string, tail: string) {
    && (forall i | 0 <= i < |pad| :: pad[i] in " \t\n\U{c}\r")
    && (forall i | 0 <= i < |block| :: block[i] != '}')
    && query == pad + "{" + block + "}" + tail
  }

  /** Such a reading of a query is the only one, and is the one that the code finds. */
  lemma LedIsLeading(query: string, pad: string, block: string, tail: string)
    requires IsLed(query, pad, block, tail)
    ensures Leading(query) == Some((block, tail))
  {
    var rest := "{" + block + "}" + tail;
    assert query == pad + rest;
    forall i | 0 <= i < |pad| ensures IsRegexpSpace(pad[i]) { assert pad[i] in " \t\n\U{c}\r"; }
    TrimLeftOf(pad, rest, IsRegexpSpace);
    LeadingOf(block, tail);
  }

  /** The code finds braces exactly in the queries that start with them. */
  lemma LeadingIff(query: string)
    ensures Leading(query).Some? <==> exists pad, block, tail :: IsLed(query, pad, block, tail)
  {
    if Leading(query).Some? {
      var (block, tail) := Leading(query).value;
      LeadingText(query);
      var pad := TrimLeftParts(query, IsRegexpSpace);
      assert query == pad + "{" + block + "}" + tail;
      forall i | 0 <= i < |pad| ensures pad[i] in " \t\n\U{c}\r" { assert IsRegexpSpace(pad[i]); }
      assert IsLed(query, pad, block, tail);
    } else if pad, block, tail :| IsLed(query, pad, block, tail) {
      LedIsLeading(query, pad, block, tail);
    }
  }

  /* Reading. A `#` outside literals starts a comment, to the end of the line, where `hash` says so. */

  datatype Place = Code(mode: Mode) | Comment

  const OUTSIDE := Code(Plain)

  function Move(p: Place, c: char, hash: bool): Place {
    match p
    case Comment => if c == '\n' then OUTSIDE else Comment
    case Code(m) => if hash && m == Plain && c == '#' then Comment else Code(Next(m, c))
  }

  function PlaceAfter(p: Place, s: string, hash: bool): Place
    decreases |s|
  {
    if s == "" then p else PlaceAfter(Move(p, s[0], hash), s[1..], hash)
  }

  lemma {:induction false} PlaceAppend(p: Place, a: string, b: string, hash: bool)
    ensures PlaceAfter(p, a + b, hash) == PlaceAfter(PlaceAfter(p, a, hash), b, hash)
    decreases |a|
  {
    if a == "" {
      assert a + b == b;
    } else {
      assert (a + b)[1..] == a[1..] + b;
      PlaceAppend(Move(p, a[0], hash), a[1..], b, hash);
    }
  }

  /** Without comments the place is the mode. */
  lemma {:induction false} PlaceIsScan(m: Mode, s: string)
    ensures PlaceAfter(Code(m), s, false) == Code(Scan(m, s))
    decreases |s|
  {
    if s != "" { PlaceIsScan(Next(m, s[0]), s[1..]); }
  }

  /** Where the closing brace is: the first one outside literals and comments. */
  function Close(s: string, p: Place, hash: bool): (i: nat)
    ensures i <= |s|
    decreases |s|
  {
    if s == "" || (p == OUTSIDE && s[0] == '}') then 0 else 1 + Close(s[1..], Move(p, s[0], hash), hash)
  }

  /** The text from the first character that is neither space nor part of a comment. */
  function SkipBlanks(s: string, p: Place, hash: bool): (r: string)
    ensures |r| <= |s|
    decreases |s|
  {
    if s != "" && (p == Comment || IsRegexpSpace(s[0]) || (hash && s[0] == '#'))
    then SkipBlanks(s[1..], Move(p, s[0], hash), hash)
    else s
  }

  /** What the braces hold and what follows them, literals and comments respected. */
  function BracedBlock(query: string, hash: bool): (r: Option<(string, string)>)
    ensures r.Some? ==> |r.value.1| < |query|
  {
    var s := SkipBlanks(query, OUTSIDE, hash);
    if s == "" || s[0] != '{' then None
    else
      var rest := s[1..];
      var end := Close(rest, OUTSIDE, hash);
      if end == |rest| then None else Some((rest[..end], rest[end + 1..]))
  }

  lemma {:induction false} SkipSpaces(s: string, hash: bool)
    requires hash ==> TrimLeft(s, IsRegexpSpace) != "" && TrimLeft(s, IsRegexpSpace)[0] != '#'
    ensures SkipBlanks(s, OUTSIDE, hash) == TrimLeft(s, IsRegexpSpace)
    decreases |s|
  {
    if s != "" && IsRegexpSpace(s[0]) { SkipSpaces(s[1..], hash); }
  }

  lemma {:induction false} CloseScans(s: string, p: Place, hash: bool)
    requires Close(s, p, hash) < |s|
    ensures PlaceAfter(p, s[..Close(s, p, hash)], hash) == OUTSIDE && s[Close(s, p, hash)] == '}'
    decreases |s|
  {
    if !(p == OUTSIDE && s[0] == '}') {
      var p' := Move(p, s[0], hash);
      CloseScans(s[1..], p', hash);
      assert s[..Close(s, p, hash)][1..] == s[1..][..Close(s[1..], p', hash)];
    }
  }

  lemma {:induction false} CloseAppend(a: string, b: string, p: Place, hash: bool)
    requires Free(a, "}")
    ensures Close(a + b, p, hash) == |a| + Close(b, PlaceAfter(p, a, hash), hash)
    decreases |a|
  {
    if a == "" {
      assert a + b == b;
    } else {
      assert (a + b)[1..] == a[1..] + b;
      CloseAppend(a[1..], b, Move(p, a[0], hash), hash);
    }
  }

  /** What the reader makes of the two pieces into which the first `}` divides a text. */
  function ReadOn(block: string, tail: string, hash: bool): Option<(string, string)> {
    var p := PlaceAfter(OUTSIDE, block, hash);
    if p == OUTSIDE then Some((block, tail))
    else
      var j := Close(tail, Move(p, '}', hash), hash);
      if j == |tail| then None else Some((block + "}" + tail[..j], tail[j + 1..]))
  }

  lemma CloseAtBrace(block: string, tail: string, hash: bool)
    requires Free(block, "}")
    ensures var p := PlaceAfter(OUTSIDE, block, hash);
      Close(block + "}" + tail, OUTSIDE, hash) ==
        if p == OUTSIDE then |block| else |block| + 1 + Close(tail, Move(p, '}', hash), hash)
  {
    CloseAppend(block, "}" + tail, OUTSIDE, hash);
    assert block + ("}" + tail) == block + "}" + tail && ("}" + tail)[1..] == tail;
  }

  /** The reader takes the braces that the code finds, unless their `}` is inside a literal or a comment. */
  lemma LeadingRead(query: string, hash: bool)
    requires Leading(query).Some?
    ensures var (block, tail) := Leading(query).value; BracedBlock(query, hash) == ReadOn(block, tail, hash)
  {
    var (block, tail) := Leading(query).value;
    LeadingText(query);
    SkipSpaces(query, hash);
    CloseAtBrace(block, tail, hash);
    var rest := block + "}" + tail;
    assert ("{" + rest)[1..] == rest;
    hide Close, Leading, TrimLeft;
    Slices(block, tail, Close(tail, Move(PlaceAfter(OUTSIDE, block, hash), '}', hash), hash));
  }

  lemma Slices(block: string, tail: string, j: nat)
    requires j <= |tail|
    ensures var rest, n := block + "}" + tail, |block| + 1;
      && rest[..n - 1] == block && rest[n..] == tail
      && rest[..n + j] == block + "}" + tail[..j]
      && (j < |tail| ==> rest[n + j + 1..] == tail[j + 1..])
  {}

  /** A query made of braces around a block with no `}` outside its literals. */
  lemma BracesRead(block: string, tail: string, hash: bool)
    requires Free(block, "}")
    ensures BracedBlock("{" + block + "}" + tail, hash) == ReadOn(block, tail, hash)
  {
    LeadingOf(block, tail);
    LeadingRead("{" + block + "}" + tail, hash);
  }

  /** The reader's block holds a `}` just when the one that the code finds is not the closing one. */
  lemma BlockHoldsBrace(query: string, hash: bool)
    requires Leading(query).Some? && BracedBlock(query, hash).Some?
    ensures PlaceAfter(OUTSIDE, Leading(query).value.0, hash) == OUTSIDE <==>
      Free(BracedBlock(query, hash).value.0, "}")
  {
    var (block, tail) := Leading(query).value;
    LeadingText(query);
    LeadingRead(query, hash);
    if PlaceAfter(OUTSIDE, block, hash) != OUTSIDE {
      assert (block + "}")[|block|] == '}' && BracedBlock(query, hash).value.0[|block|] == '}';
    }
  }

  /** Without comments, what the reader takes for a block is what the code finds, up to the first `}`. */
  lemma ReadableLeads(query: string)
    requires BracedBlock(query, false).Some?
    ensures Leading(query).Some?
  {
    SkipSpaces(query, false);
    CloseScans(TrimLeft(query, IsRegexpSpace)[1..], OUTSIDE, false);
  }
}
