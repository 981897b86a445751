/** The log search language (frontend/src/lib/logQuery.ts): a tokenizer that keeps quoted phrases whole, a
    forgiving parser, and filtering. `lower` stands for `toLowerCase` and can be any function. */
module LogSearch {
  import opened Wrappers
  import opened Text

  /* Tokens. */

  /** Where the token being read at `i` ends; a quote that is never closed runs to the end. */
  function TokenEnd(q: string, i: nat, quoted: bool): (e: nat)
    requires i <= |q|
    ensures i <= e <= |q|
    decreases |q| - i
  {
    if i == |q| then i
    else if quoted then TokenEnd(q, i + 1, q[i] != '"')
    else if IsSpace(q[i]) then i
    else TokenEnd(q, i + 1, q[i] == '"')
  }

  function TokensFrom(q: string, i: nat): seq<string>
    requires i <= |q|
    decreases |q| - i
  {
    if i == |q| then []
    else if IsSpace(q[i]) then TokensFrom(q, i + 1)
    else var e := TokenEnd(q, i, false); [q[i..e]] + TokensFrom(q, e)
  }

  function Tokens(q: string): seq<string> { TokensFrom(q, 0) }

  /** The inner loops of tokenize: the index runs one past the end when a quote is left open. */
  method ReadToken(query: string, start: nat) returns (i: nat)
    requires start < |query| && !IsSpace(query[start])
    ensures start < i <= |query| + 1
    ensures TokenEnd(query, start, false) == if i <= |query| then i else |query|
  {
    i := start;
    var n := |query|;
    while i < n && !IsSpace(query[i])
      invariant start <= i <= n + 1
      invariant TokenEnd(query, start, false) == if i <= n then TokenEnd(query, i, false) else n
      invariant i == start ==> i < n && !IsSpace(query[i])
      decreases n + 1 - i
    {
      if query[i] == '"' {
        i := i + 1;
        while i < n && query[i] != '"'
          invariant start < i <= n
          invariant TokenEnd(query, start, false) == TokenEnd(query, i, true)
        {
          i := i + 1;
        }
      }
      i := i + 1;
    }
  }

  /** tokenize; `slice` forgives an index past the end. */
  method Tokenize(query: string) returns (tokens: seq<string>)
    ensures tokens == Tokens(query)
  {
    tokens := [];
    var i := 0;
    var n := |query|;
    while i < n
      invariant 0 <= i <= n + 1
      invariant tokens + TokensFrom(query, if i < n then i else n) == Tokens(query)
      decreases n + 1 - i
    {
      if IsSpace(query[i]) {
        i := i + 1;
        continue;
      }
      var start := i;
      i := ReadToken(query, start);
      var end := if i < n then i else n;
      assert TokensFrom(query, start) == [query[start..end]] + TokensFrom(query, end);
      assert tokens + TokensFrom(query, start) == tokens + [query[start..end]] + TokensFrom(query, end);
      tokens := tokens + [query[start..end]];
    }
  }

  /** Whether a quote is open at the end of `s`, `open` telling whether one is at `i`. */
  predicate OpenAfter(s: string, i: nat, open: bool)
    requires i <= |s|
    decreases |s| - i
  {
    if i == |s| then open else OpenAfter(s, i + 1, if s[i] == '"' then !open else open)
  }

  function Quotes(s: string, i: nat): nat
    requires i <= |s|
    decreases |s| - i
  {
    if i == |s| then 0 else (if s[i] == '"' then 1 else 0) + Quotes(s, i + 1)
  }

  predicate Even(s: string) { Quotes(s, 0) % 2 == 0 }

  lemma {:induction false} EvenMeansClosed(s: string, i: nat, open: bool)
    requires i <= |s|
    ensures OpenAfter(s, i, open) <==> open == (Quotes(s, i) % 2 == 0)
    decreases |s| - i
  {
    if i < |s| { EvenMeansClosed(s, i + 1, if s[i] == '"' then !open else open); }
  }

  /** Past a closed text and a space, a token ends where it did before. */
  lemma {:induction false} TokenEndAppend(a: string, b: string, i: nat, open: bool)
    requires i <= |a| && !OpenAfter(a, i, open)
    ensures TokenEnd(a + " " + b, i, open) == TokenEnd(a, i, open)
    ensures !OpenAfter(a, TokenEnd(a, i, open), false)
    decreases |a| - i
  {
    if i < |a| && (open || !IsSpace(a[i])) {
      TokenEndAppend(a, b, i + 1, if a[i] == '"' then !open else open);
    }
  }

  /** `t` is what `s` holds from position `j` on. */
  predicate Suffix(s: string, j: nat, t: string) {
    |s| == j + |t| && forall k | 0 <= k < |t| :: s[j + k] == t[k]
  }

  lemma {:induction false} TokenEndShift(s: string, j: nat, t: string, k: nat, open: bool)
    requires Suffix(s, j, t) && k <= |t|
    ensures TokenEnd(s, j + k, open) == j + TokenEnd(t, k, open)
    decreases |t| - k
  {
    if k < |t| && (open || !IsSpace(t[k])) { TokenEndShift(s, j, t, k + 1, if t[k] == '"' then !open else open); }
  }

  lemma TokenShift(s: string, j: nat, t: string, k: nat)
    requires Suffix(s, j, t) && k < |t| && !IsSpace(t[k])
    requires TokensFrom(s, j + TokenEnd(t, k, false)) == TokensFrom(t, TokenEnd(t, k, false))
    ensures TokensFrom(s, j + k) == TokensFrom(t, k)
  {
    hide TokensFrom, TokenEnd;
    var e := TokenEnd(t, k, false);
    TokenEndShift(s, j, t, k, false);
    assert s[j + k] == t[k] && s[j + k..j + e] == t[k..e];
    UnfoldToken(t, k);
    UnfoldToken(s, j + k);
  }

  lemma UnfoldToken(q: string, i: nat)
    requires i < |q| && !IsSpace(q[i])
    ensures TokensFrom(q, i) == [q[i..TokenEnd(q, i, false)]] + TokensFrom(q, TokenEnd(q, i, false))
  {}

  lemma {:induction false} TokensShift(s: string, j: nat, t: string, k: nat)
    requires Suffix(s, j, t) && k <= |t|
    ensures TokensFrom(s, j + k) == TokensFrom(t, k)
    decreases |t| - k
  {
    if k < |t| {
      if IsSpace(t[k]) {
        TokensShift(s, j, t, k + 1);
        assert s[j + k] == t[k];
      } else {
        TokensShift(s, j, t, TokenEnd(t, k, false));
        TokenShift(s, j, t, k);
      }
    }
  }

  lemma {:induction false} TokensAppend(a: string, b: string, i: nat)
    requires i <= |a| && !OpenAfter(a, i, false)
    ensures TokensFrom(a + " " + b, i) == TokensFrom(a, i) + Tokens(b)
    decreases |a| - i
  {
    var q := a + " " + b;
    if i == |a| {
      assert q[i] == ' ' && Suffix(q, i + 1, b);
      TokensShift(q, i + 1, b, 0);
    } else if IsSpace(a[i]) {
      TokensAppend(a, b, i + 1);
    } else {
      TokenEndAppend(a, b, i, false);
      var e := TokenEnd(a, i, false);
      TokensAppend(a, b, e);
      assert q[i..e] == a[i..e];
    }
  }

  /** A query with its quotes closed can be extended without changing how it reads. */
  lemma TokensOfExtended(q1: string, q2: string)
    requires Even(q1)
    ensures Tokens(q1 + " " + q2) == Tokens(q1) + Tokens(q2)
  {
    EvenMeansClosed(q1, 0, false);
    TokensAppend(q1, q2, 0);
  }

  predicate IsToken(t: string) { t != "" && !IsSpace(t[0]) && TokenEnd(t, 0, false) == |t| }

  lemma {:induction false} TokenAlone(q: string, i: nat, k: nat, e: nat, open: bool)
    requires i <= k <= e <= |q| && TokenEnd(q, k, open) == e
    ensures TokenEnd(q[i..e], k - i, open) == e - i
    ensures e < |q| ==> !OpenAfter(q[i..e], k - i, open)
    decreases e - k
  {
    if k < e { TokenAlone(q, i, k + 1, e, if q[k] == '"' then !open else open); }
  }

  /** Every token reads as itself, and all but the last have their quotes closed. */
  ghost predicate WellFormed(ts: seq<string>) {
    && (forall k | 0 <= k < |ts| :: IsToken(ts[k]))
    && (forall k | 0 <= k < |ts| - 1 :: Even(ts[k]))
  }

  lemma {:induction false} TokensAreTokens(q: string, i: nat)
    requires i <= |q|
    ensures WellFormed(TokensFrom(q, i))
    decreases |q| - i
  {
    if i < |q| {
      if IsSpace(q[i]) {
        TokensAreTokens(q, i + 1);
      } else {
        var e := TokenEnd(q, i, false);
        var t := q[i..e];
        TokenAlone(q, i, i, e, false);
        EvenMeansClosed(t, 0, false);
        assert IsToken(t) by { assert t[0] == q[i]; }
        TokensAreTokens(q, e);
        hide IsToken, Even, TokenEnd;
        assert WellFormed([t] + TokensFrom(q, e));
      }
    }
  }

  lemma TokenReads(t: string)
    requires IsToken(t)
    ensures Tokens(t) == [t]
  {
    assert TokensFrom(t, |t|) == [] && t[0..|t|] == t;
  }

  lemma {:induction false} JoinedTokens(ts: seq<string>)
    requires WellFormed(ts)
    ensures Tokens(Join(ts, " ")) == ts
  {
    if ts != [] {
      TokenReads(ts[0]);
      if |ts| > 1 {
        TokensOfExtended(ts[0], Join(ts[1..], " "));
        JoinedTokens(ts[1..]);
      }
    }
  }

  /** Tokenizing the tokens joined by one space gives the same tokens, whatever the query. */
  lemma RetokenizingIsStable(q: string)
    ensures Tokens(Join(Tokens(q), " ")) == Tokens(q)
  {
    TokensAreTokens(q, 0);
    JoinedTokens(Tokens(q));
  }

  /* Parsing. */

  const FIELDS := ["namespace", "pod", "container", "cluster"]

  datatype FieldFilter = FieldFilter(field: string, negated: bool, value: string)

  datatype Parsed = Parsed(fields: seq<FieldFilter>, includes: seq<string>, excludes: seq<string>)

  function Unquoted(raw: string): string {
    if |raw| >= 2 && raw[0] == '"' && raw[|raw| - 1] == '"' then raw[1..|raw| - 1] else raw
  }

  function LetterCount(s: string): (n: nat)
    ensures n <= |s|
  {
    if s == "" || !IsLetter(s[0]) then 0 else 1 + LetterCount(s[1..])
  }

  /** `^([A-Za-z]+)(!=|=)([\s\S]*)$` on one of the known fields. */
  function AsField(token: string, lower: string -> string): Option<FieldFilter> {
    var n := LetterCount(token);
    var field, rest := lower(token[..n]), token[n..];
    if n == 0 || field !in FIELDS then None
    else if "!=" <= rest then Some(FieldFilter(field, true, lower(Unquoted(rest[2..]))))
    else if "=" <= rest then Some(FieldFilter(field, false, lower(Unquoted(rest[1..]))))
    else None
  }

  function AddToken(p: Parsed, token: string, lower: string -> string): Parsed {
    if "|=" <= token then p.(includes := p.includes + [lower(Unquoted(Trim(token[2..], IsSpace)))])
    else if "!=" <= token then p.(excludes := p.excludes + [lower(Unquoted(Trim(token[2..], IsSpace)))])
    else match AsField(token, lower)
      case Some(f) => p.(fields := p.fields + [f])
      case None => p.(includes := p.includes + [lower(Unquoted(token))])
  }

  const NOTHING := Parsed([], [], [])

  function ParseTokens(tokens: seq<string>, lower: string -> string): Parsed
    decreases |tokens|
  {
    if tokens == [] then NOTHING
    else AddToken(ParseTokens(tokens[..|tokens| - 1], lower), tokens[|tokens| - 1], lower)
  }

  function ParseLogQuery(query: string, lower: string -> string): Parsed { ParseTokens(Tokens(query), lower) }

  /** parseLogQuery: each token is pushed onto one of the three lists. */
  method Parse(query: string, lower: string -> string) returns (parsed: Parsed)
    ensures parsed == ParseLogQuery(query, lower)
  {
    parsed := NOTHING;
    var tokens := Tokenize(query);
    for i := 0 to |tokens|
      invariant parsed == ParseTokens(tokens[..i], lower)
    {
      parsed := AddToken(parsed, tokens[i], lower);
      assert tokens[..i + 1][..i] == tokens[..i];
    }
    assert tokens[..|tokens|] == tokens;
  }

  /** Two parsed queries, one after the other. */
  function Both(p: Parsed, r: Parsed): Parsed {
    Parsed(p.fields + r.fields, p.includes + r.includes, p.excludes + r.excludes)
  }

  lemma AddTokenToBoth(p: Parsed, r: Parsed, token: string, lower: string -> string)
    ensures AddToken(Both(p, r), token, lower) == Both(p, AddToken(r, token, lower))
  {}

  lemma ParseTokensSnoc(tokens: seq<string>, token: string, lower: string -> string)
    ensures ParseTokens(tokens + [token], lower) == AddToken(ParseTokens(tokens, lower), token, lower)
  {
    var all := tokens + [token];
    assert all[..|all| - 1] == tokens;
  }

  lemma {:induction false} ParseTokensAppend(a: seq<string>, b: seq<string>, lower: string -> string)
    ensures ParseTokens(a + b, lower) == Both(ParseTokens(a, lower), ParseTokens(b, lower))
    decreases |b|
  {
    if b == [] {
      assert a + b == a;
      assert Both(ParseTokens(a, lower), NOTHING) == ParseTokens(a, lower);
    } else {
      hide AddToken, ParseTokens;
      var init, token := b[..|b| - 1], b[|b| - 1];
      ParseTokensAppend(a, init, lower);
      assert b == init + [token] && a + b == (a + init) + [token];
      ParseTokensSnoc(init, token, lower);
      ParseTokensSnoc(a + init, token, lower);
      AddTokenToBoth(ParseTokens(a, lower), ParseTokens(init, lower), token, lower);
    }
  }

  /* Matching. */

  datatype LogEntry = LogEntry(message: string, labels: seq<(string, string)>)

  function LabelOf(labels: seq<(string, string)>, name: string): string {
    if labels == [] then "" else if labels[0].0 == name then labels[0].1 else LabelOf(labels[1..], name)
  }

  function Values(labels: seq<(string, string)>): seq<string> {
    seq(|labels|, i requires 0 <= i < |labels| => labels[i].1)
  }

  function Haystack(log: LogEntry, lower: string -> string): string {
    lower(log.message + " " + Join(Values(log.labels), " "))
  }

  predicate Contains(text: string, term: string) {
    exists i | 0 <= i <= |text| :: term <= text[i..]
  }

  predicate FieldHolds(log: LogEntry, f: FieldFilter, lower: string -> string) {
    (lower(LabelOf(log.labels, f.field)) == f.value) != f.negated
  }

  /** A log matches when every term holds; empty text terms say nothing. */
  predicate Matches(log: LogEntry, p: Parsed, lower: string -> string) {
    && (forall f | f in p.fields :: FieldHolds(log, f, lower))
    && (forall t | t in p.includes && t != "" :: Contains(Haystack(log, lower), t))
    && (forall t | t in p.excludes && t != "" :: !Contains(Haystack(log, lower), t))
  }

  /** matchesLogQuery: loops that return at the first term that fails. */
  method MatchesLogQuery(log: LogEntry, parsed: Parsed, lower: string -> string) returns (ok: bool)
    ensures ok == Matches(log, parsed, lower)
  {
    for i := 0 to |parsed.fields|
      invariant forall f | f in parsed.fields[..i] :: FieldHolds(log, f, lower)
    {
      var f := parsed.fields[i];
      assert f in parsed.fields;
      var actual := lower(LabelOf(log.labels, f.field));
      var isMatch := actual == f.value;
      if !f.negated && !isMatch { return false; }
      if f.negated && isMatch { return false; }
    }
    if |parsed.includes| > 0 || |parsed.excludes| > 0 {
      var haystack := Haystack(log, lower);
      for i := 0 to |parsed.includes|
        invariant forall t | t in parsed.includes[..i] && t != "" :: Contains(haystack, t)
      {
        var term := parsed.includes[i];
        assert term in parsed.includes;
        if term != "" && !Contains(haystack, term) { return false; }
      }
      for i := 0 to |parsed.excludes|
        invariant forall t | t in parsed.excludes[..i] && t != "" :: !Contains(haystack, t)
      {
        var term := parsed.excludes[i];
        assert term in parsed.excludes;
        if term != "" && Contains(haystack, term) { return false; }
      }
    }
    return true;
  }

  function Keep(logs: seq<LogEntry>, p: Parsed, lower: string -> string): seq<LogEntry> {
    if logs == [] then []
    else if Matches(logs[0], p, lower) then [logs[0]] + Keep(logs[1..], p, lower)
    else Keep(logs[1..], p, lower)
  }

  function FilterLogsByQuery(logs: seq<LogEntry>, query: string, lower: string -> string): seq<LogEntry> {
    if Trim(query, IsSpace) == "" then logs else Keep(logs, ParseLogQuery(query, lower), lower)
  }

  lemma {:induction false} NothingKeepsAll(logs: seq<LogEntry>, lower: string -> string)
    ensures Keep(logs, NOTHING, lower) == logs
  {
    if logs != [] { NothingKeepsAll(logs[1..], lower); }
  }

  lemma {:induction false} BlankHasNoTokens(q: string, i: nat)
    requires i <= |q| && All(q, IsSpace)
    ensures TokensFrom(q, i) == []
    decreases |q| - i
  {
    if i < |q| { BlankHasNoTokens(q, i + 1); }
  }

  /** The early return for a blank query is no special case. */
  lemma FilterIsKeep(logs: seq<LogEntry>, query: string, lower: string -> string)
    ensures FilterLogsByQuery(logs, query, lower) == Keep(logs, ParseLogQuery(query, lower), lower)
  {
    if Trim(query, IsSpace) == "" {
      var before, after := TrimParts(query, IsSpace);
      BlankHasNoTokens(query, 0);
      NothingKeepsAll(logs, lower);
    }
  }

  lemma {:induction false} KeepTwice(logs: seq<LogEntry>, p: Parsed, r: Parsed, lower: string -> string)
    ensures Keep(Keep(logs, p, lower), r, lower) == Keep(logs, Both(p, r), lower)
  {
    if logs != [] {
      KeepTwice(logs[1..], p, r, lower);
      hide Contains, Haystack, FieldHolds;
      assert Matches(logs[0], Both(p, r), lower) <==> Matches(logs[0], p, lower) && Matches(logs[0], r, lower);
      var kept := Keep(logs[1..], p, lower);
      if Matches(logs[0], p, lower) { assert ([logs[0]] + kept)[1..] == kept; }
    }
  }

  lemma {:induction false} KeepIs(logs: seq<LogEntry>, p: Parsed, lower: string -> string)
    ensures forall log :: log in Keep(logs, p, lower) <==> log in logs && Matches(log, p, lower)
    decreases |logs|
  {
    hide Matches;
    if logs != [] {
      KeepIs(logs[1..], p, lower);
      assert forall log :: log in logs <==> log == logs[0] || log in logs[1..];
    }
  }

  lemma {:induction false} KeepAppend(a: seq<LogEntry>, b: seq<LogEntry>, p: Parsed, lower: string -> string)
    ensures Keep(a + b, p, lower) == Keep(a, p, lower) + Keep(b, p, lower)
    decreases |a|
  {
    hide Matches;
    if a == [] {
      assert a + b == b;
    } else {
      assert (a + b)[1..] == a[1..] + b;
      KeepAppend(a[1..], b, p, lower);
    }
  }

  /** The result has exactly the logs that match, and those of one part of the list before those of the next. */
  lemma FilterIs(logs: seq<LogEntry>, more: seq<LogEntry>, query: string, lower: string -> string)
    ensures forall log :: log in FilterLogsByQuery(logs, query, lower) <==>
      log in logs && Matches(log, ParseLogQuery(query, lower), lower)
    ensures FilterLogsByQuery(logs + more, query, lower) ==
      FilterLogsByQuery(logs, query, lower) + FilterLogsByQuery(more, query, lower)
  {
    hide Matches, Keep, ParseLogQuery, FilterLogsByQuery;
    FilterIsKeep(logs, query, lower);
    FilterIsKeep(more, query, lower);
    FilterIsKeep(logs + more, query, lower);
    KeepIs(logs, ParseLogQuery(query, lower), lower);
    KeepAppend(logs, more, ParseLogQuery(query, lower), lower);
  }

  /** Main theorem: extending a query whose quotes are closed narrows the result, filter by filter. */
  lemma ExtendingFilters(logs: seq<LogEntry>, q1: string, q2: string, lower: string -> string)
    requires Even(q1)
    ensures FilterLogsByQuery(logs, q1 + " " + q2, lower) ==
      FilterLogsByQuery(FilterLogsByQuery(logs, q1, lower), q2, lower)
  {
    TokensOfExtended(q1, q2);
    ParseTokensAppend(Tokens(q1), Tokens(q2), lower);
    FilterIsKeep(logs, q1 + " " + q2, lower);
    FilterIsKeep(logs, q1, lower);
    FilterIsKeep(Keep(logs, ParseLogQuery(q1, lower), lower), q2, lower);
    KeepTwice(logs, ParseLogQuery(q1, lower), ParseLogQuery(q2, lower), lower);
  }

  lemma BareExclusion(lower: string -> string)
    requires lower("") == ""
    ensures Even("!=") && ParseLogQuery("!=", lower) == Parsed([], [], [""])
  {
    assert IsToken("!=");
    TokenReads("!=");
    assert ["!="][..0] == [] && "!="[2..] == "" && "!=" <= "!=";
    assert ParseTokens([], lower) == NOTHING;
    assert AddToken(NOTHING, "!=", lower) == Parsed([], [], [""]);
  }

  /** An operator separated from its phrase by a space says nothing: the phrase is then searched for,
      where the language's own description says it is excluded. */
  lemma SpacedExclusionSearches(logs: seq<LogEntry>, phrase: string, lower: string -> string)
    requires lower("") == ""
    ensures FilterLogsByQuery(logs, "!= " + phrase, lower) == FilterLogsByQuery(logs, phrase, lower)
  {
    BareExclusion(lower);
    ExtendingFilters(logs, "!=", phrase, lower);
    assert "!=" + " " + phrase == "!= " + phrase;
    FilterIsKeep(logs, "!=", lower);
    EmptyExclusionKeepsAll(logs, lower);
  }

  lemma {:induction false} EmptyExclusionKeepsAll(logs: seq<LogEntry>, lower: string -> string)
    ensures Keep(logs, Parsed([], [], [""]), lower) == logs
  {
    if logs != [] { EmptyExclusionKeepsAll(logs[1..], lower); }
  }

  /* What each kind of term says. */

  lemma {:induction false} TokenEndPast(q: string, i: nat, j: nat, quoted: bool)
    requires i <= j <= |q| && forall k | i <= k < j :: q[k] != '"' && (quoted || !IsSpace(q[k]))
    ensures TokenEnd(q, i, quoted) == TokenEnd(q, j, quoted)
    decreases j - i
  {
    if i < j { TokenEndPast(q, i + 1, j, quoted); }
  }

  predicate IsUnbroken(front: string) { forall k | 0 <= k < |front| :: front[k] != '"' && !IsSpace(front[k]) }

  function Term(front: string, phrase: string): string { front + ("\"" + phrase + "\"") }

  /** An operator and a quoted phrase, spaces and all, are one token. */
  lemma TermIsToken(front: string, phrase: string)
    requires IsUnbroken(front) && '"' !in phrase
    ensures IsToken(Term(front, phrase))
  {
    var t, n, m := Term(front, phrase), |front|, |front| + 1 + |phrase|;
    assert t[n] == '"' && t[m] == '"' && m + 1 == |t|;
    assert forall k | 0 <= k < n :: t[k] == front[k];
    assert forall k | n < k < m :: t[k] == phrase[k - n - 1];
    TokenEndPast(t, 0, n, false);
    TokenEndPast(t, n + 1, m, true);
  }

  lemma {:induction false} LettersThen(name: string, rest: string)
    requires All(name, IsLetter) && rest != "" && !IsLetter(rest[0])
    ensures LetterCount(name + rest) == |name|
    decreases |name|
  {
    if name == "" {
      assert name + rest == rest;
    } else {
      assert forall k | 0 <= k < |name| - 1 :: name[1..][k] == name[k + 1];
      assert IsLetter(name[0]) && (name + rest)[0] == name[0];
      LettersThen(name[1..], rest);
      assert (name + rest)[1..] == name[1..] + rest;
    }
  }

  lemma OneTerm(token: string, lower: string -> string)
    requires IsToken(token)
    ensures ParseLogQuery(token, lower) == AddToken(NOTHING, token, lower)
  {
    TokenReads(token);
    ParseTokensSnoc([], token, lower);
    assert [] + [token] == [token];
  }

  lemma QuotedText(phrase: string)
    ensures Unquoted("\"" + phrase + "\"") == phrase && Trim("\"" + phrase + "\"", IsSpace) == "\"" + phrase + "\""
  {
    var quoted := "\"" + phrase + "\"";
    assert quoted[1..|quoted| - 1] == phrase;
    TrimTrimmed(quoted, IsSpace);
  }

  /** Quotes come off when they stand at both ends, and not otherwise. */
  lemma UnquotedIs(raw: string)
    ensures forall inner: string | raw == "\"" + inner + "\"" :: Unquoted(raw) == inner
    ensures (forall inner: string :: raw != "\"" + inner + "\"") ==> Unquoted(raw) == raw
  {
    if |raw| >= 2 && raw[0] == '"' && raw[|raw| - 1] == '"' {
      assert raw == "\"" + raw[1..|raw| - 1] + "\"";
    }
  }

  lemma UnclosedIsToken(front: string, text: string)
    requires IsUnbroken(front) && '"' !in text
    ensures IsToken(front + ("\"" + text))
  {
    var t, n := front + ("\"" + text), |front|;
    assert t[n] == '"' && forall k | 0 <= k < n :: t[k] == front[k];
    assert forall k | n < k < |t| :: t[k] == text[k - n - 1];
    TokenEndPast(t, 0, n, false);
    TokenEndPast(t, n + 1, |t|, true);
  }

  lemma UnclosedText(phrase: string, space: string)
    requires '"' !in phrase && All(space, IsSpace) && (phrase != "" ==> !IsSpace(phrase[|phrase| - 1]))
    ensures var quoted := "\"" + phrase; Trim(quoted + space, IsSpace) == quoted && Unquoted(quoted) == quoted
  {
    var quoted := "\"" + phrase;
    assert phrase != "" ==> quoted[|quoted| - 1] == phrase[|phrase| - 1];
    assert "" + quoted + space == quoted + space;
    TrimPadded("", quoted, space, IsSpace);
  }

  /** A quote that is never closed takes the rest of the query in, is part of the phrase, and loses the space behind. */
  lemma UnclosedPhrase(front: string, phrase: string, space: string, lower: string -> string)
    requires front in ["|=", "!="] && '"' !in phrase && '"' !in space && All(space, IsSpace)
    requires phrase != "" ==> !IsSpace(phrase[|phrase| - 1])
    ensures ParseLogQuery(front + ("\"" + (phrase + space)), lower) ==
      if front == "|=" then Parsed([], [lower("\"" + phrase)], []) else Parsed([], [], [lower("\"" + phrase)])
  {
    hide TokenEnd, Unquoted, Trim, All, ParseLogQuery, IsSpace;
    var t := front + ("\"" + (phrase + space));
    assert IsUnbroken(front) by { OperatorsAreUnbroken(); }
    UnclosedIsToken(front, phrase + space);
    UnclosedText(phrase, space);
    OneTerm(t, lower);
    assert "\"" + (phrase + space) == "\"" + phrase + space;
    assert t[..2] == front && t[2..] == "\"" + (phrase + space) && front <= t && t[0] == front[0];
  }

  lemma OperatorsAreUnbroken()
    ensures IsUnbroken("|=") && IsUnbroken("!=")
  {}

  predicate Says(log: LogEntry, phrase: string, lower: string -> string) {
    lower(phrase) == "" || Contains(Haystack(log, lower), lower(phrase))
  }

  lemma FieldText(name: string, op: string, quoted: string)
    requires name in FIELDS && op in ["=", "!="]
    ensures var t := name + op + quoted;
      LetterCount(t) == |name| && t[..|name|] == name && t[|name|..] == op + quoted
  {
    assert All(name, IsLetter) && !IsLetter(op[0]);
    LettersThen(name, op + quoted);
    assert name + op + quoted == name + (op + quoted);
  }

  lemma FieldTerm(name: string, op: string, phrase: string, lower: string -> string)
    requires name in FIELDS && lower(name) == name && op in ["=", "!="]
    ensures AsField(Term(name + op, phrase), lower) == Some(FieldFilter(name, op == "!=", lower(phrase)))
  {
    hide LetterCount, Unquoted;
    var quoted := "\"" + phrase + "\"";
    FieldText(name, op, quoted);
    QuotedText(phrase);
    assert (op + quoted)[|op|..] == quoted && (op == "=" ==> (op + quoted)[0] == '=');
  }

  /** Main theorem: a quoted phrase, alone or after `|=`, is required in the text; after `!=` it is
      forbidden; after a field's name and `=` or `!=` the field has to equal it, or not. */
  lemma TermsMean(log: LogEntry, name: string, phrase: string, lower: string -> string)
    requires '"' !in phrase && name in ["namespace", "pod", "container", "cluster"] && lower(name) == name
    ensures Matches(log, ParseLogQuery(Term("", phrase), lower), lower) <==> Says(log, phrase, lower)
    ensures Matches(log, ParseLogQuery(Term("|=", phrase), lower), lower) <==> Says(log, phrase, lower)
    ensures Matches(log, ParseLogQuery(Term("!=", phrase), lower), lower) <==>
      lower(phrase) == "" || !Says(log, phrase, lower)
    ensures Matches(log, ParseLogQuery(Term(name + "=", phrase), lower), lower) <==>
      lower(LabelOf(log.labels, name)) == lower(phrase)
    ensures Matches(log, ParseLogQuery(Term(name + "!=", phrase), lower), lower) <==>
      lower(LabelOf(log.labels, name)) != lower(phrase)
  {
    BareTerm(log, phrase, lower);
    PrefixedTerms(log, phrase, lower);
    FieldTermMeans(log, name, "=", phrase, lower);
    FieldTermMeans(log, name, "!=", phrase, lower);
  }

  lemma BareTerm(log: LogEntry, phrase: string, lower: string -> string)
    requires '"' !in phrase
    ensures Matches(log, ParseLogQuery(Term("", phrase), lower), lower) <==> Says(log, phrase, lower)
  {
    hide TokenEnd, Unquoted, Trim, ParseLogQuery, Contains, Haystack;
    var t := Term("", phrase);
    TermIsToken("", phrase);
    QuotedText(phrase);
    OneTerm(t, lower);
    assert t == "\"" + phrase + "\"" && t[0] == '"' && LetterCount(t) == 0;
    assert AddToken(NOTHING, t, lower) == Parsed([], [lower(phrase)], []);
  }

  lemma PrefixedToken(front: string, phrase: string, lower: string -> string)
    requires front in ["|=", "!="] && '"' !in phrase
    ensures var t := Term(front, phrase);
      IsToken(t) && AddToken(NOTHING, t, lower) == if front == "|=" then Parsed([], [lower(phrase)], [])
        else Parsed([], [], [lower(phrase)])
  {
    hide TokenEnd, Unquoted, Trim;
    var t, quoted := Term(front, phrase), "\"" + phrase + "\"";
    TermIsToken(front, phrase);
    QuotedText(phrase);
    assert t == front + quoted && t[..2] == front && t[2..] == quoted;
    assert front <= t && t[0] == front[0];
  }

  lemma PrefixedTerms(log: LogEntry, phrase: string, lower: string -> string)
    requires '"' !in phrase
    ensures Matches(log, ParseLogQuery(Term("|=", phrase), lower), lower) <==> Says(log, phrase, lower)
    ensures Matches(log, ParseLogQuery(Term("!=", phrase), lower), lower) <==>
      lower(phrase) == "" || !Says(log, phrase, lower)
  {
    hide Term, ParseLogQuery, AddToken, IsToken, Contains, Haystack;
    PrefixedToken("|=", phrase, lower);
    PrefixedToken("!=", phrase, lower);
    OneTerm(Term("|=", phrase), lower);
    OneTerm(Term("!=", phrase), lower);
  }

  lemma FieldToken(name: string, op: string, phrase: string)
    requires '"' !in phrase && name in FIELDS && op in ["=", "!="]
    ensures var t := Term(name + op, phrase); IsToken(t) && !("|=" <= t) && !("!=" <= t)
  {
    var t := Term(name + op, phrase);
    assert IsUnbroken(name + op);
    TermIsToken(name + op, phrase);
    assert t[0] == name[0] && IsLetter(name[0]);
  }

  lemma FieldTermMeans(log: LogEntry, name: string, op: string, phrase: string, lower: string -> string)
    requires '"' !in phrase && name in FIELDS && lower(name) == name && op in ["=", "!="]
    ensures Matches(log, ParseLogQuery(Term(name + op, phrase), lower), lower) <==>
      (lower(LabelOf(log.labels, name)) == lower(phrase)) == (op == "=")
  {
    hide Term, ParseLogQuery, AsField, IsToken;
    FieldToken(name, op, phrase);
    OneTerm(Term(name + op, phrase), lower);
    FieldTerm(name, op, phrase, lower);
    var f := FieldFilter(name, op == "!=", lower(phrase));
    assert f in [f] && Matches(log, Parsed([f], [], []), lower) <==> FieldHolds(log, f, lower);
  }

  /* Terms without quotes. */

  lemma WordIsToken(word: string)
    requires IsUnbroken(word) && word != ""
    ensures IsToken(word)
  {
    TokenEndPast(word, 0, |word|, false);
  }

  lemma WordStays(word: string)
    requires IsUnbroken(word)
    ensures Unquoted(word) == word && Trim(word, IsSpace) == word
  {
    TrimTrimmed(word, IsSpace);
  }

  lemma UnbrokenAppend(a: string, b: string)
    requires IsUnbroken(a) && IsUnbroken(b)
    ensures IsUnbroken(a + b)
  {}

  /** A field, `=` or `!=`, and a value. */
  ghost predicate IsFieldTerm(word: string, lower: string -> string) {
    exists name, op, value :: IsFieldTermOf(word, name, op, value, lower)
  }

  ghost predicate IsFieldTermOf(word: string, name: string, op: string, value: string, lower: string -> string) {
    word == name + op + value && name != "" && All(name, IsLetter) && lower(name) in FIELDS && op in ["=", "!="]
  }

  lemma {:induction false} LettersAreLetters(s: string)
    ensures All(s[..LetterCount(s)], IsLetter)
  {
    if s != "" && IsLetter(s[0]) {
      LettersAreLetters(s[1..]);
      assert s[..LetterCount(s)] == [s[0]] + s[1..][..LetterCount(s[1..])];
    }
  }

  lemma FieldParts(word: string, n: nat, op: string)
    requires n <= |word| && op <= word[n..]
    ensures word == word[..n] + op + word[n..][|op|..]
  {
    var rest := word[n..];
    assert rest == op + rest[|op|..] && word == word[..n] + rest;
  }

  lemma FieldIsFieldTerm(word: string, lower: string -> string)
    requires AsField(word, lower).Some?
    ensures IsFieldTerm(word, lower)
  {
    var n := LetterCount(word);
    LettersAreLetters(word);
    var op := if "!=" <= word[n..] then "!=" else "=";
    hide LetterCount, Unquoted, All;
    FieldParts(word, n, op);
    assert IsFieldTermOf(word, word[..n], op, word[n..][|op|..], lower);
  }

  lemma OtherWordIsNoField(word: string, lower: string -> string)
    requires !IsFieldTerm(word, lower)
    ensures AsField(word, lower) == None
  {
    hide AsField, IsFieldTerm;
    if AsField(word, lower).Some? { FieldIsFieldTerm(word, lower); }
  }

  lemma PrefixedWord(front: string, word: string, lower: string -> string)
    requires front in ["|=", "!="] && IsUnbroken(word)
    ensures IsToken(front + word)
    ensures AddToken(NOTHING, front + word, lower) ==
      if front == "|=" then Parsed([], [lower(word)], []) else Parsed([], [], [lower(word)])
  {
    var t := front + word;
    UnbrokenAppend(front, word);
    WordIsToken(t);
    WordStays(word);
    hide Unquoted, Trim;
    assert t[..2] == front && t[2..] == word && front <= t && t[0] == front[0];
  }

  lemma FieldWord(name: string, op: string, word: string, lower: string -> string)
    requires name in FIELDS && lower(name) == name && op in ["=", "!="] && IsUnbroken(word)
    ensures
      var t := name + op + word;
      && IsToken(t) && !("|=" <= t) && !("!=" <= t)
      && AsField(t, lower) == Some(FieldFilter(name, op == "!=", lower(word)))
  {
    var t := name + op + word;
    assert IsUnbroken(name + op);
    UnbrokenAppend(name + op, word);
    WordIsToken(t);
    WordStays(word);
    assert t[0] == name[0] && IsLetter(name[0]);
    hide LetterCount, Unquoted;
    FieldText(name, op, word);
    assert (op + word)[|op|..] == word && (op == "=" ==> (op + word)[0] == '=');
  }

  lemma FieldWordMeans(log: LogEntry, name: string, op: string, word: string, lower: string -> string)
    requires name in FIELDS && lower(name) == name && op in ["=", "!="] && IsUnbroken(word)
    ensures Matches(log, ParseLogQuery(name + op + word, lower), lower) <==>
      (lower(LabelOf(log.labels, name)) == lower(word)) == (op == "=")
  {
    hide ParseLogQuery, AsField, IsToken, LabelOf;
    FieldWord(name, op, word, lower);
    OneTerm(name + op + word, lower);
    var f := FieldFilter(name, op == "!=", lower(word));
    assert f in [f] && Matches(log, Parsed([f], [], []), lower) <==> FieldHolds(log, f, lower);
  }

  lemma PrefixedWords(log: LogEntry, word: string, lower: string -> string)
    requires IsUnbroken(word)
    ensures Matches(log, ParseLogQuery("|=" + word, lower), lower) <==> Says(log, word, lower)
    ensures Matches(log, ParseLogQuery("!=" + word, lower), lower) <==> lower(word) == "" || !Says(log, word, lower)
  {
    hide ParseLogQuery, AddToken, IsToken, Contains, Haystack;
    PrefixedWord("|=", word, lower);
    PrefixedWord("!=", word, lower);
    OneTerm("|=" + word, lower);
    OneTerm("!=" + word, lower);
  }

  /** Main theorem: terms without quotes and spaces mean what quoted ones do; and a bare word, also one that looks like
      a
      field but names none, is searched for as it stands. */
  lemma WordsMean(log: LogEntry, name: string, word: string, lower: string -> string)
    requires IsUnbroken(word) && name in ["namespace", "pod", "container", "cluster"] && lower(name) == name
    ensures word != "" && !("|=" <= word) && !("!=" <= word) && !IsFieldTerm(word, lower) ==>
      (Matches(log, ParseLogQuery(word, lower), lower) <==> Says(log, word, lower))
    ensures Matches(log, ParseLogQuery("|=" + word, lower), lower) <==> Says(log, word, lower)
    ensures Matches(log, ParseLogQuery("!=" + word, lower), lower) <==> lower(word) == "" || !Says(log, word, lower)
    ensures Matches(log, ParseLogQuery(name + "=" + word, lower), lower) <==>
      lower(LabelOf(log.labels, name)) == lower(word)
    ensures Matches(log, ParseLogQuery(name + "!=" + word, lower), lower) <==>
      lower(LabelOf(log.labels, name)) != lower(word)
  {
    hide ParseLogQuery, AsField, IsToken, Contains, Haystack, IsFieldTerm, LabelOf, Unquoted;
    PrefixedWords(log, word, lower);
    FieldWordMeans(log, name, "=", word, lower);
    FieldWordMeans(log, name, "!=", word, lower);
    if word != "" && !("|=" <= word) && !("!=" <= word) && !IsFieldTerm(word, lower) {
      WordIsToken(word);
      WordStays(word);
      OneTerm(word, lower);
      OtherWordIsNoField(word, lower);
      assert AddToken(NOTHING, word, lower) == Parsed([], [lower(word)], []);
    }
  }

  /** The value of a label is the one it has, and empty when it has none. */
  lemma {:induction false} LabelIs(labels: seq<(string, string)>, name: string)
    ensures (forall l | l in labels :: l.0 != name) ==> LabelOf(labels, name) == ""
    ensures forall value | (name, value) in labels && (forall l | l in labels && l.0 == name :: l.1 == value) ::
      LabelOf(labels, name) == value
  {
    if labels != [] { LabelIs(labels[1..], name); }
  }

  /** Where a phrase is searched for: in the message and the label values, with a space in front of each. */
  lemma SaysMeans(log: LogEntry, phrase: string, lower: string -> string)
    ensures
      var values := seq(|log.labels|, i requires 0 <= i < |log.labels| => log.labels[i].1);
      var text := lower(log.message + " " + Join(values, " "));
      Says(log, phrase, lower) <==>
        lower(phrase) == "" || exists before: string, after: string :: text == before + lower(phrase) + after
  {
    var values := seq(|log.labels|, i requires 0 <= i < |log.labels| => log.labels[i].1);
    var text, term := lower(log.message + " " + Join(values, " ")), lower(phrase);
    assert Values(log.labels) == values;
    if i :| 0 <= i <= |text| && term <= text[i..] {
      assert text == text[..i] + term + text[i..][|term|..];
    }
    if before: string, after: string :| text == before + term + after {
      assert text[|before|..] == term + after;
    }
  }

  /* When the documented exclusion excludes. */

  lemma {:induction false} SpacesSkipped(q: string, i: nat, j: nat)
    requires i <= j <= |q| && forall k | i <= k < j :: IsSpace(q[k])
    ensures TokensFrom(q, i) == TokensFrom(q, j)
    decreases j - i
  {
    if i < j { SpacesSkipped(q, i + 1, j); }
  }

  lemma OperatorThenSpaces(gap: string, token: string)
    requires gap != "" && All(gap, IsSpace)
    ensures Tokens("!=" + (gap + token)) == ["!="] + Tokens(token)
  {
    var q, n := "!=" + (gap + token), 2 + |gap|;
    assert q[0] == '!' && q[1] == '=' && q[2] == gap[0] && IsSpace(gap[0]);
    assert forall k | 2 <= k < n :: q[k] == gap[k - 2] && IsSpace(gap[k - 2]);
    assert TokenEnd(q, 0, false) == TokenEnd(q, 1, false) == TokenEnd(q, 2, false) == 2;
    assert q[0..2] == "!=";
    SpacesSkipped(q, 2, n);
    assert Suffix(q, n, token);
    TokensShift(q, n, token, 0);
  }

  lemma SpacedTerm(log: LogEntry, gap: string, phrase: string, lower: string -> string)
    requires gap != "" && All(gap, IsSpace) && '"' !in phrase && lower("") == ""
    ensures Matches(log, ParseLogQuery("!=" + (gap + Term("", phrase)), lower), lower) <==> Says(log, phrase, lower)
  {
    hide Term, IsToken, TokenEnd, Contains, Haystack;
    OperatorThenSpaces(gap, Term("", phrase));
    ParseTokensAppend(["!="], Tokens(Term("", phrase)), lower);
    BareExclusion(lower);
    TokenReads("!=");
    BareTerm(log, phrase, lower);
    MatchesNothingElse(log, ParseLogQuery(Term("", phrase), lower), lower);
  }

  lemma MatchesNothingElse(log: LogEntry, p: Parsed, lower: string -> string)
    ensures Matches(log, Both(Parsed([], [], [""]), p), lower) <==> Matches(log, p, lower)
  {}

  ghost predicate Excludes(query: string, phrase: string, lower: string -> string) {
    forall log :: Matches(log, ParseLogQuery(query, lower), lower) <==> lower(phrase) == "" || !Says(log, phrase, lower)
  }

  /** Exactly when `!=` before a quoted phrase excludes it, as the language's description says: when no space
      stands between the two, or the phrase is empty and so says nothing. */
  lemma ExclusionNeedsNoSpace(gap: string, phrase: string, lower: string -> string)
    requires All(gap, IsSpace) && '"' !in phrase && lower("") == ""
    ensures Excludes("!=" + (gap + Term("", phrase)), phrase, lower) <==> gap == "" || lower(phrase) == ""
  {
    var query := "!=" + (gap + Term("", phrase));
    if gap == "" {
      assert query == Term("!=", phrase);
      forall log ensures Matches(log, ParseLogQuery(query, lower), lower) <==>
        lower(phrase) == "" || !Says(log, phrase, lower) {
        PrefixedTerms(log, phrase, lower);
      }
    } else {
      forall log ensures Matches(log, ParseLogQuery(query, lower), lower) <==> Says(log, phrase, lower) {
        SpacedTerm(log, gap, phrase, lower);
      }
      var log := LogEntry("", []);
      assert Says(log, phrase, lower) || !Says(log, phrase, lower);
    }
  }
}
