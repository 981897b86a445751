/** Substituting dashboard variables into a query (frontend/src/dashboard/usePanelData.ts, resolveExprVariables):
    one variable after another, each by two passes over the text. */
module Variables {
  import opened Wrappers
  import opened Text
  import opened LabelText

  datatype Variable = Variable(name: string, current: string)

  function ValueOf(v: Variable): string { if v.current == "All" then ".*" else v.current }

  predicate HasWildcard(value: string) { exists k | 0 <= k < |value| - 1 :: value[k] == '.' && value[k + 1] == '*' }

  /* The code's passes. */

  /** `\b` at position `e`. */
  predicate IsBoundary(s: string, e: nat)
    requires e <= |s|
  {
    (e > 0 && IsWord(s[e - 1])) != (e < |s| && IsWord(s[e]))
  }

  predicate IsChar(s: string, i: nat, c: char) { i < |s| && s[i] == c }

  /** `part` stands at position `i`. */
  predicate Here(s: string, i: nat, part: string) { i + |part| <= |s| && s[i..i + |part|] == part }

  /** `(?:\$\{name\}|\$name\b)` at position `i`: where it ends. */
  function TokenAt(s: string, i: nat, name: string): (r: Option<nat>)
    ensures r.Some? ==> i < r.value <= |s|
  {
    if !IsChar(s, i, '$') then None
    else if IsChar(s, i + 1, '{') && Here(s, i + 2, name) && IsChar(s, i + 2 + |name|, '}') then Some(i + |name| + 3)
    else if Here(s, i + 1, name) && IsBoundary(s, i + 1 + |name|) then Some(i + 1 + |name|)
    else None
  }

  datatype MatcherToken = MatcherToken(word: nat, quote: nat, end: nat)

  /** `(\w+)(=~?)"token"` at position `i`. */
  function MatcherAt(s: string, i: nat, name: string): (r: Option<MatcherToken>)
    requires i <= |s|
    ensures r.Some? ==> i < r.value.word < r.value.quote < r.value.end <= |s|
  {
    var w := WordEnd(s, i);
    if w == i || !(w < |s| && s[w] == '=') then None
    else
      var q := if w + 1 < |s| && s[w + 1] == '~' then w + 2 else w + 1;
      if !(q < |s| && s[q] == '"') then None
      else match TokenAt(s, q + 1, name)
        case None => None
        case Some(e) => if e < |s| && s[e] == '"' then Some(MatcherToken(w, q, e + 1)) else None
  }

  /** A wildcard value needs a regular-expression match. */
  function Matching(op: string, value: string): string {
    (if HasWildcard(value) then "=~" else op) + "\"" + value + "\""
  }

  function UpgradedFrom(s: string, i: nat, name: string, value: string): string
    requires i <= |s|
    decreases |s| - i
  {
    if i == |s| then ""
    else match MatcherAt(s, i, name)
      case None => [s[i]] + UpgradedFrom(s, i + 1, name, value)
      case Some(m) => s[i..m.word] + (Matching(s[m.word..m.quote], value) + UpgradedFrom(s, m.end, name, value))
  }

  function ReplacedFrom(s: string, i: nat, name: string, value: string): string
    requires i <= |s|
    decreases |s| - i
  {
    if i == |s| then ""
    else match TokenAt(s, i, name)
      case None => [s[i]] + ReplacedFrom(s, i + 1, name, value)
      case Some(e) => value + ReplacedFrom(s, e, name, value)
  }

  function Resolved(s: string, v: Variable): string {
    ReplacedFrom(UpgradedFrom(s, 0, v.name, ValueOf(v)), 0, v.name, ValueOf(v))
  }

  function ResolvedAll(s: string, vs: seq<Variable>): string
    decreases |vs|
  {
    if vs == [] then s else ResolvedAll(Resolved(s, vs[0]), vs[1..])
  }

  /** The loop over the variables. */
  method ResolveExprVariables(expr: string, variables: seq<Variable>) returns (resolved: string)
    ensures resolved == ResolvedAll(expr, variables)
  {
    resolved := expr;
    for i := 0 to |variables|
      invariant ResolvedAll(resolved, variables[i..]) == ResolvedAll(expr, variables)
    {
      var v := variables[i];
      assert variables[i..][1..] == variables[i + 1..];
      resolved := UpgradedFrom(resolved, 0, v.name, ValueOf(v));
      resolved := ReplacedFrom(resolved, 0, v.name, ValueOf(v));
    }
  }

  /* What the text is made of. */

  datatype Part = Lit(text: string) | Ref(name: string, braced: bool)

  /** Text, then a quoted value, and so on. */
  datatype Template = End(text: string) | Quote(text: string, parts: seq<Part>, rest: Template)

  function RenderPart(p: Part): string {
    match p
    case Lit(text) => text
    case Ref(name, braced) => if braced then "${" + name + "}" else "$" + name
  }

  function RenderParts(parts: seq<Part>): string
    decreases |parts|
  {
    if parts == [] then "" else RenderPart(parts[0]) + RenderParts(parts[1..])
  }

  function Render(t: Template): string {
    match t
    case End(text) => text
    case Quote(text, parts, rest) => text + "\"" + RenderParts(parts) + "\"" + Render(rest)
  }

  predicate IsBuiltin(text: string, k: nat) {
    k + 2 < |text| && text[k] == '$' && text[k + 1] == '_' && text[k + 2] == '_'
  }

  /** Outside the quotes: no quote, and no `$` but those of the built-in `$__...` intervals. */
  predicate IsOuter(text: string) {
    forall k | 0 <= k < |text| :: text[k] != '"' && (text[k] == '$' ==> IsBuiltin(text, k))
  }

  predicate IsInner(text: string) { text != "" && forall k | 0 <= k < |text| :: text[k] != '"' && text[k] != '$' }

  predicate IsName(name: string) { name != "" && AllWord(name) }

  predicate IsPart(p: Part) { if p.Lit? then IsInner(p.text) else IsName(p.name) }

  predicate AreParts(parts: seq<Part>)
    decreases |parts|
  {
    parts == [] || (IsPart(parts[0]) && AreParts(parts[1..]))
  }

  predicate IsTemplate(t: Template) {
    match t
    case End(text) => IsOuter(text)
    case Quote(text, parts, rest) => IsOuter(text) && AreParts(parts) && IsTemplate(rest)
  }

  predicate IsVariableName(name: string) { IsName(name) && !("__" <= name) }

  predicate IsVariable(v: Variable) { IsVariableName(v.name) && IsInner(ValueOf(v)) }

  /* The simultaneous substitution. */

  type Env = map<string, string>

  function SimPart(p: Part, env: Env): Part {
    if p.Ref? && p.name in env then Lit(env[p.name]) else p
  }

  function SimParts(parts: seq<Part>, env: Env): (r: seq<Part>)
    ensures |r| == |parts|
    decreases |parts|
  {
    if parts == [] then [] else [SimPart(parts[0], env)] + SimParts(parts[1..], env)
  }

  /** The quoted value is one reference, to a variable that has a value. */
  predicate IsWhole(parts: seq<Part>, env: Env) { |parts| == 1 && parts[0].Ref? && parts[0].name in env }

  predicate EndsInEqual(text: string) { |text| >= 2 && text[|text| - 1] == '=' && IsWord(text[|text| - 2]) }

  /** An exact match against a whole wildcard becomes a regular-expression match. */
  function SimText(text: string, parts: seq<Part>, env: Env): string {
    if IsWhole(parts, env) && HasWildcard(env[parts[0].name]) && EndsInEqual(text) then text + "~" else text
  }

  function Sim(t: Template, env: Env): Template {
    match t
    case End(_) => t
    case Quote(text, parts, rest) => Quote(SimText(text, parts, env), SimParts(parts, env), Sim(rest, env))
  }

  /** The values of the variables; the first of two with one name counts. */
  function EnvOf(vs: seq<Variable>): Env
    decreases |vs|
  {
    if vs == [] then map[] else EnvOf(vs[1..])[vs[0].name := ValueOf(vs[0])]
  }

  /* The substitution of one variable after another. A bare reference that a word character follows is stuck:
     it reads as a longer name. */

  predicate StartsWithWord(text: string) { text != "" && IsWord(text[0]) }

  predicate IsBare(p: Part) { p.Ref? && !p.braced }

  predicate Stuck(parts: seq<Part>, k: nat) {
    k + 1 < |parts| && IsBare(parts[k]) && parts[k + 1].Lit? && StartsWithWord(parts[k + 1].text)
  }

  /** No stuck reference is the beginning of this name. */
  ghost predicate Unextended(parts: seq<Part>, name: string) {
    forall k: nat :: Stuck(parts, k) ==> !(parts[k].name < name)
  }

  ghost predicate UnextendedIn(t: Template, name: string) {
    t.Quote? ==> Unextended(t.parts, name) && UnextendedIn(t.rest, name)
  }

  function ReplacedAt(parts: seq<Part>, k: nat, name: string, value: string): Part
    requires k < |parts|
  {
    if parts[k].Ref? && parts[k].name == name && !Stuck(parts, k) then Lit(value) else parts[k]
  }

  function ReplacedParts(parts: seq<Part>, name: string, value: string): (r: seq<Part>)
    ensures |r| == |parts|
    decreases |parts|
  {
    if parts == [] then [] else [ReplacedAt(parts, 0, name, value)] + ReplacedParts(parts[1..], name, value)
  }

  /** One variable. */
  function Step(t: Template, v: Variable): Template {
    match t
    case End(_) => t
    case Quote(text, parts, rest) =>
      Quote(SimText(text, parts, map[v.name := ValueOf(v)]), ReplacedParts(parts, v.name, ValueOf(v)), Step(rest, v))
  }

  /** All of them, in order. */
  function Run(t: Template, vs: seq<Variable>): Template
    decreases |vs|
  {
    if vs == [] then t else Run(Step(t, vs[0]), vs[1..])
  }

  /* Tokens. */

  lemma HereAt(s: string, i: nat, part: string)
    ensures Here(s, i, part) <==> At(s, i, part)
  {
    if Here(s, i, part) {
      forall k | 0 <= k < |part| ensures s[i + k] == part[k] { assert s[i..i + |part|][k] == part[k]; }
    }
  }

  lemma HereParts(s: string, i: nat, a: string, b: string)
    requires Here(s, i, a + b)
    ensures Here(s, i, a) && Here(s, i + |a|, b)
  {
    HereAt(s, i, a + b);
    AtParts(s, i, a, b);
    HereAt(s, i, a);
    HereAt(s, i + |a|, b);
  }

  lemma {:induction false} WordEndStops(s: string, i: nat)
    requires i <= |s|
    ensures var e := WordEnd(s, i); (e < |s| ==> !IsWord(s[e])) && forall k | i <= k < e :: IsWord(s[k])
    decreases |s| - i
  {
    if i < |s| && IsWord(s[i]) { WordEndStops(s, i + 1); }
  }

  /** A name stands at `i`, whole, just when it is the word at `i`. */
  lemma NameIsWord(s: string, i: nat, name: string)
    requires i <= |s| && IsName(name)
    ensures Here(s, i, name) && (i + |name| < |s| ==> !IsWord(s[i + |name|])) <==> s[i..WordEnd(s, i)] == name
  {
    WordEndStops(s, i);
    if Here(s, i, name) && (i + |name| < |s| ==> !IsWord(s[i + |name|])) {
      forall k | i <= k < i + |name| ensures IsWord(s[k]) { assert s[i + (k - i)] == name[k - i]; }
      WordEndAt(s, i, i + |name|);
      assert s[i..i + |name|] == name;
    }
  }

  /** What a token is, for a name of word characters. */
  function WordToken(s: string, i: nat): Option<(string, nat)> {
    if !IsChar(s, i, '$') then None
    else if IsChar(s, i + 1, '{') then
      var w := WordEnd(s, i + 2);
      if IsChar(s, w, '}') then Some((s[i + 2..w], w + 1)) else None
    else
      var w := WordEnd(s, i + 1);
      Some((s[i + 1..w], w))
  }

  lemma TokenIsWord(s: string, i: nat, name: string)
    requires IsName(name)
    ensures TokenAt(s, i, name) ==
      match WordToken(s, i) { case Some((word, e)) => if word == name then Some(e) else None case None => None }
  {
    if IsChar(s, i, '$') {
      if IsChar(s, i + 1, '{') { BracedIsWord(s, i, name); } else { BareIsWord(s, i, name); }
    }
  }

  lemma BracedIsWord(s: string, i: nat, name: string)
    requires IsName(name) && IsChar(s, i, '$') && IsChar(s, i + 1, '{')
    ensures var w := WordEnd(s, i + 2);
      TokenAt(s, i, name) == if IsChar(s, w, '}') && s[i + 2..w] == name then Some(w + 1) else None
  {
    NameIsWord(s, i + 2, name);
    NameIsNot(s, i + 1, name);
  }

  /** A name does not stand where there is no word character. */
  lemma NameIsNot(s: string, i: nat, name: string)
    requires IsName(name) && i < |s| && !IsWord(s[i])
    ensures !Here(s, i, name)
  {
    assert IsWord(name[0]) && s[i + 0] != name[0];
  }

  lemma BareIsWord(s: string, i: nat, name: string)
    requires IsName(name) && IsChar(s, i, '$') && !IsChar(s, i + 1, '{')
    ensures var w := WordEnd(s, i + 1); TokenAt(s, i, name) == if s[i + 1..w] == name then Some(w) else None
  {
    NameIsWord(s, i + 1, name);
    if Here(s, i + 1, name) {
      assert s[i + 1 + (|name| - 1)] == name[|name| - 1];
      assert IsWord(s[i + |name|]);
    }
  }

  /** A built-in `$__...` is no variable. */
  lemma BuiltinNoToken(s: string, i: nat, name: string)
    requires IsVariableName(name) && i + 2 < |s| && s[i] == '$' && s[i + 1] == '_' && s[i + 2] == '_'
    ensures TokenAt(s, i, name) == None
  {
    BareIsWord(s, i, name);
    var w := WordEnd(s, i + 1);
    assert WordEnd(s, i + 2) == w && w >= i + 3;
    assert "__" <= s[i + 1..w];
  }

  /* Where the pieces of the text are. */

  function Width(p: Part): nat {
    match p
    case Lit(text) => |text|
    case Ref(name, braced) => if braced then |name| + 3 else |name| + 1
  }

  function Widths(parts: seq<Part>): nat
    decreases |parts|
  {
    if parts == [] then 0 else Width(parts[0]) + Widths(parts[1..])
  }

  /** The part stands at `i`. */
  predicate PartAt(s: string, i: nat, p: Part) {
    match p
    case Lit(text) => Here(s, i, text)
    case Ref(name, braced) =>
      && IsChar(s, i, '$')
      && if braced then IsChar(s, i + 1, '{') && Here(s, i + 2, name) && IsChar(s, i + 2 + |name|, '}')
         else Here(s, i + 1, name)
  }

  /** The parts stand one after the other from `i` on, up to a quote at `c`. */
  predicate PartsAt(s: string, i: nat, parts: seq<Part>, c: nat)
    decreases |parts|
  {
    if parts == [] then i == c && IsChar(s, c, '"')
    else PartAt(s, i, parts[0]) && PartsAt(s, i + Width(parts[0]), parts[1..], c)
  }

  /** A segment stands at `i`: its opening quote is at `q`, its closing one at `c`. */
  predicate SegmentAt(s: string, i: nat, text: string, parts: seq<Part>, q: nat, c: nat) {
    Here(s, i, text) && q == i + |text| && IsChar(s, q, '"') && PartsAt(s, q + 1, parts, c)
  }

  function QuoteAt(i: nat, t: Template): nat
    requires t.Quote?
  {
    i + |t.text|
  }

  function CloseAt(i: nat, t: Template): nat
    requires t.Quote?
  {
    i + |t.text| + 1 + Widths(t.parts)
  }

  /** The template is what stands from `i` to the end. */
  predicate TemplateAt(s: string, i: nat, t: Template)
    decreases t
  {
    match t
    case End(text) => Here(s, i, text) && i + |text| == |s|
    case Quote(text, parts, rest) =>
      SegmentAt(s, i, text, parts, QuoteAt(i, t), CloseAt(i, t)) && TemplateAt(s, CloseAt(i, t) + 1, rest)
  }

  lemma PartWidth(p: Part)
    ensures |RenderPart(p)| == Width(p)
  {}

  lemma PartIsAt(s: string, i: nat, p: Part)
    requires Here(s, i, RenderPart(p))
    ensures PartAt(s, i, p)
  {
    if p.Ref? {
      var name := p.name;
      if p.braced {
        HereParts(s, i, "${" + name, "}");
        HereParts(s, i, "${", name);
        assert s[i..i + 2] == "${" && s[i..i + 2][0] == s[i] && s[i..i + 2][1] == s[i + 1];
        assert s[i + 2 + |name|..i + 3 + |name|] == "}";
      } else {
        HereParts(s, i, "$", name);
      }
    }
  }

  lemma {:induction false} PartsAreAt(s: string, i: nat, parts: seq<Part>, c: nat)
    requires Here(s, i, RenderParts(parts)) && c == i + |RenderParts(parts)| && IsChar(s, c, '"') && AreParts(parts)
    ensures PartsAt(s, i, parts, c) && c == i + Widths(parts)
    decreases |parts|
  {
    hide Here, RenderPart, PartAt, IsPart, Width;
    if parts != [] {
      RenderedFirst(s, i, parts);
      PartsAreAt(s, i + Width(parts[0]), parts[1..], c);
      PartIsAt(s, i, parts[0]);
    }
  }

  lemma RenderedFirst(s: string, i: nat, parts: seq<Part>)
    requires parts != [] && Here(s, i, RenderParts(parts))
    ensures Here(s, i, RenderPart(parts[0])) && Here(s, i + Width(parts[0]), RenderParts(parts[1..]))
    ensures |RenderParts(parts)| == Width(parts[0]) + |RenderParts(parts[1..])|
  {
    hide Here, RenderPart, Width;
    PartWidth(parts[0]);
    HereParts(s, i, RenderPart(parts[0]), RenderParts(parts[1..]));
  }

  /** A bare reference is stuck just when a word character follows it in the text. */
  lemma StuckInText(s: string, i: nat, parts: seq<Part>, c: nat)
    requires PartsAt(s, i, parts, c) && AreParts(parts) && parts != [] && IsBare(parts[0])
    ensures var e := i + Width(parts[0]); e < |s| && (IsWord(s[e]) <==> Stuck(parts, 0))
  {
    var e := i + Width(parts[0]);
    if |parts| > 1 {
      assert PartAt(s, e, parts[1]) && IsPart(parts[1]);
      if parts[1].Lit? { assert s[e..e + |parts[1].text|][0] == s[e]; }
    }
  }

  lemma {:induction false} TemplateIsAt(s: string, i: nat, t: Template)
    requires Here(s, i, Render(t)) && i + |Render(t)| == |s| && IsTemplate(t)
    ensures TemplateAt(s, i, t)
    decreases t
  {
    hide Here, PartsAt, RenderParts, AreParts, IsOuter;
    if t.Quote? {
      var q, c := i + |t.text|, i + |t.text| + 1 + |RenderParts(t.parts)|;
      QuotesAreAt(s, i, t.text, RenderParts(t.parts), Render(t.rest));
      PartsAreAt(s, q + 1, t.parts, c);
      TemplateIsAt(s, c + 1, t.rest);
    }
  }

  lemma QuotesAreAt(s: string, i: nat, text: string, inner: string, rest: string)
    requires Here(s, i, text + "\"" + inner + "\"" + rest)
    ensures var q, c := i + |text|, i + |text| + 1 + |inner|;
      Here(s, i, text) && IsChar(s, q, '"') && Here(s, q + 1, inner) && IsChar(s, c, '"') && Here(s, c + 1, rest)
  {
    HereParts(s, i, text + "\"" + inner + "\"", rest);
    HereParts(s, i, text + "\"" + inner, "\"");
    HereParts(s, i, text + "\"", inner);
    HereParts(s, i, text, "\"");
  }

  lemma BracedText(s: string, i: nat, name: string)
    requires IsChar(s, i, '$') && IsChar(s, i + 1, '{') && Here(s, i + 2, name) && IsChar(s, i + 2 + |name|, '}')
    ensures s[i..i + |name| + 3] == "${" + name + "}"
  {
    var e := i + |name| + 3;
    assert s[i..e] == s[i..i + 2] + s[i + 2..e - 1] + s[e - 1..e];
    assert s[i..i + 2] == "${" && s[e - 1..e] == "}";
  }

  lemma BareText(s: string, i: nat, name: string)
    requires IsChar(s, i, '$') && Here(s, i + 1, name)
    ensures s[i..i + |name| + 1] == "$" + name
  {
    var e := i + |name| + 1;
    assert s[i..e] == s[i..i + 1] + s[i + 1..e];
    assert s[i..i + 1] == "$";
  }

  lemma PartText(s: string, i: nat, p: Part)
    requires PartAt(s, i, p)
    ensures i + Width(p) <= |s| && s[i..i + Width(p)] == RenderPart(p)
  {
    if p.Ref? {
      if p.braced { BracedText(s, i, p.name); } else { BareText(s, i, p.name); }
    }
  }

  lemma {:induction false} PartsText(s: string, i: nat, parts: seq<Part>, c: nat)
    requires PartsAt(s, i, parts, c)
    ensures i <= c && IsChar(s, c, '"') && s[i..c] == RenderParts(parts)
    decreases |parts|
  {
    hide Here, PartAt, RenderPart, Width;
    if parts != [] {
      var e := i + Width(parts[0]);
      PartText(s, i, parts[0]);
      PartsText(s, e, parts[1..], c);
      assert s[i..c] == s[i..e] + s[e..c];
    }
  }

  /** A reference that no word character follows is the word of its token; otherwise that word is longer. */
  lemma RefIsWord(s: string, i: nat, p: Part)
    requires p.Ref? && IsName(p.name) && PartAt(s, i, p)
    ensures var e := i + Width(p);
      if IsBare(p) && e < |s| && IsWord(s[e])
      then WordToken(s, i).Some? && p.name < WordToken(s, i).value.0
      else WordToken(s, i) == Some((p.name, e))
  {
    if p.braced {
      NameIsWord(s, i + 2, p.name);
    } else {
      NameIsWord(s, i + 1, p.name);
      assert s[i + 1..i + 1 + |p.name|][0] == s[i + 1] && IsWord(p.name[0]);
      if i + Width(p) < |s| && IsWord(s[i + Width(p)]) { LongerWord(s, i + 1, p.name); }
    }
  }

  lemma LongerWord(s: string, i: nat, name: string)
    requires IsName(name) && Here(s, i, name) && i + |name| < |s| && IsWord(s[i + |name|])
    ensures name < s[i..WordEnd(s, i)]
  {
    var w, e := WordEnd(s, i), i + |name|;
    WordEndStops(s, i);
    forall k | i <= k < e ensures IsWord(s[k]) { assert s[i..e][k - i] == name[k - i]; }
    assert e < w;
    assert s[i..w][..|name|] == s[i..e];
  }

  /** The first reference is a token of its own variable unless it is stuck, and of no other. */
  lemma RefToken(s: string, i: nat, parts: seq<Part>, c: nat, name: string)
    requires PartsAt(s, i, parts, c) && AreParts(parts) && parts != [] && parts[0].Ref?
    requires IsName(name) && Unextended(parts, name)
    ensures TokenAt(s, i, name) == if parts[0].name == name && !Stuck(parts, 0) then Some(i + Width(parts[0])) else None
  {
    assert PartAt(s, i, parts[0]) && IsPart(parts[0]);
    if IsBare(parts[0]) { StuckInText(s, i, parts, c); }
    hide PartsAt, PartAt, AreParts, TokenAt, WordToken, Width;
    RefIsWord(s, i, parts[0]);
    TokenIsWord(s, i, name);
  }

  /* The second pass. */

  lemma CopyOneCharacter(s: string, i: nat, name: string, value: string)
    requires i < |s| && TokenAt(s, i, name) == None
    ensures ReplacedFrom(s, i, name, value) == [s[i]] + ReplacedFrom(s, i + 1, name, value)
  {}

  ghost predicate NoTokenIn(s: string, i: nat, j: nat, name: string) {
    forall k | i <= k < j :: TokenAt(s, k, name) == None
  }

  lemma {:induction false} CopyReplaced(s: string, i: nat, j: nat, name: string, value: string)
    requires i <= j <= |s| && NoTokenIn(s, i, j, name)
    ensures ReplacedFrom(s, i, name, value) == s[i..j] + ReplacedFrom(s, j, name, value)
    decreases j - i
  {
    hide ReplacedFrom, TokenAt;
    if i < j {
      CopyOneCharacter(s, i, name, value);
      CopyReplaced(s, i + 1, j, name, value);
      assert s[i..j] == [s[i]] + s[i + 1..j];
    }
  }

  lemma ReplaceOne(s: string, i: nat, e: nat, name: string, value: string)
    requires i < |s| && TokenAt(s, i, name) == Some(e)
    ensures ReplacedFrom(s, i, name, value) == value + ReplacedFrom(s, e, name, value)
  {}

  /** Only the first character of a part can be a `$`. */
  lemma PartCharacters(s: string, i: nat, p: Part)
    requires IsPart(p) && PartAt(s, i, p)
    ensures i < i + Width(p) <= |s|
    ensures forall k | i <= k < i + Width(p) :: s[k] != '"' && (p.Lit? || k > i ==> s[k] != '$')
  {
    PartText(s, i, p);
    var text := RenderPart(p);
    if p.Ref? { assert forall j | 0 <= j < |p.name| :: IsWord(p.name[j]); }
    forall k | i <= k < i + Width(p) ensures s[k] != '"' && (p.Lit? || k > i ==> s[k] != '$') {
      assert s[i..i + Width(p)][k - i] == text[k - i];
    }
  }

  lemma NoTokenInPart(s: string, i: nat, p: Part, name: string)
    requires IsPart(p) && PartAt(s, i, p) && (p.Ref? ==> TokenAt(s, i, name) == None)
    ensures i + Width(p) <= |s| && NoTokenIn(s, i, i + Width(p), name)
  {
    PartCharacters(s, i, p);
  }

  lemma PartCopied(s: string, i: nat, p: Part, name: string, value: string)
    requires IsPart(p) && PartAt(s, i, p) && (p.Ref? ==> TokenAt(s, i, name) == None)
    ensures ReplacedFrom(s, i, name, value) == RenderPart(p) + ReplacedFrom(s, i + Width(p), name, value)
  {
    hide ReplacedFrom, TokenAt, NoTokenIn, IsPart, RenderPart, Width;
    NoTokenInPart(s, i, p, name);
    CopyReplaced(s, i, i + Width(p), name, value);
    PartText(s, i, p);
  }

  lemma FirstPartReplaced(s: string, i: nat, parts: seq<Part>, c: nat, name: string, value: string)
    requires PartsAt(s, i, parts, c) && AreParts(parts) && parts != [] && IsName(name) && Unextended(parts, name)
    ensures ReplacedFrom(s, i, name, value) ==
      RenderPart(ReplacedAt(parts, 0, name, value)) + ReplacedFrom(s, i + Width(parts[0]), name, value)
  {
    var p := parts[0];
    assert PartAt(s, i, p) && IsPart(p);
    if p.Ref? { RefToken(s, i, parts, c, name); }
    hide ReplacedFrom, TokenAt, PartsAt, AreParts, Unextended, Stuck;
    if p.Ref? && TokenAt(s, i, name).Some? {
      ReplaceOne(s, i, i + Width(p), name, value);
    } else {
      PartCopied(s, i, p, name, value);
    }
  }

  lemma Regroup(a: string, b: string, c: string)
    ensures a + (b + c) == (a + b) + c
  {}

  lemma UnextendedRest(parts: seq<Part>, name: string)
    requires parts != [] && Unextended(parts, name)
    ensures Unextended(parts[1..], name)
  {
    forall k: nat | Stuck(parts[1..], k) ensures !(parts[1..][k].name < name) { assert Stuck(parts, k + 1); }
  }

  lemma {:induction false} PartsReplaced(s: string, i: nat, parts: seq<Part>, c: nat, name: string, value: string)
    requires PartsAt(s, i, parts, c) && AreParts(parts) && IsName(name) && Unextended(parts, name)
    ensures c < |s| && ReplacedFrom(s, i, name, value) ==
      RenderParts(ReplacedParts(parts, name, value)) + ReplacedFrom(s, c, name, value)
    decreases |parts|
  {
    hide ReplacedFrom, PartAt, TokenAt, RenderPart, ReplacedAt, IsPart, Width, Unextended;
    if parts != [] {
      FirstPartReplaced(s, i, parts, c, name, value);
      UnextendedRest(parts, name);
      PartsReplaced(s, i + Width(parts[0]), parts[1..], c, name, value);
      ReplacedPartsCons(parts, name, value);
      Regroup(RenderPart(ReplacedAt(parts, 0, name, value)), RenderParts(ReplacedParts(parts[1..], name, value)),
        ReplacedFrom(s, c, name, value));
    }
  }

  lemma ReplacedPartsCons(parts: seq<Part>, name: string, value: string)
    requires parts != []
    ensures RenderParts(ReplacedParts(parts, name, value))
      == RenderPart(ReplacedAt(parts, 0, name, value)) + RenderParts(ReplacedParts(parts[1..], name, value))
  {
    assert ReplacedParts(parts, name, value)[1..] == ReplacedParts(parts[1..], name, value);
  }

  /** In the text outside the quotes every `$` starts a built-in. */
  lemma OuterCharacters(s: string, i: nat, text: string, k: nat)
    requires Here(s, i, text) && IsOuter(text) && i <= k < i + |text|
    ensures s[k] != '"' && (s[k] == '$' ==> k + 2 < |s| && s[k + 1] == '_' && s[k + 2] == '_')
  {
    var m := k - i;
    var there := s[i..i + |text|];
    assert there[m] == text[m] && there[m] == s[k];
    if s[k] == '$' {
      assert IsBuiltin(text, m);
      assert there[m + 1] == s[k + 1] && there[m + 2] == s[k + 2];
    }
  }

  lemma OuterReplaced(s: string, i: nat, text: string, name: string, value: string)
    requires Here(s, i, text) && IsOuter(text) && IsVariableName(name)
    ensures ReplacedFrom(s, i, name, value) == text + ReplacedFrom(s, i + |text|, name, value)
  {
    forall k | i <= k < i + |text| ensures TokenAt(s, k, name) == None {
      OuterCharacters(s, i, text, k);
      if s[k] == '$' { BuiltinNoToken(s, k, name); }
    }
    CopyReplaced(s, i, i + |text|, name, value);
  }

  lemma QuoteReplaced(s: string, i: nat, name: string, value: string)
    requires IsChar(s, i, '"')
    ensures ReplacedFrom(s, i, name, value) == "\"" + ReplacedFrom(s, i + 1, name, value)
  {
    assert [s[i]] == "\"";
  }

  lemma QuotesReplaced(s: string, q: nat, parts: seq<Part>, c: nat, name: string, value: string)
    requires IsChar(s, q, '"') && PartsAt(s, q + 1, parts, c) && AreParts(parts) && IsName(name) &&
      Unextended(parts, name)
    ensures c < |s| && ReplacedFrom(s, q, name, value)
      == "\"" + (RenderParts(ReplacedParts(parts, name, value)) + ("\"" + ReplacedFrom(s, c + 1, name, value)))
  {
    PartsText(s, q + 1, parts, c);
    QuoteReplaced(s, q, name, value);
    PartsReplaced(s, q + 1, parts, c, name, value);
    QuoteReplaced(s, c, name, value);
  }

  lemma RegroupAll(a: string, b: string, c: string, d: string, e: string)
    ensures a + (b + (c + (d + e))) == a + b + c + d + e
  {
    Regroup(a, b, c + (d + e));
    Regroup(a + b, c, d + e);
    Regroup(a + b + c, d, e);
  }

  lemma SegmentReplaced(s: string, i: nat, text: string, parts: seq<Part>, q: nat, c: nat, name: string, value: string)
    requires SegmentAt(s, i, text, parts, q, c) && IsOuter(text) && AreParts(parts) && IsVariableName(name) &&
      Unextended(parts, name)
    ensures c < |s| && ReplacedFrom(s, i, name, value)
      == text + "\"" + RenderParts(ReplacedParts(parts, name, value)) + "\"" + ReplacedFrom(s, c + 1, name, value)
  {
    hide ReplacedFrom, PartsAt, Here, TokenAt, RenderParts, ReplacedParts;
    OuterReplaced(s, i, text, name, value);
    QuotesReplaced(s, q, parts, c, name, value);
    RegroupAll(text, "\"", RenderParts(ReplacedParts(parts, name, value)), "\"", ReplacedFrom(s, c + 1, name, value));
  }

  /** The references replaced, no text changed. */
  function Replaced(t: Template, name: string, value: string): Template {
    match t
    case End(_) => t
    case Quote(text, parts, rest) => Quote(text, ReplacedParts(parts, name, value), Replaced(rest, name, value))
  }

  lemma NothingLeft(s: string, name: string, value: string)
    ensures ReplacedFrom(s, |s|, name, value) == ""
  {}

  lemma {:induction false} TemplateReplaced(s: string, i: nat, t: Template, name: string, value: string)
    requires IsTemplate(t) && TemplateAt(s, i, t) && i <= |s| && IsVariableName(name) && UnextendedIn(t, name)
    ensures ReplacedFrom(s, i, name, value) == Render(Replaced(t, name, value))
    decreases t
  {
    hide ReplacedFrom, PartsAt, Here, ReplacedParts, RenderParts, IsOuter, AreParts, Unextended;
    match t
    case End(text) =>
      OuterReplaced(s, i, text, name, value);
      NothingLeft(s, name, value);
    case Quote(text, parts, rest) =>
      SegmentReplaced(s, i, text, parts, QuoteAt(i, t), CloseAt(i, t), name, value);
      TemplateReplaced(s, CloseAt(i, t) + 1, rest, name, value);
  }

  /* The first pass. */

  ghost predicate NoMatcherIn(s: string, i: nat, j: nat, name: string)
    requires i <= j <= |s|
  {
    forall k | i <= k < j :: MatcherAt(s, k, name) == None
  }

  lemma CopyOne(s: string, i: nat, name: string, value: string)
    requires i < |s| && MatcherAt(s, i, name) == None
    ensures UpgradedFrom(s, i, name, value) == [s[i]] + UpgradedFrom(s, i + 1, name, value)
  {}

  lemma SliceThen(s: string, i: nat, p: nat, w: nat, tail: string)
    requires i <= p <= w <= |s|
    ensures s[i..p] + (s[p..w] + tail) == s[i..w] + tail
  {
    assert s[i..w] == s[i..p] + s[p..w];
  }

  lemma {:induction false} CopyUpgraded(s: string, i: nat, j: nat, name: string, value: string)
    requires i <= j <= |s| && NoMatcherIn(s, i, j, name)
    ensures UpgradedFrom(s, i, name, value) == s[i..j] + UpgradedFrom(s, j, name, value)
    decreases j - i
  {
    if i < j {
      assert MatcherAt(s, i, name) == None && NoMatcherIn(s, i + 1, j, name);
      CopyOne(s, i, name, value);
      CopyUpgraded(s, i + 1, j, name, value);
      assert s[i..i + 1] == [s[i]];
      SliceThen(s, i, i + 1, j, UpgradedFrom(s, j, name, value));
    }
  }

  /** From `k`, a word and an operator lead up to the quote at `q`. */
  predicate LeadsTo(s: string, k: nat, q: nat)
    requires k <= q <= |s|
  {
    var w := WordEnd(s, k);
    k < w < q && s[w] == '=' && (w + 1 == q || (w + 2 == q && s[w + 1] == '~'))
  }

  /** A matcher is a way to lead up to the next quote, with the whole token inside. */
  lemma MatcherLeads(s: string, k: nat, q: nat, name: string)
    requires k <= q && IsChar(s, q, '"') && forall j | k <= j < q :: s[j] != '"'
    ensures MatcherAt(s, k, name) == match TokenAt(s, q + 1, name)
      { case None => None
        case Some(e) =>
          if LeadsTo(s, k, q) && IsChar(s, e, '"') then Some(MatcherToken(WordEnd(s, k), q, e + 1)) else None }
  {
    WordEndStops(s, k);
    var w := WordEnd(s, k);
    assert w <= q;
  }

  lemma {:induction false} PartsHaveNoQuote(s: string, i: nat, parts: seq<Part>, c: nat)
    requires PartsAt(s, i, parts, c) && AreParts(parts)
    ensures i <= c < |s| && forall j | i <= j < c :: s[j] != '"'
    decreases |parts|
  {
    if parts != [] {
      PartCharacters(s, i, parts[0]);
      PartsHaveNoQuote(s, i + Width(parts[0]), parts[1..], c);
    }
  }

  /** The quoted value is one reference to `name`. */
  predicate IsWholeOf(parts: seq<Part>, name: string) { |parts| == 1 && parts[0].Ref? && parts[0].name == name }

  /** Within the quotes, the token reaches the closing quote just when it is the whole value. */
  lemma WholeToken(s: string, i: nat, parts: seq<Part>, c: nat, name: string)
    requires PartsAt(s, i, parts, c) && AreParts(parts) && IsName(name) && Unextended(parts, name)
    ensures IsWholeOf(parts, name) ==> TokenAt(s, i, name) == Some(c)
    ensures !IsWholeOf(parts, name) ==>
      match TokenAt(s, i, name) { case None => true case Some(e) => !IsChar(s, e, '"') }
  {
    if parts != [] {
      PartCharacters(s, i, parts[0]);
      if parts[0].Ref? {
        RefToken(s, i, parts, c, name);
        if |parts| > 1 { PartCharacters(s, i + Width(parts[0]), parts[1]); }
      }
    }
  }

  /** The text ends in a word and `=` or `=~`. */
  predicate EndsInMatch(text: string) {
    EndsInEqual(text) || (|text| >= 3 && text[|text| - 1] == '~' && text[|text| - 2] == '=' && IsWord(text[|text| - 3]))
  }

  /** Where the word that ends at `w` starts, not before `i`. */
  function WordStart(s: string, i: nat, w: nat): (p: nat)
    requires i <= w <= |s|
    ensures i <= p <= w && (forall k | p <= k < w :: IsWord(s[k])) && (p == i || !IsWord(s[p - 1]))
    decreases w
  {
    if i < w && IsWord(s[w - 1]) then WordStart(s, i, w - 1) else w
  }

  /** What the text before the quote at `q` says about the positions that lead up to it. */
  lemma Leads(s: string, i: nat, text: string, q: nat, k: nat)
    requires Here(s, i, text) && q == i + |text| && i <= k < q && IsChar(s, q, '"')
    ensures LeadsTo(s, k, q) ==> EndsInMatch(text)
  {
    WordEndStops(s, k);
    var there, n := s[i..q], |text|;
    assert there[n - 1] == s[q - 1];
    if n >= 2 { assert there[n - 2] == s[q - 2]; }
    if n >= 3 { assert there[n - 3] == s[q - 3]; }
  }

  /** The operator of a text that ends in one: where it starts. */
  function OperatorAt(text: string): (w: nat)
    requires EndsInMatch(text)
    ensures 0 < w < |text| && text[w] == '=' && IsWord(text[w - 1])
  {
    if text[|text| - 1] == '=' then |text| - 1 else |text| - 2
  }

  /** The one position from which a matcher is found: the start of the word. */
  lemma MatchStart(s: string, i: nat, w: nat, q: nat, c: nat, name: string) returns (p: nat)
    requires i < w < q < c && IsChar(s, q, '"') && IsChar(s, c, '"') && forall k | i <= k < q :: s[k] != '"'
    requires IsWord(s[w - 1]) && s[w] == '=' && (w + 1 == q || (w + 2 == q && s[w + 1] == '~'))
    requires TokenAt(s, q + 1, name) == Some(c)
    ensures i <= p < w && MatcherAt(s, p, name) == Some(MatcherToken(w, q, c + 1))
    ensures NoMatcherIn(s, i, p, name)
  {
    p := WordStart(s, i, w);
    WordEndAt(s, p, w);
    MatcherLeads(s, p, q, name);
    forall k | i <= k < p ensures MatcherAt(s, k, name) == None {
      WordEndStops(s, k);
      assert !LeadsTo(s, k, q);
      MatcherLeads(s, k, q, name);
    }
  }

  lemma UpgradeOne(s: string, i: nat, m: MatcherToken, name: string, value: string)
    requires i < |s| && MatcherAt(s, i, name) == Some(m)
    ensures UpgradedFrom(s, i, name, value) ==
      s[i..m.word] + (Matching(s[m.word..m.quote], value) + UpgradedFrom(s, m.end, name, value))
  {}

  lemma CopyThenUpgrade(s: string, i: nat, p: nat, m: MatcherToken, name: string, value: string)
    requires i <= p < |s| && MatcherAt(s, p, name) == Some(m) && NoMatcherIn(s, i, p, name)
    ensures m.word <= m.quote <= |s| && i <= m.word && m.end <= |s|
    ensures UpgradedFrom(s, i, name, value) ==
      s[i..m.word] + (Matching(s[m.word..m.quote], value) + UpgradedFrom(s, m.end, name, value))
  {
    CopyUpgraded(s, i, p, name, value);
    UpgradeOne(s, p, m, name, value);
    SliceThen(s, i, p, m.word, Matching(s[m.word..m.quote], value) + UpgradedFrom(s, m.end, name, value));
  }

  lemma TextAt(s: string, i: nat, text: string)
    requires Here(s, i, text) && IsOuter(text)
    ensures forall k | i <= k < i + |text| :: s[k] != '"'
  {
    forall k | i <= k < i + |text| ensures s[k] != '"' { OuterCharacters(s, i, text, k); }
  }

  lemma OperatorIs(s: string, i: nat, text: string, q: nat) returns (w: nat)
    requires Here(s, i, text) && IsOuter(text) && EndsInMatch(text) && q == i + |text|
    ensures i < w < q && IsWord(s[w - 1]) && s[w] == '=' && (w + 1 == q || (w + 2 == q && s[w + 1] == '~'))
    ensures s[i..w] == text[..OperatorAt(text)] && s[w..q] == text[OperatorAt(text)..]
  {
    var n := OperatorAt(text);
    w := i + n;
    TextAt(s, i, text);
    assert s[w - 1] == s[i..q][n - 1] && s[w] == s[i..q][n];
    if w + 1 < q { assert s[w + 1] == s[i..q][n + 1]; }
    assert s[i..w] == s[i..q][..n] && s[w..q] == s[i..q][n..];
  }

  /** The one matcher that starts in the text before a whole value. */
  lemma WholeStart(s: string, i: nat, text: string, q: nat, c: nat, name: string) returns (p: nat, w: nat)
    requires Here(s, i, text) && IsOuter(text) && EndsInMatch(text) && q == i + |text| && q < c && IsChar(s, q, '"') &&
      IsChar(s, c, '"')
    requires TokenAt(s, q + 1, name) == Some(c)
    ensures i <= p < w < q && MatcherAt(s, p, name) == Some(MatcherToken(w, q, c + 1))
    ensures s[i..w] == text[..OperatorAt(text)] && s[w..q] == text[OperatorAt(text)..]
    ensures NoMatcherIn(s, i, p, name)
  {
    TextAt(s, i, text);
    w := OperatorIs(s, i, text, q);
    p := MatchStart(s, i, w, q, c, name);
  }

  /** The text up to a whole value, and the value, upgraded. */
  lemma WholeUpgraded(s: string, i: nat, text: string, q: nat, c: nat, name: string, value: string)
    requires Here(s, i, text) && IsOuter(text) && EndsInMatch(text) && q == i + |text| && q < c && IsChar(s, q, '"') &&
      IsChar(s, c, '"')
    requires TokenAt(s, q + 1, name) == Some(c)
    ensures UpgradedFrom(s, i, name, value)
      == text[..OperatorAt(text)] + (Matching(text[OperatorAt(text)..], value) + UpgradedFrom(s, c + 1, name, value))
  {
    hide UpgradedFrom, MatcherAt, TokenAt, Here, IsOuter, Matching;
    var p, w := WholeStart(s, i, text, q, c, name);
    CopyThenUpgrade(s, i, p, MatcherToken(w, q, c + 1), name, value);
  }

  /** The text and the value as the first pass leaves them. */
  function UpgradedHead(text: string, parts: seq<Part>, name: string, value: string): (string, seq<Part>) {
    if IsWholeOf(parts, name) && EndsInMatch(text)
    then (SimText(text, parts, map[name := value]), [Lit(value)])
    else (text, parts)
  }

  function Upgraded(t: Template, name: string, value: string): Template {
    match t
    case End(_) => t
    case Quote(text, parts, rest) =>
      var (text', parts') := UpgradedHead(text, parts, name, value);
      Quote(text', parts', Upgraded(rest, name, value))
  }

  /** The text before the value, with its operator, written out. */
  lemma OperatorUpgraded(text: string, parts: seq<Part>, name: string, value: string)
    requires EndsInMatch(text) && IsWholeOf(parts, name)
    ensures text[..OperatorAt(text)] + Matching(text[OperatorAt(text)..], value)
      == SimText(text, parts, map[name := value]) + "\"" + value + "\""
  {
    var w := OperatorAt(text);
    var op := text[w..];
    assert text == text[..w] + op;
    assert op == if EndsInEqual(text) then "=" else "=~";
  }

  /** The text after a quoted value holds no token at its start. */
  lemma NoTokenAfter(s: string, i: nat, t: Template, name: string)
    requires IsTemplate(t) && TemplateAt(s, i, t) && IsVariableName(name)
    ensures TokenAt(s, i, name) == None
  {
    assert Here(s, i, t.text) && IsOuter(t.text);
    if t.text != "" {
      OuterCharacters(s, i, t.text, i);
      if s[i] == '$' { BuiltinNoToken(s, i, name); }
    }
  }

  /** Neither from the text nor from within the value does a matcher lead to the token. */
  lemma NoMatcherAt(s: string, i: nat, text: string, q: nat, c: nat, k: nat, name: string)
    requires Here(s, i, text) && q == i + |text| && IsChar(s, q, '"') && i <= k <= c
    requires
      match TokenAt(s, q + 1, name) { case None => true case Some(e) => EndsInMatch(text) ==> !IsChar(s, e, '"') }
    requires IsChar(s, c, '"') && TokenAt(s, c + 1, name) == None
    requires (forall j | i <= j < q :: s[j] != '"') && (forall j | q < j < c :: s[j] != '"')
    ensures MatcherAt(s, k, name) == None
  {
    if k < q {
      Leads(s, i, text, q, k);
      MatcherLeads(s, k, q, name);
    } else if k > q {
      MatcherLeads(s, k, c, name);
    }
  }

  lemma NoMatchers(s: string, i: nat, text: string, parts: seq<Part>, q: nat, c: nat, name: string)
    requires SegmentAt(s, i, text, parts, q, c) && IsOuter(text) && AreParts(parts) && IsName(name) &&
      Unextended(parts, name)
    requires !(IsWholeOf(parts, name) && EndsInMatch(text)) && TokenAt(s, c + 1, name) == None
    ensures c < |s| && i <= c && NoMatcherIn(s, i, c + 1, name)
  {
    TextAt(s, i, text);
    PartsHaveNoQuote(s, q + 1, parts, c);
    PartsText(s, q + 1, parts, c);
    WholeToken(s, q + 1, parts, c, name);
    forall k | i <= k < c + 1 ensures MatcherAt(s, k, name) == None {
      NoMatcherAt(s, i, text, q, c, k, name);
    }
  }

  lemma FourPieces(s: string, i: nat, q: nat, c: nat)
    requires i <= q < c < |s| && s[q] == '"' && s[c] == '"'
    ensures s[i..c + 1] == s[i..q] + "\"" + s[q + 1..c] + "\""
  {}

  lemma SegmentText(s: string, i: nat, text: string, parts: seq<Part>, q: nat, c: nat)
    requires SegmentAt(s, i, text, parts, q, c)
    ensures i <= c < |s| && s[i..c + 1] == text + "\"" + RenderParts(parts) + "\""
  {
    hide PartsAt, RenderParts;
    PartsText(s, q + 1, parts, c);
    FourPieces(s, i, q, c);
  }

  lemma WholeSegment(s: string, i: nat, text: string, parts: seq<Part>, q: nat, c: nat, name: string, value: string)
    requires SegmentAt(s, i, text, parts, q, c) && IsOuter(text) && AreParts(parts) && IsName(name) &&
      Unextended(parts, name)
    requires IsWholeOf(parts, name) && EndsInMatch(text)
    ensures c < |s| && UpgradedFrom(s, i, name, value)
      == SimText(text, parts, map[name := value]) + "\"" + value + "\"" + UpgradedFrom(s, c + 1, name, value)
  {
    PartsText(s, q + 1, parts, c);
    WholeToken(s, q + 1, parts, c, name);
    WholeUpgraded(s, i, text, q, c, name, value);
    OperatorUpgraded(text, parts, name, value);
    Regroup(text[..OperatorAt(text)], Matching(text[OperatorAt(text)..], value), UpgradedFrom(s, c + 1, name, value));
  }

  lemma SegmentUpgraded(s: string, i: nat, text: string, parts: seq<Part>, q: nat, c: nat, name: string, value: string)
    requires SegmentAt(s, i, text, parts, q, c) && IsOuter(text) && AreParts(parts) && IsName(name) &&
      Unextended(parts, name)
    requires TokenAt(s, c + 1, name) == None
    ensures c < |s|
    ensures var head := UpgradedHead(text, parts, name, value);
      UpgradedFrom(s, i, name, value) ==
        head.0 + "\"" + RenderParts(head.1) + "\"" + UpgradedFrom(s, c + 1, name, value)
  {
    hide UpgradedFrom, MatcherAt, PartsAt, Here, TokenAt, AreParts, IsOuter, SimText, SegmentAt, Unextended;
    if IsWholeOf(parts, name) && EndsInMatch(text) {
      WholeSegment(s, i, text, parts, q, c, name, value);
      assert RenderParts([Lit(value)]) == value;
    } else {
      NoMatchers(s, i, text, parts, q, c, name);
      SegmentText(s, i, text, parts, q, c);
      CopyUpgraded(s, i, c + 1, name, value);
    }
  }

  lemma TailUpgraded(s: string, i: nat, text: string, name: string, value: string)
    requires Here(s, i, text) && i + |text| == |s| && IsOuter(text)
    ensures UpgradedFrom(s, i, name, value) == text
  {
    TextAt(s, i, text);
    forall k | i <= k < |s| ensures MatcherAt(s, k, name) == None {}
    CopyUpgraded(s, i, |s|, name, value);
  }

  lemma {:induction false} TemplateUpgraded(s: string, i: nat, t: Template, name: string, value: string)
    requires IsTemplate(t) && TemplateAt(s, i, t) && i <= |s| && IsVariableName(name) && UnextendedIn(t, name)
    ensures UpgradedFrom(s, i, name, value) == Render(Upgraded(t, name, value))
    decreases t
  {
    hide UpgradedFrom, TokenAt, PartsAt, Here, UpgradedHead, RenderParts, IsOuter, AreParts, SegmentAt, QuoteAt,
      CloseAt, Unextended;
    match t
    case End(text) =>
      TailUpgraded(s, i, text, name, value);
    case Quote(text, parts, rest) =>
      NoTokenAfter(s, CloseAt(i, t) + 1, rest, name);
      SegmentUpgraded(s, i, text, parts, QuoteAt(i, t), CloseAt(i, t), name, value);
      TemplateUpgraded(s, CloseAt(i, t) + 1, rest, name, value);
  }

  /* Both passes, and all variables. */

  lemma UpgradedText(text: string, parts: seq<Part>, env: Env)
    requires IsOuter(text)
    ensures IsOuter(SimText(text, parts, env))
  {
    var after := SimText(text, parts, env);
    forall k | 0 <= k < |after|
      ensures after[k] != '"' && (after[k] == '$' ==> IsBuiltin(after, k)) {
      if k < |text| { assert after[k] == text[k]; }
    }
  }

  lemma {:induction false} UpgradedIsTemplate(t: Template, name: string, value: string)
    requires IsTemplate(t) && IsInner(value) && UnextendedIn(t, name)
    ensures IsTemplate(Upgraded(t, name, value)) && UnextendedIn(Upgraded(t, name, value), name)
    decreases t
  {
    if t.Quote? {
      UpgradedText(t.text, t.parts, map[name := value]);
      UpgradedIsTemplate(t.rest, name, value);
    }
  }

  lemma {:induction false} PassesCompose(t: Template, v: Variable)
    ensures Replaced(Upgraded(t, v.name, ValueOf(v)), v.name, ValueOf(v)) == Step(t, v)
    decreases t
  {
    if t.Quote? {
      if IsWholeOf(t.parts, v.name) { assert !Stuck(t.parts, 0); }
      PassesCompose(t.rest, v);
    }
  }

  lemma {:induction false} ReplacedIsParts(parts: seq<Part>, name: string, value: string)
    requires AreParts(parts) && IsInner(value)
    ensures AreParts(ReplacedParts(parts, name, value))
    decreases |parts|
  {
    if parts != [] {
      ReplacedIsParts(parts[1..], name, value);
      assert ReplacedParts(parts, name, value)[1..] == ReplacedParts(parts[1..], name, value);
    }
  }

  lemma {:induction false} StepIsTemplate(t: Template, v: Variable)
    requires IsTemplate(t) && IsInner(ValueOf(v))
    ensures IsTemplate(Step(t, v))
    decreases t
  {
    if t.Quote? {
      UpgradedText(t.text, t.parts, map[v.name := ValueOf(v)]);
      ReplacedIsParts(t.parts, v.name, ValueOf(v));
      StepIsTemplate(t.rest, v);
    }
  }

  /** One variable's two passes replace all its references at once but the stuck ones. */
  lemma ResolvedIsStep(t: Template, v: Variable)
    requires IsTemplate(t) && IsVariable(v) && UnextendedIn(t, v.name)
    ensures Resolved(Render(t), v) == Render(Step(t, v))
  {
    hide Render, UpgradedFrom, ReplacedFrom, IsTemplate, UnextendedIn, Upgraded, Replaced, Step, TemplateAt;
    var value := ValueOf(v);
    var between := Upgraded(t, v.name, value);
    WholeTextAt(t);
    TemplateUpgraded(Render(t), 0, t, v.name, value);
    UpgradedIsTemplate(t, v.name, value);
    WholeTextAt(between);
    TemplateReplaced(Render(between), 0, between, v.name, value);
    PassesCompose(t, v);
  }

  lemma WholeTextAt(t: Template)
    requires IsTemplate(t)
    ensures TemplateAt(Render(t), 0, t)
  {
    hide Render, TemplateAt;
    assert Render(t)[0..|Render(t)|] == Render(t);
    TemplateIsAt(Render(t), 0, t);
  }

  /* No accidents: what follows a reference does not make it another variable's. */

  /** In some order of the variables, a word character may come to follow the bare reference at `k`. */
  predicate CanStick(parts: seq<Part>, k: nat, env: Env) {
    && k + 1 < |parts| && IsBare(parts[k])
    && var next := parts[k + 1];
      if next.Lit? then StartsWithWord(next.text)
      else !Stuck(parts, k + 1) && next.name in env && next.name != parts[k].name && StartsWithWord(env[next.name])
  }

  /** No such reference is the beginning of a variable's name. */
  ghost predicate CalmParts(parts: seq<Part>, env: Env) {
    forall k: nat, n | CanStick(parts, k, env) && n in env :: !(parts[k].name < n)
  }

  ghost predicate Calm(t: Template, env: Env) {
    t.Quote? ==> CalmParts(t.parts, env) && Calm(t.rest, env)
  }

  lemma {:induction false} ReplacedPartsAt(parts: seq<Part>, k: nat, name: string, value: string)
    requires k < |parts|
    ensures ReplacedParts(parts, name, value)[k] == ReplacedAt(parts, k, name, value)
    decreases |parts|
  {
    if k > 0 {
      ReplacedPartsAt(parts[1..], k - 1, name, value);
      assert Stuck(parts[1..], k - 1) <==> Stuck(parts, k);
    }
  }

  /** What can still stick after a step could stick before it. */
  lemma CouldStick(parts: seq<Part>, k: nat, name: string, value: string, env: Env)
    requires CanStick(ReplacedParts(parts, name, value), k, env)
    ensures CanStick(parts, k, env[name := value]) && ReplacedParts(parts, name, value)[k] == parts[k]
  {
    ReplacedPartsAt(parts, k, name, value);
    ReplacedPartsAt(parts, k + 1, name, value);
    if k + 2 < |parts| { ReplacedPartsAt(parts, k + 2, name, value); }
  }

  lemma {:induction false} CalmStep(t: Template, v: Variable, env: Env)
    requires Calm(t, env[v.name := ValueOf(v)])
    ensures UnextendedIn(t, v.name) && Calm(Step(t, v), env)
    decreases t
  {
    if t.Quote? {
      var value := ValueOf(v);
      var after, env' := ReplacedParts(t.parts, v.name, value), env[v.name := value];
      forall k: nat | Stuck(t.parts, k) ensures !(t.parts[k].name < v.name) {
        assert CanStick(t.parts, k, env') && v.name in env';
      }
      forall k: nat, n | CanStick(after, k, env) && n in env ensures !(after[k].name < n) {
        CouldStick(t.parts, k, v.name, value, env);
        assert n in env';
      }
      CalmStep(t.rest, v, env);
    }
  }

  /** The loop is one step after another. */
  lemma {:induction false} LoopIsRun(t: Template, vs: seq<Variable>)
    requires IsTemplate(t) && (forall v | v in vs :: IsVariable(v)) && Calm(t, EnvOf(vs))
    ensures ResolvedAll(Render(t), vs) == Render(Run(t, vs)) && IsTemplate(Run(t, vs))
    decreases |vs|
  {
    hide Resolved, Render, IsTemplate, Step, Calm, UnextendedIn;
    if vs != [] {
      assert IsVariable(vs[0]);
      CalmStep(t, vs[0], EnvOf(vs[1..]));
      ResolvedIsStep(t, vs[0]);
      StepIsTemplate(t, vs[0]);
      LoopIsRun(Step(t, vs[0]), vs[1..]);
    }
  }

  /* When the steps are one simultaneous substitution. */

  /** Of these two variables, `next` is set first, and to a value that starts with a word character. */
  predicate ComesFirst(vs: seq<Variable>, next: string, name: string)
    decreases |vs|
  {
    && vs != [] && vs[0].name != name
    && if vs[0].name == next then StartsWithWord(ValueOf(vs[0])) else ComesFirst(vs[1..], next, name)
  }

  /** A word character follows the bare reference at `k` before its variable is set. */
  predicate Sticks(parts: seq<Part>, k: nat, vs: seq<Variable>) {
    && k + 1 < |parts| && IsBare(parts[k])
    && var next := parts[k + 1];
      if next.Lit? then StartsWithWord(next.text) else !Stuck(parts, k + 1) && ComesFirst(vs, next.name, parts[k].name)
  }

  /** No reference to one of the variables does. */
  ghost predicate OrderlyParts(parts: seq<Part>, vs: seq<Variable>) {
    forall k: nat | Sticks(parts, k, vs) :: parts[k].name !in EnvOf(vs)
  }

  ghost predicate Orderly(t: Template, vs: seq<Variable>) {
    t.Quote? ==> OrderlyParts(t.parts, vs) && Orderly(t.rest, vs)
  }

  /** What sticks after the first step stuck before it. */
  lemma StuckBefore(parts: seq<Part>, k: nat, vs: seq<Variable>)
    requires vs != [] && Sticks(ReplacedParts(parts, vs[0].name, ValueOf(vs[0])), k, vs[1..])
    ensures Sticks(parts, k, vs) && ReplacedParts(parts, vs[0].name, ValueOf(vs[0]))[k] == parts[k]
  {
    var name, value := vs[0].name, ValueOf(vs[0]);
    ReplacedPartsAt(parts, k, name, value);
    ReplacedPartsAt(parts, k + 1, name, value);
    if k + 2 < |parts| { ReplacedPartsAt(parts, k + 2, name, value); }
  }

  /** A reference that sticks and whose variable is still to come sticks after the step, or the one after it does. */
  lemma StuckAfter(parts: seq<Part>, k: nat, vs: seq<Variable>)
    requires vs != [] && Sticks(parts, k, vs) && (Stuck(parts, k) || parts[k].name != vs[0].name)
    ensures var after := ReplacedParts(parts, vs[0].name, ValueOf(vs[0]));
      || (Sticks(after, k, vs[1..]) && after[k] == parts[k])
      || (Sticks(after, k + 1, vs[1..]) && after[k + 1] == parts[k + 1] &&
         ComesFirst(vs[1..], parts[k + 1].name, parts[k].name))
  {
    var name, value := vs[0].name, ValueOf(vs[0]);
    ReplacedPartsAt(parts, k, name, value);
    ReplacedPartsAt(parts, k + 1, name, value);
    if k + 2 < |parts| { ReplacedPartsAt(parts, k + 2, name, value); }
  }

  lemma {:induction false} ComesFirstIsSet(vs: seq<Variable>, next: string, name: string)
    requires ComesFirst(vs, next, name)
    ensures next in EnvOf(vs) && next != name && StartsWithWord(EnvOf(vs)[next])
    decreases |vs|
  {
    if vs[0].name != next { ComesFirstIsSet(vs[1..], next, name); }
  }

  /** Some reference to `name` is stuck. */
  ghost predicate HasStuck(parts: seq<Part>, name: string) { exists k: nat :: Stuck(parts, k) && parts[k].name == name }

  /** Order is kept by a step that finds no reference of its variable stuck, and by no other. */
  lemma OrderlyStep(parts: seq<Part>, vs: seq<Variable>)
    requires vs != []
    ensures OrderlyParts(parts, vs)
      <==> !HasStuck(parts, vs[0].name) && OrderlyParts(ReplacedParts(parts, vs[0].name, ValueOf(vs[0])), vs[1..])
  {
    var name := vs[0].name;
    var after := ReplacedParts(parts, name, ValueOf(vs[0]));
    assert forall n :: n in EnvOf(vs) <==> n == name || n in EnvOf(vs[1..]);
    if OrderlyParts(parts, vs) {
      forall k: nat | Stuck(parts, k) ensures parts[k].name != name { assert Sticks(parts, k, vs); }
      forall k: nat | Sticks(after, k, vs[1..]) ensures after[k].name !in EnvOf(vs[1..]) { StuckBefore(parts, k, vs); }
    } else {
      var k: nat :| Sticks(parts, k, vs) && parts[k].name in EnvOf(vs);
      if Stuck(parts, k) || parts[k].name != name {
        StuckAfter(parts, k, vs);
        if parts[k + 1].Ref? && ComesFirst(vs[1..], parts[k + 1].name, parts[k].name) {
          ComesFirstIsSet(vs[1..], parts[k + 1].name, parts[k].name);
        }
      }
    }
  }

  ghost predicate HasStuckIn(t: Template, name: string) {
    t.Quote? && (HasStuck(t.parts, name) || HasStuckIn(t.rest, name))
  }

  lemma {:induction false} OrderlyTemplateStep(t: Template, vs: seq<Variable>)
    requires vs != []
    ensures Orderly(t, vs) <==> !HasStuckIn(t, vs[0].name) && Orderly(Step(t, vs[0]), vs[1..])
    decreases t
  {
    hide OrderlyParts, HasStuck, ReplacedParts;
    if t.Quote? {
      OrderlyStep(t.parts, vs);
      OrderlyTemplateStep(t.rest, vs);
    }
  }

  lemma {:induction false} UnstuckParts(parts: seq<Part>, name: string, value: string)
    requires !HasStuck(parts, name)
    ensures ReplacedParts(parts, name, value) == SimParts(parts, map[name := value])
    decreases |parts|
  {
    if parts != [] {
      forall k: nat | Stuck(parts[1..], k) ensures parts[1..][k].name != name { assert Stuck(parts, k + 1); }
      UnstuckParts(parts[1..], name, value);
    }
  }

  lemma {:induction false} UnstuckStep(t: Template, v: Variable)
    requires !HasStuckIn(t, v.name)
    ensures Step(t, v) == Sim(t, map[v.name := ValueOf(v)])
    decreases t
  {
    if t.Quote? {
      UnstuckParts(t.parts, v.name, ValueOf(v));
      UnstuckStep(t.rest, v);
    }
  }

  lemma {:induction false} SimPartsCompose(parts: seq<Part>, first: Env, second: Env)
    ensures SimParts(SimParts(parts, first), second) == SimParts(parts, second + first)
    decreases |parts|
  {
    if parts != [] {
      assert SimParts(parts, first)[1..] == SimParts(parts[1..], first);
      SimPartsCompose(parts[1..], first, second);
    }
  }

  lemma {:induction false} SimCompose(t: Template, first: Env, second: Env)
    ensures Sim(Sim(t, first), second) == Sim(t, second + first)
    decreases t
  {
    if t.Quote? {
      SimPartsCompose(t.parts, first, second);
      SimCompose(t.rest, first, second);
    }
  }

  lemma FirstThenRest(t: Template, vs: seq<Variable>)
    requires vs != []
    ensures Sim(Sim(t, map[vs[0].name := ValueOf(vs[0])]), EnvOf(vs[1..])) == Sim(t, EnvOf(vs))
  {
    var first: Env := map[vs[0].name := ValueOf(vs[0])];
    SimCompose(t, first, EnvOf(vs[1..]));
    assert EnvOf(vs) == EnvOf(vs[1..]) + first;
  }

  lemma {:induction false} NothingToDo(t: Template)
    ensures Sim(t, map[]) == t
    decreases t
  {
    if t.Quote? {
      NoParts(t.parts);
      NothingToDo(t.rest);
    }
  }

  lemma {:induction false} NoParts(parts: seq<Part>)
    ensures SimParts(parts, map[]) == parts
    decreases |parts|
  {
    if parts != [] { NoParts(parts[1..]); }
  }

  lemma {:induction false} OrderlyRun(t: Template, vs: seq<Variable>)
    requires Orderly(t, vs)
    ensures Run(t, vs) == Sim(t, EnvOf(vs))
    decreases |vs|
  {
    hide Orderly, HasStuckIn, Step, Sim;
    if vs == [] {
      NothingToDo(t);
    } else {
      OrderlyTemplateStep(t, vs);
      UnstuckStep(t, vs[0]);
      OrderlyRun(Step(t, vs[0]), vs[1..]);
      FirstThenRest(t, vs);
    }
  }

  /* Otherwise a reference is left over: the result has a `$` too many. */

  function References(parts: seq<Part>): nat
    decreases |parts|
  {
    if parts == [] then 0 else (if parts[0].Ref? then 1 else 0) + References(parts[1..])
  }

  function ReferencesIn(t: Template): nat {
    match t
    case End(_) => 0
    case Quote(_, parts, rest) => References(parts) + ReferencesIn(rest)
  }

  /** Setting the first variable by a step instead of at once leaves no fewer references; more if one was stuck. */
  lemma {:induction false} LeftOver(parts: seq<Part>, name: string, value: string, env: Env)
    ensures
      References(SimParts(ReplacedParts(parts, name, value), env)) >= References(SimParts(parts, env[name := value]))
    ensures HasStuck(parts, name) && name !in env
      ==> References(SimParts(ReplacedParts(parts, name, value), env)) > References(SimParts(parts, env[name := value]))
    decreases |parts|
  {
    if parts != [] {
      var after := ReplacedParts(parts, name, value);
      assert after[1..] == ReplacedParts(parts[1..], name, value);
      assert SimParts(after, env)[1..] == SimParts(after[1..], env);
      assert SimParts(parts, env[name := value])[1..] == SimParts(parts[1..], env[name := value]);
      if HasStuck(parts, name) && name !in env && !Stuck(parts, 0) {
        var k: nat :| Stuck(parts, k) && parts[k].name == name;
        assert Stuck(parts[1..], k - 1) && parts[1..][k - 1].name == name;
      }
      LeftOver(parts[1..], name, value, env);
    }
  }

  lemma {:induction false} LeftOverIn(t: Template, v: Variable, env: Env)
    ensures ReferencesIn(Sim(Step(t, v), env)) >= ReferencesIn(Sim(t, env[v.name := ValueOf(v)]))
    ensures HasStuckIn(t, v.name) && v.name !in env ==>
      ReferencesIn(Sim(Step(t, v), env)) > ReferencesIn(Sim(t, env[v.name := ValueOf(v)]))
    decreases t
  {
    if t.Quote? {
      LeftOver(t.parts, v.name, ValueOf(v), env);
      LeftOverIn(t.rest, v, env);
    }
  }

  /** A stuck reference stays stuck. */
  lemma {:induction false} StuckStays(t: Template, v: Variable, vs: seq<Variable>)
    requires HasStuckIn(t, v.name) && Orderly(Step(t, v), vs)
    ensures v.name !in EnvOf(vs)
    decreases t
  {
    if HasStuck(t.parts, v.name) {
      var k: nat :| Stuck(t.parts, k) && t.parts[k].name == v.name;
      ReplacedPartsAt(t.parts, k, v.name, ValueOf(v));
      ReplacedPartsAt(t.parts, k + 1, v.name, ValueOf(v));
      assert Sticks(ReplacedParts(t.parts, v.name, ValueOf(v)), k, vs);
    } else {
      StuckStays(t.rest, v, vs);
    }
  }

  lemma {:induction false} NothingSticks(t: Template)
    ensures Orderly(t, [])
    decreases t
  {
    if t.Quote? { NothingSticks(t.rest); }
  }

  lemma {:induction false} DisorderlyRun(t: Template, vs: seq<Variable>)
    ensures ReferencesIn(Run(t, vs)) >= ReferencesIn(Sim(t, EnvOf(vs)))
    ensures !Orderly(t, vs) ==> ReferencesIn(Run(t, vs)) > ReferencesIn(Sim(t, EnvOf(vs)))
    decreases |vs|
  {
    hide Orderly, HasStuckIn, Step, Sim, ReferencesIn;
    if vs == [] {
      NothingToDo(t);
      NothingSticks(t);
    } else {
      var v, later := vs[0], vs[1..];
      OrderlyTemplateStep(t, vs);
      LeftOverIn(t, v, EnvOf(later));
      DisorderlyRun(Step(t, v), later);
      if HasStuckIn(t, v.name) && Orderly(Step(t, v), later) { StuckStays(t, v, later); }
    }
  }

  function Dollars(s: string): nat
    decreases |s|
  {
    if s == "" then 0 else (if s[0] == '$' then 1 else 0) + Dollars(s[1..])
  }

  lemma {:induction false} DollarsAdd(a: string, b: string)
    ensures Dollars(a + b) == Dollars(a) + Dollars(b)
    decreases |a|
  {
    if a == "" {
      assert a + b == b;
    } else {
      DollarsAdd(a[1..], b);
      assert (a + b)[1..] == a[1..] + b;
    }
  }

  lemma {:induction false} NoDollars(s: string)
    requires forall k | 0 <= k < |s| :: s[k] != '$'
    ensures Dollars(s) == 0
    decreases |s|
  {
    if s != "" { NoDollars(s[1..]); }
  }

  lemma PartDollars(p: Part)
    requires IsPart(p)
    ensures Dollars(RenderPart(p)) == if p.Ref? then 1 else 0
  {
    match p
    case Lit(text) => NoDollars(text);
    case Ref(name, braced) =>
      NoDollars(name);
      assert Dollars("$") == 1;
      if braced {
        NoDollars("{" + name + "}");
        assert "${" + name + "}" == "$" + ("{" + name + "}");
        DollarsAdd("$", "{" + name + "}");
      } else {
        DollarsAdd("$", name);
      }
  }

  lemma {:induction false} PartsDollars(parts: seq<Part>)
    requires AreParts(parts)
    ensures Dollars(RenderParts(parts)) == References(parts)
    decreases |parts|
  {
    hide RenderPart, IsPart;
    if parts != [] {
      PartDollars(parts[0]);
      PartsDollars(parts[1..]);
      DollarsAdd(RenderPart(parts[0]), RenderParts(parts[1..]));
    }
  }

  function DollarsOutside(t: Template): nat {
    match t
    case End(text) => Dollars(text)
    case Quote(text, _, rest) => Dollars(text) + DollarsOutside(rest)
  }

  lemma {:induction false} TemplateDollars(t: Template)
    requires IsTemplate(t)
    ensures Dollars(Render(t)) == DollarsOutside(t) + ReferencesIn(t)
    decreases t
  {
    hide RenderParts, AreParts, IsOuter;
    match t
    case End(_) =>
    case Quote(text, parts, rest) =>
      var inner := RenderParts(parts);
      assert Dollars("\"") == 0 by { NoDollars("\""); }
      DollarsAdd(text + "\"" + inner + "\"", Render(rest));
      DollarsAdd(text + "\"" + inner, "\"");
      DollarsAdd(text + "\"", inner);
      DollarsAdd(text, "\"");
      PartsDollars(parts);
      TemplateDollars(rest);
  }

  lemma UpgradeAddsNoDollar(text: string, parts: seq<Part>, env: Env)
    ensures Dollars(SimText(text, parts, env)) == Dollars(text)
  {
    DollarsAdd(text, "~");
    NoDollars("~");
  }

  lemma {:induction false} SimKeepsOutside(t: Template, env: Env)
    ensures DollarsOutside(Sim(t, env)) == DollarsOutside(t)
    decreases t
  {
    hide Dollars, SimText, SimParts;
    if t.Quote? {
      UpgradeAddsNoDollar(t.text, t.parts, env);
      SimKeepsOutside(t.rest, env);
    }
  }

  lemma {:induction false} StepKeepsOutside(t: Template, v: Variable)
    ensures DollarsOutside(Step(t, v)) == DollarsOutside(t)
    decreases t
  {
    hide Dollars, SimText, ReplacedParts;
    if t.Quote? {
      UpgradeAddsNoDollar(t.text, t.parts, map[v.name := ValueOf(v)]);
      StepKeepsOutside(t.rest, v);
    }
  }

  lemma {:induction false} RunKeepsOutside(t: Template, vs: seq<Variable>)
    ensures DollarsOutside(Run(t, vs)) == DollarsOutside(t)
    decreases |vs|
  {
    if vs != [] {
      StepKeepsOutside(t, vs[0]);
      RunKeepsOutside(Step(t, vs[0]), vs[1..]);
    }
  }

  lemma {:induction false} SimIsParts(parts: seq<Part>, env: Env)
    requires AreParts(parts) && forall n | n in env :: IsInner(env[n])
    ensures AreParts(SimParts(parts, env))
    decreases |parts|
  {
    if parts != [] {
      SimIsParts(parts[1..], env);
      assert SimParts(parts, env)[1..] == SimParts(parts[1..], env);
    }
  }

  lemma {:induction false} SimIsTemplate(t: Template, env: Env)
    requires IsTemplate(t) && forall n | n in env :: IsInner(env[n])
    ensures IsTemplate(Sim(t, env))
    decreases t
  {
    if t.Quote? {
      UpgradedText(t.text, t.parts, env);
      SimIsParts(t.parts, env);
      SimIsTemplate(t.rest, env);
    }
  }

  lemma {:induction false} ValuesAreInner(vs: seq<Variable>)
    requires forall v | v in vs :: IsVariable(v)
    ensures forall n | n in EnvOf(vs) :: IsInner(EnvOf(vs)[n])
    decreases |vs|
  {
    if vs != [] {
      assert IsVariable(vs[0]);
      ValuesAreInner(vs[1..]);
    }
  }

  /** Main theorem: the sequential loop is one simultaneous substitution just when no reference to one of the
      variables is stuck by the time that variable is set. */
  lemma LoopIsSimultaneous(t: Template, vs: seq<Variable>)
    requires IsTemplate(t) && (forall v | v in vs :: IsVariable(v)) && Calm(t, EnvOf(vs))
    ensures ResolvedAll(Render(t), vs) == Render(Sim(t, EnvOf(vs))) <==> Orderly(t, vs)
  {
    hide ResolvedAll, Render, Sim, Orderly, Run, Dollars, DollarsOutside, ReferencesIn, EnvOf, IsTemplate, IsVariable,
      Calm;
    LoopIsRun(t, vs);
    if Orderly(t, vs) {
      OrderlyRun(t, vs);
    } else {
      DisorderlyRun(t, vs);
      ValuesAreInner(vs);
      SimIsTemplate(t, EnvOf(vs));
      TemplateDollars(Run(t, vs));
      TemplateDollars(Sim(t, EnvOf(vs)));
      RunKeepsOutside(t, vs);
      SimKeepsOutside(t, EnvOf(vs));
    }
  }

  /* The order of the variables. */

  ghost predicate DistinctNames(vs: seq<Variable>) {
    forall v, w | v in vs && w in vs && v.name == w.name :: v == w
  }

  ghost predicate SameVariables(vs: seq<Variable>, ws: seq<Variable>) { forall v :: v in vs <==> v in ws }

  lemma {:induction false} EnvHas(vs: seq<Variable>, name: string)
    requires DistinctNames(vs)
    ensures name in EnvOf(vs) <==> exists v | v in vs :: v.name == name
    ensures forall v | v in vs && v.name == name :: EnvOf(vs)[name] == ValueOf(v)
    decreases |vs|
  {
    if vs != [] {
      assert forall v :: v in vs <==> v == vs[0] || v in vs[1..];
      EnvHas(vs[1..], name);
    }
  }

  lemma SameEnv(vs: seq<Variable>, ws: seq<Variable>)
    requires DistinctNames(vs) && SameVariables(vs, ws)
    ensures EnvOf(vs) == EnvOf(ws)
  {
    forall name ensures name in EnvOf(vs) <==> name in EnvOf(ws)
      ensures name in EnvOf(vs) ==> EnvOf(vs)[name] == EnvOf(ws)[name] {
      EnvHas(vs, name);
      EnvHas(ws, name);
    }
  }

  /** No reference to a variable can stick, whatever the order. */
  ghost predicate FirmParts(parts: seq<Part>, env: Env) {
    forall k: nat | CanStick(parts, k, env) :: parts[k].name !in env
  }

  ghost predicate Firm(t: Template, env: Env) {
    t.Quote? ==> FirmParts(t.parts, env) && Firm(t.rest, env)
  }

  lemma {:induction false} FirmIsOrderly(t: Template, vs: seq<Variable>)
    requires Firm(t, EnvOf(vs))
    ensures Orderly(t, vs)
    decreases t
  {
    if t.Quote? {
      forall k: nat | Sticks(t.parts, k, vs) ensures t.parts[k].name !in EnvOf(vs) {
        if t.parts[k + 1].Ref? { ComesFirstIsSet(vs, t.parts[k + 1].name, t.parts[k].name); }
        assert CanStick(t.parts, k, EnvOf(vs));
      }
      FirmIsOrderly(t.rest, vs);
    }
  }

  /** The variables with the `j`th one first. */
  function Moved(vs: seq<Variable>, j: nat): (ws: seq<Variable>)
    requires j < |vs|
    ensures ws != [] && ws[0] == vs[j] && SameVariables(vs, ws)
  {
    assert vs == vs[..j] + [vs[j]] + vs[j + 1..];
    [vs[j]] + vs[..j] + vs[j + 1..]
  }

  /** An order in which a reference that can stick does. */
  lemma {:induction false} DisorderlyOrder(t: Template, vs: seq<Variable>) returns (ws: seq<Variable>)
    requires !Firm(t, EnvOf(vs)) && DistinctNames(vs)
    ensures SameVariables(vs, ws) && !Orderly(t, ws)
    decreases t
  {
    var env := EnvOf(vs);
    if FirmParts(t.parts, env) {
      ws := DisorderlyOrder(t.rest, vs);
    } else {
      var k: nat :| CanStick(t.parts, k, env) && t.parts[k].name in env;
      ws := vs;
      if t.parts[k + 1].Ref? {
        EnvHas(vs, t.parts[k + 1].name);
        var v :| v in vs && v.name == t.parts[k + 1].name;
        var j :| 0 <= j < |vs| && vs[j] == v;
        ws := Moved(vs, j);
      }
      SameEnv(vs, ws);
      assert Sticks(t.parts, k, ws);
    }
  }

  /** Main theorem: every order of the variables gives the simultaneous substitution just when no reference to
      one of them can stick. */
  lemma OrderIsIrrelevant(t: Template, vs: seq<Variable>)
    requires IsTemplate(t) && DistinctNames(vs) && (forall v | v in vs :: IsVariable(v)) && Calm(t, EnvOf(vs))
    ensures (forall ws | SameVariables(vs, ws) :: ResolvedAll(Render(t), ws) == Render(Sim(t, EnvOf(vs)))) <==>
      Firm(t, EnvOf(vs))
  {
    hide ResolvedAll, Render, Sim, Orderly, Firm, EnvOf, IsTemplate, IsVariable, Calm;
    forall ws | SameVariables(vs, ws)
      ensures EnvOf(vs) == EnvOf(ws) && (ResolvedAll(Render(t), ws) == Render(Sim(t, EnvOf(vs))) <==> Orderly(t, ws)) {
      SameEnv(vs, ws);
      LoopIsSimultaneous(t, ws);
    }
    if Firm(t, EnvOf(vs)) {
      forall ws | SameVariables(vs, ws) ensures Orderly(t, ws) { FirmIsOrderly(t, ws); }
    } else {
      var ws := DisorderlyOrder(t, vs);
    }
  }

  /* Two references next to each other, quoted or not. */

  lemma NoQuoteNoUpgrade(s: string, name: string, value: string)
    requires forall k | 0 <= k < |s| :: s[k] != '"'
    ensures UpgradedFrom(s, 0, name, value) == s
  {
    forall k | 0 <= k < |s| ensures MatcherAt(s, k, name) == None {}
    CopyUpgraded(s, 0, |s|, name, value);
  }

  lemma NoDollarNoChange(s: string, i: nat, name: string, value: string)
    requires i <= |s| && forall k | i <= k < |s| :: s[k] != '$'
    ensures ReplacedFrom(s, i, name, value) == s[i..]
  {
    CopyReplaced(s, i, |s|, name, value);
    NothingLeft(s, name, value);
    assert s[i..|s|] == s[i..];
  }

  lemma BareWord(s: string, i: nat, name: string)
    requires IsName(name) && Here(s, i, "$" + name) && (i + 1 + |name| < |s| ==> !IsWord(s[i + 1 + |name|]))
    ensures WordToken(s, i) == Some((name, i + 1 + |name|))
  {
    HereParts(s, i, "$", name);
    assert s[i..i + 1][0] == '$';
    RefIsWord(s, i, Ref(name, false));
  }

  /** A whole bare reference, replaced or copied. */
  lemma ReferenceAt(s: string, i: nat, name: string, of: string, value: string)
    requires IsName(name) && IsName(of) && Here(s, i, "$" + name) &&
      (i + 1 + |name| < |s| ==> !IsWord(s[i + 1 + |name|]))
    ensures i + 1 + |name| <= |s|
    ensures ReplacedFrom(s, i, of, value) ==
      (if name == of then value else "$" + name) + ReplacedFrom(s, i + 1 + |name|, of, value)
  {
    var e := i + 1 + |name|;
    BareWord(s, i, name);
    TokenIsWord(s, i, of);
    hide TokenAt, WordToken, IsWord, ReplacedFrom;
    if name == of {
      ReplaceOne(s, i, e, of, value);
    } else {
      forall k | i < k < e ensures TokenAt(s, k, of) == None {
        assert s[i..e][k - i] == name[k - i - 1] && IsWord(name[k - i - 1]);
        NotDollar(s, k, of);
      }
      CopyReplaced(s, i, e, of, value);
    }
  }

  lemma NotDollar(s: string, k: nat, name: string)
    requires k < |s| && IsWord(s[k])
    ensures TokenAt(s, k, name) == None
  {}

  lemma BothReplaced(a: string, b: string, of: string, value: string)
    requires IsName(a) && IsName(b) && IsName(of)
    ensures ReplacedFrom("$" + a + "$" + b, 0, of, value)
      == (if a == of then value else "$" + a) + (if b == of then value else "$" + b)
  {
    hide ReplacedFrom, IsName;
    var s, n := "$" + a + "$" + b, |a| + 1;
    assert s[0..n] == "$" + a && s[n..] == "$" + b && s[n] == '$';
    ReferenceAt(s, 0, a, of, value);
    ReferenceAt(s, n, b, of, value);
    NothingLeft(s, of, value);
  }

  lemma SecondReplaced(x: string, b: string, y: string)
    requires IsInner(x) && IsName(b)
    ensures ReplacedFrom(x + "$" + b, 0, b, y) == x + y
  {
    var s := x + "$" + b;
    assert s[0..|x|] == x && s[|x|..|s|] == "$" + b;
    CopyReplaced(s, 0, |x|, b, y);
    hide ReplacedFrom, IsName;
    ReferenceAt(s, |x|, b, b, y);
    NothingLeft(s, b, y);
  }

  /** The first reference is found unless a word character has come to follow it. */
  lemma FirstReplaced(a: string, x: string, y: string)
    requires IsName(a) && IsInner(x) && IsInner(y)
    ensures ReplacedFrom("$" + a + y, 0, a, x) == x + y <==> !IsWord(y[0])
  {
    var s, n := "$" + a + y, |a| + 1;
    assert s[0..n] == "$" + a && s[n..] == y && s[n] == y[0];
    assert s[0] == '$' && (x + y)[0] == x[0] != '$';
    assert forall k | n <= k < |s| :: s[k] == y[k - n];
    hide ReplacedFrom, IsName, IsInner, IsWord;
    if IsWord(y[0]) {
      StuckUnchanged(s, a, x);
    } else {
      ReferenceAt(s, 0, a, a, x);
      NoDollarNoChange(s, n, a, x);
    }
  }

  lemma StuckUnchanged(s: string, a: string, x: string)
    requires IsName(a) && Here(s, 0, "$" + a) && |s| > |a| + 1 && IsWord(s[|a| + 1])
    requires forall k | |a| + 1 <= k < |s| :: s[k] != '$'
    ensures ReplacedFrom(s, 0, a, x) == s
  {
    HereParts(s, 0, "$", a);
    assert s[0..1][0] == '$' && s[0..|a| + 1] == "$" + a;
    RefIsWord(s, 0, Ref(a, false));
    TokenIsWord(s, 0, a);
    forall k | 0 < k < |s| ensures TokenAt(s, k, a) == None {
      if k < |a| + 1 { assert s[0..|a| + 1][k] == a[k - 1]; }
    }
    hide ReplacedFrom, TokenAt;
    CopyReplaced(s, 0, |s|, a, x);
    NothingLeft(s, a, x);
  }

  predicate Unquoted(s: string) { forall k | 0 <= k < |s| :: s[k] != '"' }

  lemma UnquotedSum(a: string, b: string)
    requires Unquoted(a) && Unquoted(b)
    ensures Unquoted(a + b)
  {}

  lemma UnquotedPieces(name: string, value: string)
    requires IsName(name) && IsInner(value)
    ensures Unquoted("$" + name) && Unquoted(value)
  {}

  /** Without quotes only the second pass does anything. */
  lemma UnquotedResolved(a: string, b: string, v: Variable)
    requires Unquoted(a) && Unquoted(b)
    ensures Resolved(a + b, v) == ReplacedFrom(a + b, 0, v.name, ValueOf(v))
  {
    UnquotedSum(a, b);
    NoQuoteNoUpgrade(a + b, v.name, ValueOf(v));
  }

  /** A bare reference followed at once by another one: whichever the variables, the result is right in the order
      of the references, and in the other one just when the second value starts with no word character. */
  lemma AdjacentReferences(a: Variable, b: Variable)
    requires IsName(a.name) && IsName(b.name) && a.name != b.name && IsInner(ValueOf(a)) && IsInner(ValueOf(b))
    ensures
      var text, both := "$" + a.name + "$" + b.name, ValueOf(a) + ValueOf(b);
      && ResolvedAll(text, [a, b]) == both
      && (ResolvedAll(text, [b, a]) == both <==> !IsWord(ValueOf(b)[0]))
  {
    var x, y, p, q := ValueOf(a), ValueOf(b), "$" + a.name, "$" + b.name;
    assert p + q == "$" + a.name + "$" + b.name && x + q == x + "$" + b.name;
    hide Resolved, ReplacedFrom, ResolvedAll, IsName, IsInner, IsWord, Unquoted, ValueOf;
    UnquotedPieces(a.name, x);
    UnquotedPieces(b.name, y);
    UnquotedResolved(p, q, a);
    UnquotedResolved(p, q, b);
    UnquotedResolved(x, q, b);
    UnquotedResolved(p, y, a);
    BothReplaced(a.name, b.name, a.name, x);
    BothReplaced(a.name, b.name, b.name, y);
    SecondReplaced(x, b.name, y);
    FirstReplaced(a.name, x, y);
    TwoVariables(p + q, a, b);
    TwoVariables(p + q, b, a);
  }

  /** Why the theorems exclude it: what comes to follow a reference may spell out a reference to another variable,
      which is then replaced in turn. */
  lemma AccidentalReference(name: string, c: Variable, w: Variable)
    requires IsName(name) && IsName(c.name) && name != c.name && IsInner(ValueOf(c))
    requires IsName(w.name) && w.name == name + ValueOf(c) && IsInner(ValueOf(w))
    ensures
      var result := ResolvedAll("$" + name + "$" + c.name, [c, w]);
      result == ValueOf(w) && result != "$" + name + ValueOf(c)
  {
    var x, y, p, q := ValueOf(c), ValueOf(w), "$" + name, "$" + c.name;
    assert Unquoted("");
    hide Resolved, ResolvedAll, ReplacedFrom, IsName, IsInner, IsWord, Unquoted, ValueOf;
    Spelled(name, c.name, x);
    NoDollarFirst(p + x, y);
    UnquotedPieces(name, x);
    UnquotedPieces(c.name, x);
    UnquotedPieces(w.name, y);
    UnquotedResolved(p, q, c);
    UnquotedResolved("$" + w.name, "", w);
    BothReplaced(name, c.name, c.name, x);
    WholeReplaced(w.name, y);
    TwoVariables(p + q, c, w);
  }

  lemma Spelled(name: string, other: string, x: string)
    ensures "$" + name + ("$" + other) == "$" + name + "$" + other && "$" + name + x == "$" + (name + x)
    ensures "$" + (name + x) + "" == "$" + (name + x) && ("$" + name + x)[0] == '$'
  {}

  lemma NoDollarFirst(s: string, value: string)
    requires s != "" && s[0] == '$' && IsInner(value)
    ensures s != value
  {}

  lemma WholeReplaced(name: string, value: string)
    requires IsName(name)
    ensures ReplacedFrom("$" + name, 0, name, value) == value
  {
    var s := "$" + name;
    assert s[0..|s|] == s;
    ReferenceAt(s, 0, name, name, value);
    NothingLeft(s, name, value);
  }

  /** What each variable stands for: its current value, or anything when it is "All". */
  lemma {:induction false} EnvironmentIs(vs: seq<Variable>, v: Variable)
    requires DistinctNames(vs) && v in vs
    ensures v.name in EnvOf(vs)
    ensures v.current != "All" ==> EnvOf(vs)[v.name] == v.current
    ensures v.current == "All" ==> EnvOf(vs)[v.name] == ".*"
    decreases |vs|
  {
    assert vs == [vs[0]] + vs[1..];
    if v.name != vs[0].name {
      EnvironmentIs(vs[1..], v);
    } else {
      assert vs[0] in vs && v == vs[0];
    }
  }

  /** Nothing but the names of variables is replaced. */
  lemma {:induction false} EnvironmentHas(vs: seq<Variable>, name: string)
    ensures name in EnvOf(vs) <==> exists v | v in vs :: v.name == name
    decreases |vs|
  {
    if vs != [] {
      EnvironmentHas(vs[1..], name);
      assert forall v :: v in vs <==> v == vs[0] || v in vs[1..];
    }
  }

  /** A reference to a variable, alone: its value takes its place, in either spelling. */
  lemma ReferenceResolves(name: string, value: string)
    requires IsName(name) && IsInner(value) && value != "All"
    ensures ResolvedAll("$" + name, [Variable(name, value)]) == value
    ensures ResolvedAll("${" + name + "}", [Variable(name, value)]) == value
    ensures ResolvedAll("$" + name, [Variable(name, "All")]) == ".*"
    ensures ResolvedAll("${" + name + "}", [Variable(name, "All")]) == ".*"
  {
    hide Resolved, ReplacedFrom, IsName, IsInner;
    Unspelled(name);
    OneVariable("$" + name, Variable(name, value));
    OneVariable("${" + name + "}", Variable(name, value));
    OneVariable("$" + name, Variable(name, "All"));
    OneVariable("${" + name + "}", Variable(name, "All"));
    WholeReplaced(name, value);
    WholeReplaced(name, ".*");
    BracedReplaced(name, value);
    BracedReplaced(name, ".*");
  }

  /** A wildcard is a `.*` anywhere in the value. */
  lemma WildcardIs(value: string)
    ensures HasWildcard(value) <==> exists before, after :: value == before + ".*" + after
  {
    if HasWildcard(value) {
      var k :| 0 <= k < |value| - 1 && value[k] == '.' && value[k + 1] == '*';
      assert value == value[..k] + ".*" + value[k + 2..];
    }
    forall before: string, after: string | value == before + ".*" + after ensures HasWildcard(value) {
      assert value[|before|] == '.' && value[|before| + 1] == '*';
    }
  }

  lemma MatcherRendered(text: string, p: Part)
    ensures Render(Quote(text, [p], End(""))) == text + "\"" + RenderPart(p) + "\""
  {
    assert [p][1..] == [] && RenderParts([p]) == RenderPart(p) + "";
    hide RenderPart, RenderParts;
    assert text + "\"" + RenderPart(p) + "\"" + "" == text + "\"" + RenderPart(p) + "\"";
  }

  lemma LabelIsOuter(matched: string, regexp: bool)
    requires IsName(matched)
    ensures var text := matched + if regexp then "=~" else "="; IsOuter(text) && (EndsInEqual(text) <==> !regexp)
  {
    var text := matched + if regexp then "=~" else "=";
    assert text[|matched| - 1] == matched[|matched| - 1] && forall k | 0 <= k < |matched| :: IsWord(text[k]);
  }

  /** A matcher whose whole value is one reference: the variable's value takes the place of the reference, and an exact
      match becomes a regular-expression one just when that value has a `.*` in it. */
  lemma MatcherResolves(matched: string, name: string, value: string, braced: bool, regexp: bool)
    requires IsName(matched) && IsName(name) && !("__" <= name) && IsInner(value) && value != "All"
    ensures
      var op := if regexp then "=~" else "=";
      var reference := if braced then "${" + name + "}" else "$" + name;
      var result := ResolvedAll(matched + op + "\"" + reference + "\"", [Variable(name, value)]);
      if exists before, after :: value == before + ".*" + after then result == matched + "=~" + "\"" + value + "\""
      else result == matched + op + "\"" + value + "\""
  {
    var v, op, ref := Variable(name, value), if regexp then "=~" else "=", Ref(name, braced);
    LabelIsOuter(matched, regexp);
    WildcardIs(value);
    hide ResolvedAll, HasWildcard, IsName, IsInner, EndsInEqual, IsOuter;
    MatcherGoes(matched + op, v, braced);
    assert matched + "=" + "~" == matched + "=~";
  }

  lemma MatcherGoes(text: string, v: Variable, braced: bool)
    requires IsOuter(text) && IsVariable(v)
    ensures
      var ref := Ref(v.name, braced);
      ResolvedAll(text + "\"" + RenderPart(ref) + "\"", [v]) ==
        SimText(text, [ref], map[v.name := ValueOf(v)]) + "\"" + ValueOf(v) + "\""
  {
    var ref := Ref(v.name, braced);
    var t := Quote(text, [ref], End(""));
    MatcherRendered(text, ref);
    MatcherIsTemplate(text, v, braced);
    MatcherSteps(text, v, braced);
    hide Resolved, Render, Step, SimText, IsOuter, IsVariable, ValueOf, UnextendedIn, IsTemplate;
    ResolvedIsStep(t, v);
    MatcherRendered(SimText(text, [ref], map[v.name := ValueOf(v)]), Lit(ValueOf(v)));
    assert [v][1..] == [] && ResolvedAll(Resolved(Render(t), v), []) == Resolved(Render(t), v);
  }

  lemma MatcherIsTemplate(text: string, v: Variable, braced: bool)
    requires IsOuter(text) && IsVariable(v)
    ensures var t := Quote(text, [Ref(v.name, braced)], End("")); IsTemplate(t) && UnextendedIn(t, v.name)
  {
    var parts := [Ref(v.name, braced)];
    assert parts[1..] == [] && AreParts(parts[1..]) && AreParts(parts);
    assert IsOuter("") && IsTemplate(End(""));
    assert forall k: nat :: !Stuck(parts, k);
    assert UnextendedIn(End(""), v.name);
  }

  lemma MatcherSteps(text: string, v: Variable, braced: bool)
    ensures
      var ref := Ref(v.name, braced);
      Step(Quote(text, [ref], End("")), v) ==
        Quote(SimText(text, [ref], map[v.name := ValueOf(v)]), [Lit(ValueOf(v))], End(""))
  {
    var ref := Ref(v.name, braced);
    assert [ref][1..] == [] && !Stuck([ref], 0);
    hide SimText, ValueOf;
  }

  lemma Unspelled(name: string)
    requires IsName(name)
    ensures Unquoted("$" + name) && Unquoted("${" + name + "}")
  {}

  lemma BracedReplaced(name: string, value: string)
    requires IsName(name)
    ensures ReplacedFrom("${" + name + "}", 0, name, value) == value
  {
    var s := "${" + name + "}";
    assert s[2..2 + |name|] == name && s[0] == '$' && s[1] == '{' && s[2 + |name|] == '}';
    assert TokenAt(s, 0, name) == Some(|s|);
    NothingLeft(s, name, value);
    hide TokenAt;
    ReplaceOne(s, 0, |s|, name, value);
  }

  lemma OneVariable(s: string, v: Variable)
    requires Unquoted(s)
    ensures ResolvedAll(s, [v]) == ReplacedFrom(s, 0, v.name, ValueOf(v))
  {
    assert s + "" == s && Unquoted("") && [v][1..] == [];
    UnquotedResolved(s, "", v);
    hide Resolved, ReplacedFrom, ValueOf;
    assert ResolvedAll(Resolved(s, v), []) == Resolved(s, v);
  }

  lemma TwoVariables(s: string, v: Variable, w: Variable)
    ensures ResolvedAll(s, [v, w]) == Resolved(Resolved(s, v), w)
  {
    hide Resolved;
    assert [v, w][1..] == [w] && [w][1..] == [];
    assert ResolvedAll(Resolved(s, v), [w]) == ResolvedAll(Resolved(Resolved(s, v), w), []);
  }
}

/** What becomes of a variable set to "All". */
module VariablesMeaning {
  import opened Wrappers
  import opened Text
  import opened Variables
  import Regex
  import opened PromQL
  import opened PromQLMeaning

  /** The blanks of PromQL. */
  predicate IsBlank(c: char) { c in " \t\n\r" }

  /** The word in front of position `w`, blanks between them skipped. */
  function LabelBefore(text: string, w: nat): string
    requires w <= |text|
  {
    var u := TrimRight(text[..w], IsBlank);
    u[WordStart(u, 0, |u|)..]
  }

  /** The matcher that a text and the quoted value after it spell, blanks around the operator allowed. */
  function MatcherOf(text: string, value: string): Option<Matcher> {
    var u := TrimRight(text, IsBlank);
    var n := |u|;
    if n >= 2 && u[n - 1] == '=' && u[n - 2] == '!' then Some(Matcher(MatchNotEqual, LabelBefore(u, n - 2), value))
    else if n >= 2 && u[n - 1] == '~' && u[n - 2] == '!' then
      Some(Matcher(MatchNotRegexp, LabelBefore(u, n - 2), value))
    else if n >= 2 && u[n - 1] == '~' && u[n - 2] == '=' then Some(Matcher(MatchRegexp, LabelBefore(u, n - 2), value))
    else if n >= 1 && u[n - 1] == '=' then Some(Matcher(MatchEqual, LabelBefore(u, n - 1), value))
    else None
  }

  lemma DroppedMatcher(before: seq<Matcher>, name: string, after: seq<Matcher>, data: seq<Series>, sem: Semantics)
    requires Regex.Honours(sem.regex)
    ensures Select(data, before + [Matcher(MatchRegexp, name, ".*")] + after, sem) == Select(data, before + after, sem)
  {
    var m := Matcher(MatchRegexp, name, ".*");
    var with, without := before + [m] + after, before + after;
    var p: Labels -> bool := labels => AllHold(with, labels, sem);
    var q: Labels -> bool := labels => AllHold(without, labels, sem);
    forall labels ensures p(labels) <==> q(labels) {
      Regex.AnythingMatches(Get(labels, name));
      assert forall x :: x in with <==> x == m || x in without;
    }
    RestrictCongruent(data, p, q);
  }

  lemma SamePrefix(u: string, op: string)
    ensures LabelBefore(u + op, |u|) == LabelBefore(u, |u|)
  {
    assert (u + op)[..|u|] == u[..|u|];
  }

  /** A text that ends in `=`, blanks after it allowed. */
  lemma EqualReads(u: string, space: string, value: string)
    requires All(space, IsBlank) && u != "" && u[|u| - 1] != '!'
    ensures MatcherOf(u + "=" + space, value) == Some(Matcher(MatchEqual, LabelBefore(u, |u|), value))
  {
    TrimRightOf(u + "=", space, IsBlank);
    SamePrefix(u, "=");
    hide LabelBefore, TrimRight, All;
    var t := u + "=";
    assert t[|t| - 1] == '=' && t[|t| - 2] == u[|u| - 1];
  }

  /** A text that ends in `=~`. */
  lemma TildeReads(u: string, value: string)
    ensures MatcherOf(u + "=~", value) == Some(Matcher(MatchRegexp, LabelBefore(u, |u|), value))
  {
    var t := u + "=~";
    assert t[|t| - 1] == '~' && t[|t| - 2] == '=';
    assert TrimRight(t, IsBlank) == t;
    SamePrefix(u, "=~");
    hide LabelBefore, TrimRight;
  }

  /** A wildcard turns either positive operator into `=~`, on the same label. */
  lemma WildcardText(text: string, ref: Part, env: Env)
    requires EndsInMatch(text) && ref.Ref? && ref.name in env && HasWildcard(env[ref.name])
    ensures SimText(text, [ref], env) == text[..OperatorAt(text)] + "=~"
    ensures LabelBefore(text[..OperatorAt(text)], OperatorAt(text)) == LabelBefore(text, OperatorAt(text))
  {
    var w := OperatorAt(text);
    assert text[..w][..w] == text[..w];
    hide LabelBefore;
    assert text == text[..w] + text[w..];
    assert text[w..] == if text[|text| - 1] == '=' then "=" else "=~";
  }

  /** Main theorem: a positive matcher whose whole value is a variable set to "All" becomes `=~".*"` on the
      same label, whichever operator it had, and selects the same series as leaving it out. */
  lemma AllSelectsEverything(text: string, ref: Part, rest: Template, env: Env,
                             before: seq<Matcher>, after: seq<Matcher>, data: seq<Series>, sem: Semantics)
    requires EndsInMatch(text) && ref.Ref? && ref.name in env && env[ref.name] == ValueOf(Variable(ref.name, "All"))
    requires Regex.Honours(sem.regex)
    ensures
      var result := Sim(Quote(text, [ref], rest), env);
      var name := LabelBefore(text, OperatorAt(text));
      && result.parts == [Lit(".*")]
      && MatcherOf(result.text, ".*") == Some(Matcher(MatchRegexp, name, ".*"))
      && Select(data, before + [Matcher(MatchRegexp, name, ".*")] + after, sem) == Select(data, before + after, sem)
  {
    var w := OperatorAt(text);
    assert ".*"[0] == '.' && ".*"[1] == '*' && HasWildcard(".*");
    hide Select, HasWildcard, SimText, OperatorAt, EndsInMatch, MatcherOf, LabelBefore;
    WildcardText(text, ref, env);
    TildeReads(text[..w], ".*");
    DroppedMatcher(before, LabelBefore(text, w), after, data, sem);
  }

  /** The text in front of a quoted value: a label, an exact match, and blanks on either side of the operator. */
  function ExactMatch(lead: string, name: string, gap: string, space: string): string {
    lead + name + gap + "=" + space
  }

  lemma {:induction false} WordStartOf(lead: string, name: string, w: nat)
    requires AllWord(name) && (lead == "" || !IsWord(lead[|lead| - 1])) && |lead| <= w <= |lead| + |name|
    ensures WordStart(lead + name, 0, w) == |lead|
    decreases w
  {
    if w > |lead| { WordStartOf(lead, name, w - 1); }
  }

  /** The label is found across the gap. */
  lemma LabelAcross(lead: string, name: string, gap: string)
    requires IsName(name) && (lead == "" || !IsWord(lead[|lead| - 1])) && All(gap, IsBlank)
    ensures LabelBefore(lead + name + gap, |lead + name + gap|) == name
  {
    var u := lead + name;
    assert IsWord(name[|name| - 1]) && u[|u| - 1] == name[|name| - 1];
    TrimRightOf(u, gap, IsBlank);
    assert (u + gap)[..|u + gap|] == u + gap;
    WordStartOf(lead, name, |u|);
  }

  lemma EndsInNoBang(lead: string, name: string, gap: string)
    requires IsName(name) && All(gap, IsBlank)
    ensures var u := lead + name + gap; u != "" && u[|u| - 1] != '!'
  {
    var u := lead + name + gap;
    if gap == "" {
      assert u[|u| - 1] == name[|name| - 1];
    } else {
      assert u[|u| - 1] == gap[|gap| - 1];
    }
  }

  lemma TildeAfter(u: string)
    ensures u + "=" + "" + "~" == u + "=~"
  {}

  /** An exact match, and what the `~` makes of it. */
  lemma ExactReads(lead: string, name: string, gap: string, space: string, value: string)
    requires IsName(name) && (lead == "" || !IsWord(lead[|lead| - 1])) && All(gap, IsBlank) && All(space, IsBlank)
    ensures MatcherOf(ExactMatch(lead, name, gap, space), value) == Some(Matcher(MatchEqual, name, value))
    ensures MatcherOf(ExactMatch(lead, name, gap, "") + "~", value) == Some(Matcher(MatchRegexp, name, value))
  {
    hide MatcherOf, LabelBefore, IsName, IsWord, All;
    var u := lead + name + gap;
    EndsInNoBang(lead, name, gap);
    LabelAcross(lead, name, gap);
    EqualReads(u, space, value);
    TildeReads(u, value);
    TildeAfter(u);
  }

  /** The upgrade needs the operator to touch the label and the quote: with a blank on either side the match stays
      an exact one, which only a label whose value is the text `.*` meets. */
  lemma BlanksPreventUpgrade(lead: string, name: string, gap: string, space: string, ref: Part, rest: Template,
      env: Env, before: seq<Matcher>, after: seq<Matcher>, data: seq<Series>, sem: Semantics)
    requires IsName(name) && (lead == "" || !IsWord(lead[|lead| - 1])) && forall c | c in gap + space :: c in " \t\n\r"
    requires ref.Ref? && ref.name in env && env[ref.name] == ValueOf(Variable(ref.name, "All"))
    ensures
      var result := Sim(Quote(ExactMatch(lead, name, gap, space), [ref], rest), env);
      && result.parts == [Lit(".*")]
      && MatcherOf(result.text, ".*") ==
         Some(Matcher(if gap == "" && space == "" then MatchRegexp else MatchEqual, name, ".*"))
    ensures forall s | s in Select(data, before + [Matcher(MatchEqual, name, ".*")] + after, sem) ::
      Get(s.labels, name) == ".*"
  {
    var text := ExactMatch(lead, name, gap, space);
    assert ".*"[0] == '.' && ".*"[1] == '*' && HasWildcard(".*");
    BlanksAre(gap, space);
    TouchesIffNoBlanks(lead, name, gap, space);
    ExactReads(lead, name, gap, space, ".*");
    var m := Matcher(MatchEqual, name, ".*");
    assert m in before + [m] + after;
  }

  lemma BlanksAre(gap: string, space: string)
    requires forall c | c in gap + space :: c in " \t\n\r"
    ensures All(gap, IsBlank) && All(space, IsBlank)
  {
    assert forall i | 0 <= i < |gap| :: gap[i] in gap + space;
    assert forall i | 0 <= i < |space| :: space[i] in gap + space;
  }

  lemma TouchesIffNoBlanks(lead: string, name: string, gap: string, space: string)
    requires IsName(name) && All(gap, IsBlank) && All(space, IsBlank)
    ensures EndsInEqual(ExactMatch(lead, name, gap, space)) <==> gap == "" && space == ""
  {
    var text := ExactMatch(lead, name, gap, space);
    var n := |text|;
    if space != "" {
      assert text[n - 1] == space[|space| - 1];
    } else if gap != "" {
      assert text[n - 2] == gap[|gap| - 1];
    } else {
      assert text[n - 2] == name[|name| - 1];
    }
  }
}
