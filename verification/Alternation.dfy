/** Escaping a set of names into one alternation pattern (backend/internal/tenancy/promql.go,
    RegexAlternation), and what the pattern accepts. */
module Alternation {
  import opened Wrappers
  import opened Text
  import opened Regex

  function Quote(s: string): string {
    if s == "" then ""
    else (if IsOperator(s[0]) then ['\\', s[0]] else [s[0]]) + Quote(s[1..])
  }

  function QuoteAll(values: seq<string>): (r: seq<string>)
    ensures |r| == |values|
    ensures forall i | 0 <= i < |values| :: r[i] == Quote(values[i])
  {
    if values == [] then [] else [Quote(values[0])] + QuoteAll(values[1..])
  }

  function AlternationOf(values: seq<string>): string {
    Join(QuoteAll(values), "|")
  }

  lemma {:induction false} QuoteAppend(s: string, c: char)
    ensures Quote(s + [c]) == Quote(s) + if IsOperator(c) then ['\\', c] else [c]
  {
    if s == "" {
      assert s + [c] == [c] && [c][1..] == "";
    } else {
      assert (s + [c])[1..] == s[1..] + [c];
      QuoteAppend(s[1..], c);
    }
  }

  /** regexpQuoteMeta: a loop writing to a builder. */
  method RegexpQuoteMeta(s: string) returns (b: string)
    ensures b == Quote(s)
  {
    b := "";
    for i := 0 to |s|
      invariant b == Quote(s[..i])
    {
      if s[i] in "\\.+*?()|[]{}^$" {
        b := b + "\\";
      }
      b := b + [s[i]];
      QuoteAppend(s[..i], s[i]);
      assert s[..i + 1] == s[..i] + [s[i]];
    }
    assert s[..|s|] == s;
  }

  /** escapeAll: fills a slice by index. */
  method EscapeAll(values: seq<string>) returns (out: array<string>)
    ensures fresh(out) && out[..] == QuoteAll(values)
  {
    out := new string[|values|];
    for i := 0 to |values|
      invariant forall k | 0 <= k < i :: out[k] == Quote(values[k])
    {
      var quoted := RegexpQuoteMeta(values[i]);
      out[i] := quoted;
    }
  }

  method RegexAlternation(values: seq<string>) returns (r: string)
    ensures r == AlternationOf(values)
  {
    var escaped := EscapeAll(values);
    r := Join(escaped[..], "|");
  }

  /* What the text denotes. */

  function LiteralOf(s: string): Regex {
    if s == "" then Empty else Cat(Lit(s[0]), LiteralOf(s[1..]))
  }

  function AlternativesOf(values: seq<string>): Regex
    requires values != []
  {
    if |values| == 1 then LiteralOf(values[0]) else Alt(LiteralOf(values[0]), AlternativesOf(values[1..]))
  }

  lemma {:induction false} LiteralMatches(v: string, s: string)
    ensures Matches(LiteralOf(v), s) <==> s == v
  {
    if v != "" {
      forall i | 0 <= i <= |s| {
        LiteralMatches(v[1..], s[i..]);
      }
      if s == v {
        assert s[..1] == [v[0]] && s[1..] == v[1..];
        assert Matches(Lit(v[0]), s[..1]);
      }
      if Matches(LiteralOf(v), s) {
        var i :| 0 <= i <= |s| && Matches(Lit(v[0]), s[..i]) && Matches(LiteralOf(v[1..]), s[i..]);
        assert s == s[..i] + s[i..] && v == [v[0]] + v[1..];
      }
    }
  }

  lemma {:induction false} AlternativesMatch(values: seq<string>, s: string)
    requires values != []
    ensures Matches(AlternativesOf(values), s) <==> s in values
  {
    LiteralMatches(values[0], s);
    if |values| > 1 {
      AlternativesMatch(values[1..], s);
      assert values == [values[0]] + values[1..];
    }
  }

  /** The first character of an escaped name, as an atom. */
  lemma QuotedAtom(c: char, tail: string)
    requires tail == "" || tail[0] !in "*+?"
    ensures ParseRepeated((if IsOperator(c) then ['\\', c] else [c]) + tail) == Some((Lit(c), tail))
  {
    var text := (if IsOperator(c) then ['\\', c] else [c]) + tail;
    if IsOperator(c) { assert text[2..] == tail; } else { assert text[1..] == tail; }
    assert ParseAtom(text) == Some((Lit(c), tail));
  }

  /** An escaped name reads back as the literal name, whatever alternative follows it. */
  lemma {:induction false} QuoteParses(v: string, rest: string)
    requires rest == "" || rest[0] == '|'
    ensures ParseSequence(Quote(v) + rest) == Some((LiteralOf(v), rest))
  {
    if v == "" {
      assert Quote(v) + rest == rest;
    } else {
      var head := if IsOperator(v[0]) then ['\\', v[0]] else [v[0]];
      var tail := Quote(v[1..]) + rest;
      QuoteParses(v[1..], rest);
      assert tail == "" || tail[0] !in "*+?" by {
        if v[1..] != "" { assert tail[0] == '\\' || tail[0] == v[1]; }
      }
      QuotedAtom(v[0], tail);
      assert Quote(v) + rest == head + tail;
    }
  }

  lemma {:induction false} AlternationParses(values: seq<string>)
    requires values != []
    ensures ParseAlternatives(AlternationOf(values)) == Some((AlternativesOf(values), ""))
  {
    var text := AlternationOf(values);
    if |values| == 1 {
      QuoteParses(values[0], "");
      assert text == Quote(values[0]) + "";
    } else {
      var rest := "|" + AlternationOf(values[1..]);
      QuoteParses(values[0], rest);
      assert QuoteAll(values)[1..] == QuoteAll(values[1..]);
      assert text == Quote(values[0]) + rest;
      assert rest[1..] == AlternationOf(values[1..]);
      AlternationParses(values[1..]);
    }
  }

  /** The alternation always compiles and accepts exactly the listed names: no character of a
      name can widen it. (The empty list reads as the list of one empty name.) */
  lemma AlternationIsExact(values: seq<string>, s: string)
    ensures Compile(AlternationOf(values)).Some?
    ensures Accepts(AlternationOf(values), s) <==> s in (if values == [] then [""] else values)
  {
    if values == [] {
      assert AlternationOf(values) == "";
      assert ParseAlternatives("") == Some((Empty, ""));
    } else {
      AlternationParses(values);
      AlternativesMatch(values, s);
    }
  }

  /** Two lists of the same names, in any order and with any repetition, accept the same labels. */
  lemma AlternationIgnoresOrder(values: seq<string>, others: seq<string>, s: string)
    requires values != [] && others != []
    requires forall v :: v in values <==> v in others
    ensures Accepts(AlternationOf(values), s) <==> Accepts(AlternationOf(others), s)
  {
    AlternationIsExact(values, s);
    AlternationIsExact(others, s);
  }
}
