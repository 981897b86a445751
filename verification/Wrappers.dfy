/** Failure-carrying results, and the few text helpers several components share. */
module Wrappers {

  datatype Option<+T> = None | Some(value: T)

  datatype Result<+T> = Ok(value: T) | Err(message: string)
}

/** Runs of timed events. */
module Clock {
  ghost predicate Advances<E>(run: seq<E>, time: E -> int) {
    forall k | 0 < k < |run| :: time(run[k - 1]) <= time(run[k])
  }

  /** Where no step goes back in time, no stretch does. */
  lemma {:induction false} Order<E>(run: seq<E>, time: E -> int, i: nat, j: nat)
    requires Advances(run, time) && i <= j < |run|
    ensures time(run[i]) <= time(run[j])
    decreases j
  {
    if i < j { Order(run, time, i, j - 1); }
  }
}

module Text {

  function Join(parts: seq<string>, sep: string): string {
    if |parts| == 0 then ""
    else if |parts| == 1 then parts[0]
    else parts[0] + sep + Join(parts[1..], sep)
  }

  predicate IsLower(c: char) { 'a' <= c <= 'z' }

  predicate IsUpper(c: char) { 'A' <= c <= 'Z' }

  predicate IsDigit(c: char) { '0' <= c <= '9' }

  predicate IsLetter(c: char) { IsLower(c) || IsUpper(c) }

  /** The class `\w` of JavaScript and Go regular expressions. */
  predicate IsWord(c: char) { IsLetter(c) || IsDigit(c) || c == '_' }

  predicate AllWord(s: string) { forall i | 0 <= i < |s| :: IsWord(s[i]) }

  /** No character of `s` is in `bad`. */
  predicate Free(s: string, bad: string) { forall i | 0 <= i < |s| :: s[i] !in bad }

  /** The class `\s` of JavaScript, which is also what its `trim` removes. */
  predicate IsSpace(c: char) {
    c == ' ' || '\t' <= c <= '\r' || c == '\U{a0}' || c == '\U{1680}' || '\U{2000}' <= c <= '\U{200a}' ||
    c == '\U{2028}' || c == '\U{2029}' || c == '\U{202f}' || c == '\U{205f}' || c == '\U{3000}' || c == '\U{feff}'
  }

  /** What Go's `strings.TrimSpace` removes. */
  predicate IsUnicodeSpace(c: char) {
    c == ' ' || '\t' <= c <= '\r' || c == '\U{85}' || c == '\U{a0}' || c == '\U{1680}' ||
    '\U{2000}' <= c <= '\U{200a}' ||
    c == '\U{2028}' || c == '\U{2029}' || c == '\U{202f}' || c == '\U{205f}' || c == '\U{3000}'
  }

  /** The characters of the classes, by number. */
  lemma ClassesAre(c: char)
    ensures IsWord(c) <==> (48 <= c as int < 58 || 65 <= c as int < 91 || 95 == c as int || 97 <= c as int < 123)
    ensures IsSpace(c) <==>
      c as int in {9, 10, 11, 12, 13, 32, 160, 5760, 8232, 8233, 8239, 8287, 12288, 65279} || 8192 <= c as int < 8203
    ensures IsUnicodeSpace(c) <==> c as int == 133 || (IsSpace(c) && c as int != 65279)
    ensures ToLowerAscii([c]) == if 65 <= c as int < 91 then [(c as int + 32) as char] else [c]
  {
    assert ToLowerAscii([c])[0] == if IsUpper(c) then (c as int + 32) as char else c;
  }

  function TrimLeft(s: string, space: char -> bool): string {
    if s != "" && space(s[0]) then TrimLeft(s[1..], space) else s
  }

  function TrimRight(s: string, space: char -> bool): string {
    if s != "" && space(s[|s| - 1]) then TrimRight(s[..|s| - 1], space) else s
  }

  function Trim(s: string, space: char -> bool): string {
    TrimRight(TrimLeft(s, space), space)
  }

  predicate All(s: string, p: char -> bool) { forall i | 0 <= i < |s| :: p(s[i]) }

  predicate IsTrimmed(s: string, space: char -> bool) {
    s != "" ==> !space(s[0]) && !space(s[|s| - 1])
  }

  lemma {:induction false} TrimLeftParts(s: string, space: char -> bool) returns (cut: string)
    ensures s == cut + TrimLeft(s, space) && All(cut, space)
    ensures TrimLeft(s, space) != "" ==> !space(TrimLeft(s, space)[0])
  {
    if s != "" && space(s[0]) {
      cut := TrimLeftParts(s[1..], space);
      cut := [s[0]] + cut;
    } else {
      cut := "";
    }
  }

  lemma {:induction false} TrimRightParts(s: string, space: char -> bool) returns (cut: string)
    ensures s == TrimRight(s, space) + cut && All(cut, space)
    ensures TrimRight(s, space) != "" ==> !space(TrimRight(s, space)[|TrimRight(s, space)| - 1])
    decreases |s|
  {
    if s != "" && space(s[|s| - 1]) {
      var front, last := s[..|s| - 1], [s[|s| - 1]];
      var most := TrimRightParts(front, space);
      cut := most + last;
      assert s == front + last && front + last == TrimRight(front, space) + (most + last);
    } else {
      cut := "";
    }
  }

  /** Trimming removes space at both ends and nothing else. */
  lemma TrimParts(s: string, space: char -> bool) returns (before: string, after: string)
    ensures s == before + Trim(s, space) + after
    ensures All(before, space) && All(after, space) && IsTrimmed(Trim(s, space), space)
  {
    before := TrimLeftParts(s, space);
    after := TrimRightParts(TrimLeft(s, space), space);
  }

  lemma TrimTrimmed(s: string, space: char -> bool)
    requires IsTrimmed(s, space)
    ensures Trim(s, space) == s
  {}

  lemma {:induction false} TrimLeftOf(spaces: string, s: string, space: char -> bool)
    requires All(spaces, space) && (s == "" || !space(s[0]))
    ensures TrimLeft(spaces + s, space) == s
  {
    if spaces == "" {
      assert spaces + s == s;
    } else {
      assert (spaces + s)[1..] == spaces[1..] + s;
      TrimLeftOf(spaces[1..], s, space);
    }
  }

  lemma {:induction false} TrimRightOf(s: string, spaces: string, space: char -> bool)
    requires All(spaces, space) && (s == "" || !space(s[|s| - 1]))
    ensures TrimRight(s + spaces, space) == s
    decreases |spaces|
  {
    if spaces == "" {
      assert s + spaces == s;
    } else {
      assert (s + spaces)[..|s + spaces| - 1] == s + spaces[..|spaces| - 1];
      TrimRightOf(s, spaces[..|spaces| - 1], space);
    }
  }

  /** Padding a trimmed text with space trims back to it. */
  lemma TrimPadded(before: string, s: string, after: string, space: char -> bool)
    requires All(before, space) && All(after, space) && IsTrimmed(s, space) && s != ""
    ensures Trim(before + s + after, space) == s
  {
    assert before + s + after == before + (s + after);
    TrimLeftOf(before, s + after, space);
    TrimRightOf(s, after, space);
  }

  lemma {:induction false} TrimLeftPast(spaces: string, s: string, space: char -> bool)
    requires All(spaces, space)
    ensures TrimLeft(spaces + s, space) == TrimLeft(s, space)
    decreases |spaces|
  {
    if spaces == "" {
      assert spaces + s == s;
    } else {
      assert (spaces + s)[1..] == spaces[1..] + s;
      TrimLeftPast(spaces[1..], s, space);
    }
  }

  lemma {:induction false} TrimRightPast(s: string, spaces: string, space: char -> bool)
    requires All(spaces, space)
    ensures TrimRight(s + spaces, space) == TrimRight(s, space)
    decreases |spaces|
  {
    if spaces == "" {
      assert s + spaces == s;
    } else {
      assert (s + spaces)[..|s + spaces| - 1] == s + spaces[..|spaces| - 1];
      TrimRightPast(s, spaces[..|spaces| - 1], space);
    }
  }

  lemma {:induction false} TrimLeftThen(s: string, more: string, space: char -> bool)
    ensures TrimLeft(s + more, space) ==
      if TrimLeft(s, space) == "" then TrimLeft(more, space) else TrimLeft(s, space) + more
    decreases |s|
  {
    if s == "" {
      assert s + more == more;
    } else if space(s[0]) {
      assert (s + more)[1..] == s[1..] + more;
      TrimLeftThen(s[1..], more, space);
    }
  }

  /** Trimming ignores space that is added at either end. */
  lemma TrimIgnoresPadding(before: string, s: string, after: string, space: char -> bool)
    requires All(before, space) && All(after, space)
    ensures Trim(before + s + after, space) == Trim(s, space)
  {
    assert before + s + after == before + (s + after);
    TrimLeftPast(before, s + after, space);
    TrimLeftThen(s, after, space);
    assert after + "" == after && TrimLeft("", space) == "";
    TrimLeftPast(after, "", space);
    TrimRightPast(TrimLeft(s, space), after, space);
  }

  /** `toLowerCase` on word characters; every other character is left alone. */
  function ToLowerAscii(s: string): string {
    seq(|s|, i requires 0 <= i < |s| => if IsUpper(s[i]) then (s[i] as int + 32) as char else s[i])
  }

  function Filter<T>(xs: seq<T>, keep: T -> bool): (r: seq<T>)
    ensures forall x | x in r :: x in xs && keep(x)
    ensures forall x | x in xs && keep(x) :: x in r
  {
    if xs == [] then []
    else if keep(xs[0]) then [xs[0]] + Filter(xs[1..], keep)
    else Filter(xs[1..], keep)
  }

  predicate NoDuplicates<T(==)>(xs: seq<T>) {
    forall i, j | 0 <= i < j < |xs| :: xs[i] != xs[j]
  }
}
