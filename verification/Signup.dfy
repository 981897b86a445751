/** Choosing a new tenant's slug (backend/cmd/auth-service/main.go, slugify and the search in
    handleSignup). `lower` stands for the per-character lower-casing of `strings.ToLower`. */
module Signup {
  import opened Text

  predicate IsSlugChar(c: char) { IsLower(c) || IsDigit(c) || c == '-' }

  predicate IsDash(c: char) { c == '-' }

  /** `[^a-z0-9-]+` replaced by one dash each time. */
  function ReplaceRuns(s: string, inRun: bool): string
    decreases |s|
  {
    if s == "" then ""
    else if IsSlugChar(s[0]) then [s[0]] + ReplaceRuns(s[1..], false)
    else if inRun then ReplaceRuns(s[1..], true)
    else "-" + ReplaceRuns(s[1..], true)
  }

  function Lowered(s: string, lower: char -> char): string {
    seq(|s|, i requires 0 <= i < |s| => lower(s[i]))
  }

  function Slugify(name: string, lower: char -> char): string {
    var s := Lowered(Trim(name, IsUnicodeSpace), lower);
    var t := Trim(ReplaceRuns(s, false), IsDash);
    if t == "" then "tenant" else t
  }

  ghost predicate LeavesSlugChars(lower: char -> char) {
    forall c | IsSlugChar(c) :: lower(c) == c
  }

  /** Nothing but slug characters, and no dash at either end. */
  predicate IsSlug(s: string) {
    s != "" && All(s, IsSlugChar) && s[0] != '-' && s[|s| - 1] != '-'
  }

  lemma {:induction false} ReplaceRunsIsClean(s: string, inRun: bool)
    ensures All(ReplaceRuns(s, inRun), IsSlugChar)
    decreases |s|
  {
    if s != "" { ReplaceRunsIsClean(s[1..], !IsSlugChar(s[0])); }
  }

  lemma {:induction false} ReplaceRunsKeeps(s: string)
    requires All(s, IsSlugChar)
    ensures ReplaceRuns(s, false) == s
  {
    if s != "" {
      assert IsSlugChar(s[0]);
      ReplaceRunsKeeps(s[1..]);
    }
  }

  lemma SlugifyGivesSlugs(name: string, lower: char -> char)
    ensures IsSlug(Slugify(name, lower))
  {
    var clean := ReplaceRuns(Lowered(Trim(name, IsUnicodeSpace), lower), false);
    ReplaceRunsIsClean(Lowered(Trim(name, IsUnicodeSpace), lower), false);
    var t := Trim(clean, IsDash);
    var before, after := TrimParts(clean, IsDash);
    forall i | 0 <= i < |t| ensures IsSlugChar(t[i]) { assert clean[|before| + i] == t[i]; }
  }

  /** Every slug is a fixed point; so slugify is idempotent. */
  lemma SlugsAreFixed(s: string, lower: char -> char)
    requires LeavesSlugChars(lower) && IsSlug(s)
    ensures Slugify(s, lower) == s
  {
    assert forall i | 0 <= i < |s| :: IsSlugChar(s[i]);
    TrimTrimmed(s, IsUnicodeSpace);
    assert Lowered(s, lower) == s;
    ReplaceRunsKeeps(s);
    TrimTrimmed(s, IsDash);
  }

  lemma SlugifyIsIdempotent(name: string, lower: char -> char)
    requires LeavesSlugChars(lower)
    ensures Slugify(Slugify(name, lower), lower) == Slugify(name, lower)
  {
    SlugifyGivesSlugs(name, lower);
    SlugsAreFixed(Slugify(name, lower), lower);
  }

  /** The letters and digits of a text, in order. */
  function Kept(s: string): string
    decreases |s|
  {
    if s == "" then "" else (if IsLower(s[0]) || IsDigit(s[0]) then [s[0]] else "") + Kept(s[1..])
  }

  lemma KeptCons(c: char, s: string)
    ensures Kept([c] + s) == (if IsLower(c) || IsDigit(c) then [c] else "") + Kept(s)
  {
    assert ([c] + s)[1..] == s;
  }

  lemma {:induction false} KeptAppend(a: string, b: string)
    ensures Kept(a + b) == Kept(a) + Kept(b)
    decreases |a|
  {
    if a == "" {
      assert a + b == b;
    } else {
      KeptAppend(a[1..], b);
      KeptCons(a[0], a[1..]);
      KeptCons(a[0], a[1..] + b);
      assert a == [a[0]] + a[1..] && a + b == [a[0]] + (a[1..] + b);
      hide Kept;
    }
  }

  lemma {:induction false} KeptOfRuns(s: string, inRun: bool)
    ensures Kept(ReplaceRuns(s, inRun)) == Kept(s)
    decreases |s|
  {
    if s != "" {
      KeptOfRuns(s[1..], !IsSlugChar(s[0]));
      var rest := ReplaceRuns(s[1..], !IsSlugChar(s[0]));
      assert ([s[0]] + rest)[1..] == rest && ("-" + rest)[1..] == rest;
    }
  }

  lemma {:induction false} KeptOfDashes(s: string)
    requires All(s, IsDash)
    ensures Kept(s) == ""
    decreases |s|
  {
    if s != "" {
      assert IsDash(s[0]) && forall i | 0 <= i < |s| - 1 :: s[1..][i] == s[i + 1];
      KeptOfDashes(s[1..]);
    }
  }

  /** No letter or digit of the lower-cased name is lost, added or moved; a name without any is "tenant". */
  lemma SlugKeepsLettersAndDigits(name: string, lower: char -> char)
    ensures var text := Lowered(Trim(name, IsUnicodeSpace), lower);
      if Kept(text) == "" then Slugify(name, lower) == "tenant" else Kept(Slugify(name, lower)) == Kept(text)
  {
    var text := Lowered(Trim(name, IsUnicodeSpace), lower);
    var runs := ReplaceRuns(text, false);
    var t := Trim(runs, IsDash);
    var before, after := TrimParts(runs, IsDash);
    KeptOfRuns(text, false);
    KeptAppend(before + t, after);
    KeptAppend(before, t);
    KeptOfDashes(before);
    KeptOfDashes(after);
    if t != "" {
      SlugifyGivesSlugs(name, lower);
      assert t[0] != '-' && IsSlugChar(t[0]);
    }
  }

  /* Where the dashes are. */

  lemma {:induction false} RunsAppend(a: string, b: string, inRun: bool)
    ensures
      ReplaceRuns(a + b, inRun) ==
        ReplaceRuns(a, inRun) + ReplaceRuns(b, if a == "" then inRun else !IsSlugChar(a[|a| - 1]))
    decreases |a|
  {
    if a == "" {
      assert a + b == b;
    } else {
      assert (a + b)[1..] == a[1..] + b;
      RunsAppend(a[1..], b, !IsSlugChar(a[0]));
    }
  }

  /** A word of the slug: lower-case letters, digits and dashes, with no dash at either end. */
  predicate IsWordOfSlug(s: string) {
    && s != "" && s[0] != '-' && s[|s| - 1] != '-'
    && forall i | 0 <= i < |s| :: 'a' <= s[i] <= 'z' || '0' <= s[i] <= '9' || s[i] == '-'
  }

  /** A gap between words: none of these characters. */
  predicate IsGap(s: string) {
    s != "" && forall i | 0 <= i < |s| :: !('a' <= s[i] <= 'z' || '0' <= s[i] <= '9' || s[i] == '-')
  }

  /** Text at either end: no letter and no digit. */
  predicate IsMargin(s: string) { forall i | 0 <= i < |s| :: !('a' <= s[i] <= 'z' || '0' <= s[i] <= '9') }

  function Laced(words: seq<string>, gaps: seq<string>): string
    requires |words| == |gaps| + 1
  {
    if gaps == [] then words[0] else words[0] + (gaps[0] + Laced(words[1..], gaps[1..]))
  }

  lemma {:induction false} GapIsDash(gap: string, inRun: bool)
    requires forall i | 0 <= i < |gap| :: !IsSlugChar(gap[i])
    ensures ReplaceRuns(gap, inRun) == if inRun || gap == "" then "" else "-"
    decreases |gap|
  {
    if gap != "" { GapIsDash(gap[1..], true); }
  }

  lemma WordStays(w: string, inRun: bool)
    requires IsWordOfSlug(w)
    ensures ReplaceRuns(w, inRun) == w && IsSlugChar(w[|w| - 1])
  {
    assert forall i | 0 <= i < |w| :: IsSlugChar(w[i]);
    ReplaceRunsKeeps(w);
    FirstOfRuns(w, inRun);
  }

  lemma GapGoes(g: string)
    requires IsGap(g)
    ensures ReplaceRuns(g, false) == "-" && !IsSlugChar(g[|g| - 1])
  {
    GapIsDash(g, false);
  }

  /** A word, a gap, and the rest. */
  lemma WordAndGap(w: string, g: string, rest: string, inRun: bool)
    requires IsWordOfSlug(w) && IsGap(g)
    ensures ReplaceRuns(w + (g + rest), inRun) == w + ("-" + ReplaceRuns(rest, true))
  {
    hide ReplaceRuns, IsSlugChar;
    WordStays(w, inRun);
    GapGoes(g);
    RunsAppend(w, g + rest, inRun);
    RunsAppend(g, rest, false);
  }

  /** Text whose ends belong to words. */
  predicate HasEnds(s: string) { s != "" && s[0] != '-' && s[|s| - 1] != '-' }

  lemma JoinedEnds(w: string, rest: string)
    requires HasEnds(w) && HasEnds(rest)
    ensures HasEnds(w + ("-" + rest)) && w + ("-" + rest) == w + "-" + rest
  {}

  lemma LacedEnds(w: string, g: string, rest: string)
    requires rest != ""
    ensures var text := w + (g + rest); text != "" && text[|text| - 1] == rest[|rest| - 1]
  {}

  lemma {:induction false} LacedRuns(words: seq<string>, gaps: seq<string>, inRun: bool)
    requires |words| == |gaps| + 1 && (forall w | w in words :: IsWordOfSlug(w)) && forall g | g in gaps :: IsGap(g)
    ensures ReplaceRuns(Laced(words, gaps), inRun) == Join(words, "-") && HasEnds(Join(words, "-"))
    ensures var text := Laced(words, gaps); text != "" && IsSlugChar(text[|text| - 1])
    decreases |gaps|
  {
    assert words[0] in words;
    if gaps == [] {
      WordStays(words[0], inRun);
    } else {
      assert gaps[0] in gaps && HasEnds(words[0]);
      hide ReplaceRuns, IsWordOfSlug, IsGap, IsSlugChar, HasEnds;
      var rest := Laced(words[1..], gaps[1..]);
      LacedRuns(words[1..], gaps[1..], true);
      WordAndGap(words[0], gaps[0], rest, inRun);
      JoinedEnds(words[0], Join(words[1..], "-"));
      LacedEnds(words[0], gaps[0], rest);
    }
  }

  lemma FirstOfRuns(s: string, inRun: bool)
    requires s != "" && IsSlugChar(s[0])
    ensures ReplaceRuns(s, inRun) == ReplaceRuns(s, false)
  {}

  lemma {:induction false} MarginIsDashes(s: string, inRun: bool)
    requires IsMargin(s)
    ensures All(ReplaceRuns(s, inRun), IsDash)
    decreases |s|
  {
    if s != "" { MarginIsDashes(s[1..], !IsSlugChar(s[0])); }
  }

  /** Text between two margins. */
  lemma BetweenMargins(front: string, text: string, back: string, inRun: bool) returns (before: string, after: string)
    requires IsMargin(front) && IsMargin(back) && text != "" && IsSlugChar(text[|text| - 1])
    requires inRun == (front != "" && !IsSlugChar(front[|front| - 1]))
    ensures ReplaceRuns(front + text + back, false) == before + ReplaceRuns(text, inRun) + after
    ensures All(before, IsDash) && All(after, IsDash)
  {
    assert (front + text)[|front + text| - 1] == text[|text| - 1];
    hide ReplaceRuns, IsMargin, IsSlugChar, All;
    RunsAppend(front + text, back, false);
    RunsAppend(front, text, false);
    MarginIsDashes(front, false);
    MarginIsDashes(back, false);
    before, after := ReplaceRuns(front, false), ReplaceRuns(back, false);
  }

  /** Main theorem: the words of a name, whatever else stands at its ends and whatever is between them, are joined by
      single dashes. */
  lemma SlugJoinsWords(name: string, lower: char -> char, front: string, words: seq<string>, gaps: seq<string>,
      back: string)
    requires |words| == |gaps| + 1 && (forall w | w in words :: IsWordOfSlug(w)) && forall g | g in gaps :: IsGap(g)
    requires IsMargin(front) && IsMargin(back)
    requires Lowered(Trim(name, IsUnicodeSpace), lower) == front + Laced(words, gaps) + back
    ensures Slugify(name, lower) == Join(words, "-")
  {
    var inRun := front != "" && !IsSlugChar(front[|front| - 1]);
    LacedRuns(words, gaps, inRun);
    hide ReplaceRuns, Laced, IsMargin, IsWordOfSlug, IsGap, Lowered, Join, All;
    var before, after := BetweenMargins(front, Laced(words, gaps), back, inRun);
    TrimPadded(before, Join(words, "-"), after, IsDash);
  }

  /* Candidates. */

  function Decimal(n: nat): (s: string)
    ensures s != "" && All(s, IsDigit)
  {
    if n < 10 then [('0' as int + n) as char] else Decimal(n / 10) + [('0' as int + n % 10) as char]
  }

  function ReadDecimal(s: string): nat
    requires All(s, IsDigit)
    decreases |s|
  {
    if s == "" then 0
    else
      assert IsDigit(s[|s| - 1]);
      10 * ReadDecimal(s[..|s| - 1]) + (s[|s| - 1] as int - '0' as int)
  }

  lemma {:induction false} DecimalReads(n: nat)
    ensures ReadDecimal(Decimal(n)) == n
  {
    var s := Decimal(n);
    if n < 10 {
      assert s[..|s| - 1] == "";
    } else {
      DecimalReads(n / 10);
      assert s[..|s| - 1] == Decimal(n / 10);
    }
  }

  /** The slugs tried, in order: the attempt counter is increased twice in a round, so the suffixes
      are the even numbers. */
  function Candidate(base: string, k: nat): string {
    if k == 0 then base else base + "-" + Decimal(2 * k)
  }

  lemma CandidatesDiffer(base: string, j: nat, k: nat)
    requires j < k
    ensures Candidate(base, j) != Candidate(base, k)
  {
    if j > 0 && Candidate(base, j) == Candidate(base, k) {
      var n := |base| + 1;
      assert Candidate(base, j)[n..] == Decimal(2 * j) && Candidate(base, k)[n..] == Decimal(2 * k);
      DecimalReads(2 * j);
      DecimalReads(2 * k);
    }
  }

  lemma CandidatesAreSlugs(base: string, k: nat, lower: char -> char)
    requires IsSlug(base) && LeavesSlugChars(lower)
    ensures Slugify(Candidate(base, k), lower) == Candidate(base, k)
  {
    if k > 0 {
      var s, d := Candidate(base, k), Decimal(2 * k);
      forall i | 0 <= i < |s| ensures IsSlugChar(s[i]) {
        if i < |base| { assert s[i] == base[i]; } else if i > |base| { assert s[i] == d[i - |base| - 1]; }
      }
      assert s[0] == base[0] && s[|s| - 1] == d[|d| - 1];
    }
    SlugsAreFixed(Candidate(base, k), lower);
  }

  ghost function FirstCandidates(base: string, k: nat): set<string> {
    if k == 0 then {} else FirstCandidates(base, k - 1) + {Candidate(base, k - 1)}
  }

  lemma {:induction false} FirstCandidatesCount(base: string, k: nat)
    ensures |FirstCandidates(base, k)| == k
    ensures forall s :: s in FirstCandidates(base, k) <==> exists j: nat | j < k :: s == Candidate(base, j)
  {
    if k > 0 {
      FirstCandidatesCount(base, k - 1);
      forall j: nat | j < k - 1 ensures Candidate(base, j) != Candidate(base, k - 1) {
        CandidatesDiffer(base, j, k - 1);
      }
    }
  }

  /** Candidates that are all taken cannot outnumber the taken slugs. */
  lemma Pigeonhole(base: string, taken: set<string>, k: nat)
    requires forall j: nat | j < k :: Candidate(base, j) in taken
    ensures k <= |taken|
  {
    FirstCandidatesCount(base, k);
    var tried := FirstCandidates(base, k);
    assert tried <= taken;
    assert tried + (taken - tried) == taken;
  }

  /** The search of handleSignup: it ends within one more lookup than there are taken slugs, on the
      first free candidate. */
  method FreeSlug(base: string, taken: set<string>) returns (slug: string, ghost k: nat)
    ensures slug !in taken && slug == Candidate(base, k) && k <= |taken|
    ensures forall j: nat | j < k :: Candidate(base, j) in taken
  {
    slug := base;
    var attempt := 0;
    k := 0;
    while slug in taken
      invariant attempt == 2 * k && slug == Candidate(base, k) && k <= |taken|
      invariant forall j: nat | j < k :: Candidate(base, j) in taken
      decreases |taken| - k
    {
      Pigeonhole(base, taken, k + 1);
      attempt := attempt + 1;
      slug := base + "-" + Decimal(attempt + 1);
      attempt := attempt + 1;
      k := k + 1;
    }
  }
}
