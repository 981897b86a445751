/** The label block `k="v",...` that several printers write and several readers scan. */
module LabelText {
  import opened Text

  type Entry = (string, string)

  function Rendered(e: Entry): string { e.0 + "=\"" + e.1 + "\"" }

  function RenderedAll(entries: seq<Entry>): (r: seq<string>)
    ensures |r| == |entries|
  {
    if entries == [] then [] else [Rendered(entries[0])] + RenderedAll(entries[1..])
  }

  function LabelBlock(entries: seq<Entry>): string { Join(RenderedAll(entries), ",") }

  /** Assigning the entries in order. */
  function Fill(labels: map<string, string>, entries: seq<Entry>): map<string, string>
    decreases |entries|
  {
    if entries == [] then labels else Fill(labels[entries[0].0 := entries[0].1], entries[1..])
  }

  predicate DistinctKeys(entries: seq<Entry>) {
    forall i, j | 0 <= i < j < |entries| :: entries[i].0 != entries[j].0
  }

  /** The entries of a record, each key once, in some order. */
  ghost predicate EntriesOf(labels: map<string, string>, entries: seq<Entry>) {
    DistinctKeys(entries) && forall e :: e in entries <==> e.0 in labels && labels[e.0] == e.1
  }

  lemma {:induction false} FillKeeps(labels: map<string, string>, entries: seq<Entry>, k: string)
    requires DistinctKeys(entries)
    ensures k in Fill(labels, entries) <==> k in labels || exists e | e in entries :: e.0 == k
    ensures forall e | e in entries && e.0 == k :: Fill(labels, entries)[k] == e.1
    ensures k in labels && (forall e | e in entries :: e.0 != k) ==> Fill(labels, entries)[k] == labels[k]
    decreases |entries|
  {
    if entries != [] {
      FillKeeps(labels[entries[0].0 := entries[0].1], entries[1..], k);
      assert forall e :: e in entries <==> e == entries[0] || e in entries[1..];
    }
  }

  /** Assigned into an empty record, the entries of a record give it back. */
  lemma FillGivesBack(labels: map<string, string>, entries: seq<Entry>)
    requires EntriesOf(labels, entries)
    ensures Fill(map[], entries) == labels
  {
    forall k
      ensures (k in labels <==> k in Fill(map[], entries)) && (k in labels ==> Fill(map[], entries)[k] == labels[k]) {
      FillKeeps(map[], entries, k);
      if k in labels { assert (k, labels[k]) in entries; }
    }
  }

  /** The stretch of `s` from `i` on is `part`. */
  predicate At(s: string, i: nat, part: string) {
    i + |part| <= |s| && forall k | 0 <= k < |part| :: s[i + k] == part[k]
  }

  lemma AtParts(s: string, i: nat, a: string, b: string)
    requires At(s, i, a + b)
    ensures At(s, i, a) && At(s, i + |a|, b)
  {
    forall k | 0 <= k < |a| ensures s[i + k] == a[k] { assert (a + b)[k] == a[k]; }
    forall k | 0 <= k < |b| ensures s[i + |a| + k] == b[k] {
      assert (a + b)[|a| + k] == b[k];
      assert s[i + (|a| + k)] == (a + b)[|a| + k];
    }
  }

  /** Where the first `c` from `i` on is, or the end. */
  function FindFrom(s: string, i: nat, c: char): (e: nat)
    requires i <= |s|
    ensures i <= e <= |s| && (e < |s| ==> s[e] == c) && forall k | i <= k < e :: s[k] != c
    decreases |s| - i
  {
    if i == |s| || s[i] == c then i else FindFrom(s, i + 1, c)
  }

  /** Where the word characters that start at `i` end. */
  function WordEnd(s: string, i: nat): (e: nat)
    requires i <= |s|
    ensures i <= e <= |s|
    decreases |s| - i
  {
    if i < |s| && IsWord(s[i]) then WordEnd(s, i + 1) else i
  }

  lemma {:induction false} WordEndAt(s: string, i: nat, e: nat)
    requires i <= e <= |s| && (forall k | i <= k < e :: IsWord(s[k])) && (e < |s| ==> !IsWord(s[e]))
    ensures WordEnd(s, i) == e
    decreases e - i
  {
    if i < e { WordEndAt(s, i + 1, e); }
  }

  lemma LabelBlockCons(entries: seq<Entry>)
    requires entries != []
    ensures LabelBlock(entries) == Rendered(entries[0]) + if |entries| == 1 then "" else "," + LabelBlock(entries[1..])
  {
    assert RenderedAll(entries)[1..] == RenderedAll(entries[1..]);
  }

  /** A block of several labels: the first one, a comma, and the block of the others. */
  lemma BlockParts(s: string, i: nat, entries: seq<Entry>) returns (next: nat)
    requires |entries| > 1 && At(s, i, LabelBlock(entries)) && i + |LabelBlock(entries)| == |s|
    ensures next == i + |Rendered(entries[0])| + 1 <= |s| && At(s, i, Rendered(entries[0])) && s[next - 1] == ','
    ensures At(s, next, LabelBlock(entries[1..])) && next + |LabelBlock(entries[1..])| == |s|
  {
    var rest := LabelBlock(entries[1..]);
    LabelBlockCons(entries);
    AtParts(s, i, Rendered(entries[0]), "," + rest);
    next := i + |Rendered(entries[0])| + 1;
    AtParts(s, next - 1, ",", rest);
    assert s[next - 1 + 0] == ","[0];
  }
}
