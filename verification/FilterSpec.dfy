/** The effect of the word filter on a text, defined from occurrences alone: no trie, no
    list of replacements, no merging. */
module FilterSpec {
  import Suffixes
  import opened Occurrences
  import opened Merging
  import opened Splicing

  /** A word occurs at [start, end] and no whitelisted stretch contains it. */
  ghost predicate Admissible(words: set<string>, white: seq<Position>, text: string, start: int, end: int) {
    Occurs(words, text, start, end) && !Whitelisted(white, start, end)
  }

  ghost predicate Covered(words: set<string>, white: seq<Position>, text: string, i: int) {
    exists a, b :: Admissible(words, white, text, a, b) && a <= i <= b
  }

  /** One admissible occurrence contains both i and i + 1. */
  ghost predicate Joined(words: set<string>, white: seq<Position>, text: string, i: int) {
    exists a, b :: Admissible(words, white, text, a, b) && a <= i < b
  }

  /** The last position of the run of overlapping occurrences that contains i. */
  ghost function RunEnd(words: set<string>, white: seq<Position>, text: string, i: nat): (e: nat)
    requires i < |text|
    ensures i <= e < |text|
    decreases |text| - i
  {
    if Joined(words, white, text, i) then RunEnd(words, white, text, i + 1) else i
  }

  ghost function WordEndingAt(words: set<string>, white: seq<Position>, text: string, e: nat): string
    requires e < |text|
  {
    BestAt(words, white, text[..e + 1], e)
  }

  ghost function TextFor(words: map<string, string>, word: string): string {
    if word in words then words[word] else ""
  }

  /** What position i of the text contributes to the filtered text. */
  ghost function Piece(words: map<string, string>, white: seq<Position>, text: string, i: nat): string
    requires i < |text|
  {
    if !Covered(words.Keys, white, text, i) then [text[i]]
    else if Joined(words.Keys, white, text, i - 1) then ""
    else TextFor(words, WordEndingAt(words.Keys, white, text, RunEnd(words.Keys, white, text, i)))
  }

  ghost function Filtered(words: map<string, string>, white: seq<Position>, text: string): string {
    Flatten(seq(|text|, i requires 0 <= i < |text| => Piece(words, white, text, i)))
  }

  // ---- the longest admissible word per end position

  lemma {:induction false} BestSuffix(words: set<string>, white: seq<Position>, text: string, from: nat, e: nat)
    requires from <= e + 1 && e < |text|
    ensures var b := BestAt(words, white, text[from..e + 1], e);
            && (b != "" ==> from <= e + 1 - |b| && b == text[e + 1 - |b|..e + 1]
                            && Admissible(words, white, text, e + 1 - |b|, e))
            && (forall a :: from <= a && Admissible(words, white, text, a, e) ==> b != "" && e + 1 - |b| <= a)
    decreases e + 1 - from
  {
    var s := text[from..e + 1];
    if from <= e && !(s in words && !Whitelisted(white, from, e)) {
      assert s[1..] == text[from + 1..e + 1];
      BestSuffix(words, white, text, from + 1, e);
    }
  }

  lemma BestIsLongest(words: set<string>, white: seq<Position>, text: string, e: nat)
    requires e < |text|
    ensures var b := WordEndingAt(words, white, text, e);
            && (b != "" ==> b in words && |b| <= e + 1 && Admissible(words, white, text, e + 1 - |b|, e))
            && (forall a :: Admissible(words, white, text, a, e) ==> b != "" && e + 1 - |b| <= a)
  {
    assert text[0..e + 1] == text[..e + 1];
    BestSuffix(words, white, text, 0, e);
  }

  ghost function BestReplacement(words: map<string, string>, white: seq<Position>, text: string, e: nat): Replacement
    requires e < |text|
  {
    var b := WordEndingAt(words.Keys, white, text, e);
    Replacement(e - |b| + 1, e, TextFor(words, b))
  }

  /** The replacement for the longest admissible suffix of s, if there is one. */
  ghost function FoundAt(words: map<string, string>, white: seq<Position>, s: string, end: int): seq<Replacement> {
    var b := BestAt(words.Keys, white, s, end);
    if b == "" then [] else [Replacement(end - |b| + 1, end, TextFor(words, b))]
  }

  lemma FoundAtLongest(paths: set<string>, words: map<string, string>, white: seq<Position>, s: string, end: int)
    requires Suffixes.IsTrie(paths) && words.Keys <= paths
    ensures FoundAt(words, white, s, end) == FoundAt(words, white, Suffixes.Longest(paths, s), end)
  {
    BestAtLongest(paths, words.Keys, white, s, end);
  }

  /** One step of the walk over fail links that looks for an admissible word. */
  lemma FindStep(paths: set<string>, words: map<string, string>, white: seq<Position>, q: string, end: int)
    requires Suffixes.IsTrie(paths) && words.Keys <= paths && q != ""
    ensures FoundAt(words, white, q, end) ==
            if q in words && !Whitelisted(white, end - |q| + 1, end) then [Replacement(end - |q| + 1, end, words[q])]
            else FoundAt(words, white, Suffixes.Longest(paths, q[1..]), end)
  {
    BestAtLongest(paths, words.Keys, white, q[1..], end);
  }

  /** At most one replacement per end position: the one for the longest admissible word. */
  ghost function Best(words: map<string, string>, white: seq<Position>, text: string, n: nat): seq<Replacement>
    requires n <= |text|
  {
    if n == 0 then [] else Best(words, white, text, n - 1) + FoundAt(words, white, text[..n], n - 1)
  }

  lemma {:induction false} InBest(words: map<string, string>, white: seq<Position>, text: string, n: nat,
      r: Replacement)
    requires n <= |text|
    ensures r in Best(words, white, text, n) <==>
            0 <= r.End < n && WordEndingAt(words.Keys, white, text, r.End) != "" &&
              r == BestReplacement(words, white, text, r.End)
  {
    if n > 0 {
      InBest(words, white, text, n - 1, r);
    }
  }

  // ---- merging the longest ones gives the runs of all admissible occurrences

  ghost predicate BestMerged(words: map<string, string>, white: seq<Position>, text: string, merged: seq<Replacement>) {
    IsMerge(Members(Best(words, white, text, |text|)), merged)
  }

  /** A best replacement is an admissible occurrence. */
  lemma BestAdmissible(words: map<string, string>, white: seq<Position>, text: string, r: Replacement)
    requires r in Best(words, white, text, |text|)
    ensures Admissible(words.Keys, white, text, r.Start, r.End)
    ensures r.Text == TextFor(words, WordEndingAt(words.Keys, white, text, r.End))
  {
    InBest(words, white, text, |text|, r);
    BestIsLongest(words.Keys, white, text, r.End);
  }

  /** Taking only the longest admissible word per end position loses nothing. */
  lemma AdmissibleInBest(words: map<string, string>, white: seq<Position>, text: string, a: int, b: int)
    returns (r: Replacement)
    requires Admissible(words.Keys, white, text, a, b)
    ensures r in Best(words, white, text, |text|) && r.Start <= a && r.End == b
  {
    BestIsLongest(words.Keys, white, text, b);
    r := BestReplacement(words, white, text, b);
    InBest(words, white, text, |text|, r);
  }

  lemma AdmissibleHeld(words: map<string, string>, white: seq<Position>, text: string, merged: seq<Replacement>, a: int,
      b: int)
    returns (k: int)
    requires BestMerged(words, white, text, merged) && Admissible(words.Keys, white, text, a, b)
    ensures 0 <= k < |merged| && merged[k].Start <= a && b <= merged[k].End
  {
    var r := AdmissibleInBest(words, white, text, a, b);
    assert Held(merged, r);
    k :| 0 <= k < |merged| && Inside(r, merged[k]);
  }

  lemma JoinedIffInner(words: map<string, string>, white: seq<Position>, text: string, merged: seq<Replacement>, i: int)
    requires BestMerged(words, white, text, merged)
    ensures Joined(words.Keys, white, text, i) <==> exists k :: CoveredBy(merged, k, i) && CoveredBy(merged, k, i + 1)
  {
    if Joined(words.Keys, white, text, i) {
      var a, b :| Admissible(words.Keys, white, text, a, b) && a <= i < b;
      var k := AdmissibleHeld(words, white, text, merged, a, b);
      assert CoveredBy(merged, k, i) && CoveredBy(merged, k, i + 1);
    }
    if k :| CoveredBy(merged, k, i) && CoveredBy(merged, k, i + 1) {
      var input := Members(Best(words, white, text, |text|));
      assert IsRun(input, merged[k]);
      assert Bridged(input, i);
      var r :| r in input && Bridges(r, i);
      BestAdmissible(words, white, text, r);
    }
  }

  lemma RunLast(words: map<string, string>, white: seq<Position>, text: string, merged: seq<Replacement>, k: int)
    requires BestMerged(words, white, text, merged) && 0 <= k < |merged|
    ensures exists a :: Admissible(words.Keys, white, text, a, merged[k].End)
    ensures 0 <= merged[k].End < |text|
    ensures merged[k].Text == TextFor(words, WordEndingAt(words.Keys, white, text, merged[k].End))
  {
    var input := Members(Best(words, white, text, |text|));
    assert IsRun(input, merged[k]);
    var r :| LongestAtEnd(input, r) && r.End == merged[k].End && r.Text == merged[k].Text;
    BestAdmissible(words, white, text, r);
  }

  lemma CoveredIffInRun(words: map<string, string>, white: seq<Position>, text: string, merged: seq<Replacement>,
      i: int)
    requires BestMerged(words, white, text, merged)
    ensures Covered(words.Keys, white, text, i) <==> exists k :: CoveredBy(merged, k, i)
  {
    if Covered(words.Keys, white, text, i) {
      var a, b :| Admissible(words.Keys, white, text, a, b) && a <= i <= b;
      var k := AdmissibleHeld(words, white, text, merged, a, b);
      assert CoveredBy(merged, k, i);
    }
    if k :| CoveredBy(merged, k, i) {
      if i < merged[k].End {
        assert CoveredBy(merged, k, i + 1);
        JoinedIffInner(words, white, text, merged, i);
      } else {
        RunLast(words, white, text, merged, k);
      }
    }
  }

  lemma {:induction false} RunEndIsEnd(words: map<string, string>, white: seq<Position>, text: string,
      merged: seq<Replacement>, k: int, i: nat)
    requires BestMerged(words, white, text, merged) && CoveredBy(merged, k, i) && merged[k].End < |text|
    ensures RunEnd(words.Keys, white, text, i) == merged[k].End
    decreases |text| - i
  {
    JoinedIffInner(words, white, text, merged, i);
    OneRunAt(merged, k, i);
    if i < merged[k].End {
      assert CoveredBy(merged, k, i + 1);
      RunEndIsEnd(words, white, text, merged, k, i + 1);
    }
  }

  lemma PiecesAgree(words: map<string, string>, white: seq<Position>, text: string, merged: seq<Replacement>, i: nat)
    requires BestMerged(words, white, text, merged) && i < |text|
    ensures PieceOf(text, merged, i) == Piece(words, white, text, i)
  {
    CoveredIffInRun(words, white, text, merged, i);
    if k :| CoveredBy(merged, k, i) {
      OneRunAt(merged, k, i);
      RunLast(words, white, text, merged, k);
      RunEndIsEnd(words, white, text, merged, k, i);
      JoinedIffInner(words, white, text, merged, i - 1);
      if i == merged[k].Start {
        assert StartsAt(merged, k, i);
      } else {
        assert CoveredBy(merged, k, i - 1);
      }
    } else {
      assert forall k :: StartsAt(merged, k, i) ==> CoveredBy(merged, k, i);
    }
  }

  /** Splicing the merged longest replacements is the filter as defined from occurrences. */
  lemma SplicedIsFiltered(words: map<string, string>, white: seq<Position>, text: string, merged: seq<Replacement>)
    requires BestMerged(words, white, text, merged)
    ensures Flatten(Pieces(text, merged)) == Filtered(words, white, text)
  {
    forall i | 0 <= i < |text| ensures PieceOf(text, merged, i) == Piece(words, white, text, i) {
      PiecesAgree(words, white, text, merged, i);
    }
    assert Pieces(text, merged) == seq(|text|, i requires 0 <= i < |text| => Piece(words, white, text, i));
  }

  /** Without an admissible occurrence the text comes back as it is. */
  lemma NothingToReplace(words: map<string, string>, white: seq<Position>, text: string)
    requires Best(words, white, text, |text|) == []
    ensures Filtered(words, white, text) == text
  {
    assert BestMerged(words, white, text, []);
    SplicedIsFiltered(words, white, text, []);
    NoRuns(text);
  }
}
