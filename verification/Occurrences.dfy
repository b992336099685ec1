/** What the word filter of acnode/acnode.go looks for, defined by trying every word at
    every place of the text. */
module Occurrences {
  import opened Suffixes

  /** A stretch of a text, both ends included. */
  datatype Position = Position(Start: int, End: int)

  ghost predicate Occurs(words: set<string>, text: string, start: int, end: int) {
    0 <= start <= end < |text| && text[start..end + 1] in words
  }

  /** The words that are suffixes of s, longest first, as positions ending at `end`. */
  ghost function EndingAt(words: set<string>, s: string, end: int): seq<Position> {
    if s == "" then []
    else (if s in words then [Position(end - |s| + 1, end)] else []) + EndingAt(words, s[1..], end)
  }

  /** All occurrences, by end and then longest first. */
  ghost function AllMatches(words: set<string>, text: string): seq<Position> {
    if text == "" then []
    else AllMatches(words, Parent(text)) + EndingAt(words, text, |text| - 1)
  }

  ghost predicate Whitelisted(white: seq<Position>, start: int, end: int) {
    exists k :: 0 <= k < |white| && white[k].Start <= start && end <= white[k].End
  }

  /** The longest suffix of s that is a word and not whitelisted when it ends at `end`; "" if there is none. */
  ghost function BestAt(words: set<string>, white: seq<Position>, s: string, end: int): string {
    if s == "" then ""
    else if s in words && !Whitelisted(white, end - |s| + 1, end) then s
    else BestAt(words, white, s[1..], end)
  }

  // ---- only suffixes inside the trie matter

  lemma {:induction false} EndingAtLongest(paths: set<string>, words: set<string>, s: string, end: int)
    requires IsTrie(paths) && words <= paths
    ensures EndingAt(words, s, end) == EndingAt(words, Longest(paths, s), end)
  {
    if s !in paths {
      EndingAtLongest(paths, words, s[1..], end);
      assert EndingAt(words, s, end) == EndingAt(words, s[1..], end);
    }
  }

  /** One step of the walk over fail links that collects matches. */
  lemma CollectStep(paths: set<string>, words: set<string>, q: string, end: int, before: seq<Position>,
      all: seq<Position>)
    requires IsTrie(paths) && words <= paths && q != ""
    requires before + EndingAt(words, q, end) == all
    ensures (if q in words then before + [Position(end - |q| + 1, end)] else before)
            + EndingAt(words, Longest(paths, q[1..]), end) == all
  {
    EndingAtLongest(paths, words, q[1..], end);
  }

  lemma {:induction false} BestAtLongest(paths: set<string>, words: set<string>, white: seq<Position>, s: string,
      end: int)
    requires IsTrie(paths) && words <= paths
    ensures BestAt(words, white, s, end) == BestAt(words, white, Longest(paths, s), end)
  {
    if s !in paths {
      BestAtLongest(paths, words, white, s[1..], end);
    }
  }

  // ---- the list of matches against the plain notion of an occurrence

  lemma {:induction false} EndingAtIsOccurrences(words: set<string>, text: string, from: nat, end: nat, m: Position)
    requires from <= end + 1 && end < |text|
    ensures m in EndingAt(words, text[from..end + 1], end) <==>
            m.End == end && from <= m.Start && Occurs(words, text, m.Start, m.End)
    decreases end + 1 - from
  {
    var s := text[from..end + 1];
    if from <= end {
      assert s[1..] == text[from + 1..end + 1];
      EndingAtIsOccurrences(words, text, from + 1, end, m);
      assert m in EndingAt(words, s, end) <==>
             (s in words && m == Position(from, end)) || m in EndingAt(words, s[1..], end);
    }
  }

  lemma SlicePrefix(text: string, n: nat, from: nat, to: nat)
    requires from <= to <= n <= |text|
    ensures text[..n][from..to] == text[from..to]
  {
  }

  /** A position is listed exactly when a non-empty word occurs there. */
  lemma {:induction false} AllMatchesIsOccurrences(words: set<string>, text: string, m: Position)
    ensures m in AllMatches(words, text) <==> Occurs(words, text, m.Start, m.End)
  {
    if text != "" {
      var before, end := Parent(text), |text| - 1;
      AllMatchesIsOccurrences(words, before, m);
      assert text[0..end + 1] == text;
      EndingAtIsOccurrences(words, text, 0, end, m);
      if 0 <= m.Start <= m.End < |before| {
        SlicePrefix(text, end, m.Start, m.End + 1);
      }
    }
  }

  ghost predicate Before(a: Position, b: Position) {
    a.End < b.End || (a.End == b.End && a.Start < b.Start)
  }

  ghost predicate Ordered(s: seq<Position>) {
    forall j, k :: 0 <= j < k < |s| ==> Before(s[j], s[k])
  }

  lemma {:induction false} EndingAtOrdered(words: set<string>, s: string, end: int)
    ensures Ordered(EndingAt(words, s, end))
    ensures forall k :: 0 <= k < |EndingAt(words, s, end)| ==>
              EndingAt(words, s, end)[k].End == end && EndingAt(words, s, end)[k].Start > end - |s|
  {
    if s != "" {
      EndingAtOrdered(words, s[1..], end);
    }
  }

  lemma OrderedConcat(a: seq<Position>, b: seq<Position>, end: int)
    requires Ordered(a) && Ordered(b)
    requires forall k :: 0 <= k < |a| ==> a[k].End < end
    requires forall k :: 0 <= k < |b| ==> b[k].End == end
    ensures Ordered(a + b)
    ensures forall k :: 0 <= k < |a + b| ==> (a + b)[k].End <= end
  {
  }

  /** The list is strictly ordered by end and then by decreasing length; in particular no
      occurrence is listed twice. */
  lemma {:induction false} AllMatchesOrdered(words: set<string>, text: string)
    ensures Ordered(AllMatches(words, text))
    ensures forall k :: 0 <= k < |AllMatches(words, text)| ==> AllMatches(words, text)[k].End < |text|
  {
    if text != "" {
      var a, b := AllMatches(words, Parent(text)), EndingAt(words, text, |text| - 1);
      AllMatchesOrdered(words, Parent(text));
      EndingAtOrdered(words, text, |text| - 1);
      OrderedConcat(a, b, |text| - 1);
    }
  }

  /** Being inside some listed whitelist match is being inside some whitelist occurrence. */
  lemma WhitelistedByMatches(white: set<string>, text: string, start: int, end: int)
    ensures Whitelisted(AllMatches(white, text), start, end) <==>
            exists s, e :: Occurs(white, text, s, e) && s <= start && end <= e
  {
    var all := AllMatches(white, text);
    if Whitelisted(all, start, end) {
      var k :| 0 <= k < |all| && all[k].Start <= start && end <= all[k].End;
      AllMatchesIsOccurrences(white, text, all[k]);
    }
    if s, e :| Occurs(white, text, s, e) && s <= start && end <= e {
      AllMatchesIsOccurrences(white, text, Position(s, e));
    }
  }
}
