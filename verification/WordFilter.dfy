/** The checks on incoming and outgoing texts of acnode/acnode.go: whitelist matching
    followed by filtering. */
module WordFilter {
  import opened Occurrences
  import Splicing
  import Strings
  import opened FilterSpec
  import opened Trie

  const MAX_RUNES := 5000
  const EMPTY_WORD := "错误：缺少 'word' 参数"
  const TOO_LONG := "错误：字符数超过最大限制（5000字符）"
  const IMAGE_MARK := "[CQ:image,file=base64://"
  const BASE64_MARK := "base64://"

  /** A sensitive word occurs at [a, b] and no whitelist word occurs around it. */
  ghost predicate Offends(words: set<string>, white: set<string>, text: string, a: int, b: int) {
    Occurs(words, text, a, b) && !exists c, d :: Occurs(white, text, c, d) && c <= a && b <= d
  }

  /** The filtered text, from the two dictionaries alone. */
  ghost function Clean(words: map<string, string>, white: set<string>, text: string): string {
    Filtered(words, AllMatches(white, text), text)
  }

  /** The replaced positions are exactly those of offending occurrences, of whatever length. */
  lemma ReplacedPositions(words: set<string>, white: set<string>, text: string, i: int)
    ensures Covered(words, AllMatches(white, text), text, i) <==>
            exists a, b :: Offends(words, white, text, a, b) && a <= i <= b
  {
    var matches := AllMatches(white, text);
    forall a, b ensures Admissible(words, matches, text, a, b) <==> Offends(words, white, text, a, b) {
      WhitelistedByMatches(white, text, a, b);
    }
    if Covered(words, matches, text, i) {
      var a, b :| Admissible(words, matches, text, a, b) && a <= i <= b;
      assert Offends(words, white, text, a, b);
    }
    if a, b :| Offends(words, white, text, a, b) && a <= i <= b {
      assert Admissible(words, matches, text, a, b);
    }
  }

  /** The runes of text[..n] outside all offending occurrences, in their order. */
  ghost function Untouched(words: set<string>, white: set<string>, text: string, n: nat): string
    requires n <= |text|
  {
    if n == 0 then ""
    else Untouched(words, white, text, n - 1) +
         if exists a, b :: Offends(words, white, text, a, b) && a <= n - 1 <= b then "" else [text[n - 1]]
  }

  lemma {:induction false} ErasingUpTo(words: map<string, string>, white: set<string>, text: string, n: nat)
    requires n <= |text| && forall w :: w in words ==> words[w] == ""
    ensures var pieces := seq(|text|, i requires 0 <= i < |text| => Piece(words, AllMatches(white, text), text, i));
            Splicing.Flatten(pieces[..n]) == Untouched(words.Keys, white, text, n)
  {
    var pieces := seq(|text|, i requires 0 <= i < |text| => Piece(words, AllMatches(white, text), text, i));
    if n > 0 {
      ErasingUpTo(words, white, text, n - 1);
      ReplacedPositions(words.Keys, white, text, n - 1);
      assert pieces[..n][..n - 1] == pieces[..n - 1];
    }
  }

  /** When every word is replaced by the empty text, exactly the runes outside offending
      occurrences remain. */
  lemma ErasingKeepsTheRest(words: map<string, string>, white: set<string>, text: string)
    requires forall w :: w in words ==> words[w] == ""
    ensures Clean(words, white, text) == Untouched(words.Keys, white, text, |text|)
  {
    ErasingUpTo(words, white, text, |text|);
    var pieces := seq(|text|, i requires 0 <= i < |text| => Piece(words, AllMatches(white, text), text, i));
    assert pieces[..|text|] == pieces;
  }

  /** A text without offending occurrences is left alone. */
  lemma InnocentTextKept(words: map<string, string>, white: set<string>, text: string)
    requires forall a, b :: !Offends(words.Keys, white, text, a, b)
    ensures Clean(words, white, text) == text
  {
    var pieces := seq(|text|, i requires 0 <= i < |text| => Piece(words, AllMatches(white, text), text, i));
    forall i | 0 <= i < |text| ensures pieces[i] == [text[i]] {
      ReplacedPositions(words.Keys, white, text, i);
    }
    Splicing.FlattenRunes(pieces, text);
  }

  // ---- what replaces an occurrence

  lemma AdmissibleIffOffends(words: set<string>, white: set<string>, text: string, a: int, b: int)
    ensures Admissible(words, AllMatches(white, text), text, a, b) <==> Offends(words, white, text, a, b)
  {
    WhitelistedByMatches(white, text, a, b);
  }

  /** An offending occurrence contains both i and i + 1. */
  ghost predicate Bound(words: set<string>, white: set<string>, text: string, i: int) {
    exists c, d :: Offends(words, white, text, c, d) && c <= i < d
  }

  /** The offending occurrences of the text overlap one after the other and cover [a, b]; the longest
      one at its end begins at c. */
  ghost predicate OneRun(words: set<string>, white: set<string>, text: string, a: int, c: int, b: int) {
    && 0 <= a <= c <= b < |text| && Offends(words, white, text, c, b)
    && (forall d, e :: Offends(words, white, text, d, e) ==> a <= d && e <= b && (e == b ==> c <= d))
    && (forall i {:trigger Bound(words, white, text, i)} :: a <= i < b ==> Bound(words, white, text, i))
  }

  lemma JoinedIffBound(words: set<string>, white: set<string>, text: string, i: int)
    ensures Joined(words, AllMatches(white, text), text, i) <==> Bound(words, white, text, i)
  {
    if Joined(words, AllMatches(white, text), text, i) {
      var c, d :| Admissible(words, AllMatches(white, text), text, c, d) && c <= i < d;
      AdmissibleIffOffends(words, white, text, c, d);
    }
    if Bound(words, white, text, i) {
      var c, d :| Offends(words, white, text, c, d) && c <= i < d;
      AdmissibleIffOffends(words, white, text, c, d);
    }
  }

  lemma JoinedIffWithin(words: set<string>, white: set<string>, text: string, a: int, c: int, b: int, i: int)
    requires OneRun(words, white, text, a, c, b)
    ensures Joined(words, AllMatches(white, text), text, i) <==> a <= i < b
  {
    JoinedIffBound(words, white, text, i);
    assert a <= i < b ==> Bound(words, white, text, i);
  }

  lemma {:induction false} RunEndsAt(words: set<string>, white: set<string>, text: string, a: int, c: int, b: int,
      i: nat)
    requires OneRun(words, white, text, a, c, b) && a <= i <= b
    ensures RunEnd(words, AllMatches(white, text), text, i) == b
    decreases b - i
  {
    JoinedIffWithin(words, white, text, a, c, b, i);
    if i < b {
      RunEndsAt(words, white, text, a, c, b, i + 1);
    }
  }

  lemma LongestEnding(words: set<string>, matches: seq<Position>, text: string, c: int, b: nat)
    requires b < |text| && Admissible(words, matches, text, c, b)
    requires forall d :: Admissible(words, matches, text, d, b) ==> c <= d
    ensures WordEndingAt(words, matches, text, b) == text[c..b + 1]
  {
    assert text[0..b + 1] == text[..b + 1];
    BestSuffix(words, matches, text, 0, b);
    var w := WordEndingAt(words, matches, text, b);
    assert c <= b + 1 - |w|;
  }

  lemma WordAtEnd(words: set<string>, white: set<string>, text: string, a: int, c: int, b: int)
    requires OneRun(words, white, text, a, c, b)
    ensures WordEndingAt(words, AllMatches(white, text), text, b) == text[c..b + 1]
  {
    var matches := AllMatches(white, text);
    AdmissibleIffOffends(words, white, text, c, b);
    forall d | Admissible(words, matches, text, d, b) ensures c <= d {
      AdmissibleIffOffends(words, white, text, d, b);
    }
    LongestEnding(words, matches, text, c, b);
  }

  lemma CoveredIffWithin(words: set<string>, white: set<string>, text: string, a: int, c: int, b: int, i: int)
    requires OneRun(words, white, text, a, c, b)
    ensures Covered(words, AllMatches(white, text), text, i) <==> a <= i <= b
  {
    ReplacedPositions(words, white, text, i);
    if a <= i < b {
      assert Bound(words, white, text, i);
    }
  }

  lemma PieceOfRun(words: map<string, string>, white: set<string>, text: string, a: int, c: int, b: int, i: nat)
    requires OneRun(words.Keys, white, text, a, c, b) && i < |text|
    ensures Piece(words, AllMatches(white, text), text, i) ==
            if i == a then words[text[c..b + 1]] else if a < i <= b then "" else [text[i]]
  {
    CoveredIffWithin(words.Keys, white, text, a, c, b, i);
    JoinedIffWithin(words.Keys, white, text, a, c, b, i - 1);
    if i == a {
      RunEndsAt(words.Keys, white, text, a, c, b, i);
      WordAtEnd(words.Keys, white, text, a, c, b);
    }
  }

  /** A run of overlapping occurrences is replaced once, by the text of the longest of its words that
      end last, and the rest of the text is kept. */
  lemma RunReplaced(words: map<string, string>, white: set<string>, text: string, a: int, c: int, b: int)
    requires OneRun(words.Keys, white, text, a, c, b)
    ensures text[c..b + 1] in words
    ensures Clean(words, white, text) == text[..a] + words[text[c..b + 1]] + text[b + 1..]
  {
    var pieces := seq(|text|, i requires 0 <= i < |text| => Piece(words, AllMatches(white, text), text, i));
    forall i | 0 <= i < |text|
      ensures pieces[i] == if i == a then words[text[c..b + 1]] else if a < i <= b then "" else [text[i]]
    {
      PieceOfRun(words, white, text, a, c, b, i);
    }
    FlattenAround(pieces, text, a, b, words[text[c..b + 1]]);
  }

  /** In particular one that contains all others is replaced by the text of its word. */
  lemma OffenceReplaced(words: map<string, string>, white: set<string>, text: string, a: int, b: int)
    requires Offends(words.Keys, white, text, a, b)
    requires forall c, d :: Offends(words.Keys, white, text, c, d) ==> a <= c && d <= b
    ensures text[a..b + 1] in words
    ensures Clean(words, white, text) == text[..a] + words[text[a..b + 1]] + text[b + 1..]
  {
    RunReplaced(words, white, text, a, a, b);
  }

  /** One word stands for the positions a to b, all others contribute their runes. */
  ghost predicate OneWord(pieces: seq<string>, text: string, a: nat, b: nat, word: string) {
    && |pieces| == |text| && a <= b < |text|
    && forall i :: 0 <= i < |text| ==> pieces[i] == if i == a then word else if a < i <= b then "" else [text[i]]
  }

  lemma ThreePieces(pieces: seq<string>, a: nat, b: nat)
    requires a <= b < |pieces|
    ensures pieces == pieces[..a] + (pieces[a..b + 1] + pieces[b + 1..])
  {
  }

  lemma FlattenFront(pieces: seq<string>, text: string, a: nat, b: nat, word: string)
    requires OneWord(pieces, text, a, b, word)
    ensures Splicing.Flatten(pieces[..a]) == text[..a]
  {
    Splicing.FlattenRunes(pieces[..a], text[..a]);
  }

  lemma FlattenBack(pieces: seq<string>, text: string, a: nat, b: nat, word: string)
    requires OneWord(pieces, text, a, b, word)
    ensures Splicing.Flatten(pieces[b + 1..]) == text[b + 1..]
  {
    Splicing.FlattenRunes(pieces[b + 1..], text[b + 1..]);
  }

  lemma FlattenWord(pieces: seq<string>, text: string, a: nat, b: nat, word: string)
    requires OneWord(pieces, text, a, b, word)
    ensures Splicing.Flatten(pieces[a..b + 1]) == word
  {
    Splicing.FlattenFirst(pieces[a..b + 1], word);
  }

  lemma FlattenAround(pieces: seq<string>, text: string, a: nat, b: nat, word: string)
    requires OneWord(pieces, text, a, b, word)
    ensures Splicing.Flatten(pieces) == text[..a] + word + text[b + 1..]
  {
    ThreePieces(pieces, a, b);
    Splicing.FlattenAppend(pieces[..a], pieces[a..b + 1] + pieces[b + 1..]);
    Splicing.FlattenAppend(pieces[a..b + 1], pieces[b + 1..]);
    FlattenFront(pieces, text, a, b, word);
    FlattenWord(pieces, text, a, b, word);
    FlattenBack(pieces, text, a, b, word);
    Strings.Associative(text[..a], word, text[b + 1..]);
  }

  /** The dictionary that a list of insertions leaves behind. */
  ghost function Dictionary(entries: seq<(string, string)>): map<string, string> {
    if entries == [] then map[]
    else Dictionary(entries[..|entries| - 1])[entries[|entries| - 1].0 := entries[|entries| - 1].1]
  }

  /** Entry i is the last one for its word. */
  ghost predicate IsLastFor(entries: seq<(string, string)>, i: int) {
    0 <= i < |entries| && forall j :: i < j < |entries| ==> entries[j].0 != entries[i].0
  }

  lemma {:induction false} LastEntry(entries: seq<(string, string)>, w: string) returns (i: int)
    ensures w in Dictionary(entries) ==> IsLastFor(entries, i) && entries[i] == (w, Dictionary(entries)[w])
    ensures w !in Dictionary(entries) ==> forall j :: 0 <= j < |entries| ==> entries[j].0 != w
  {
    i := -1;
    if entries != [] {
      var n := |entries| - 1;
      if entries[n].0 == w {
        i := n;
      } else {
        i := LastEntry(entries[..n], w);
      }
    }
  }

  /** The dictionary has the words of the entries and no others, each with the text of its last
      entry. */
  lemma DictionaryIsLast(entries: seq<(string, string)>)
    ensures forall w :: w in Dictionary(entries) <==> exists i :: 0 <= i < |entries| && entries[i].0 == w
    ensures forall i :: IsLastFor(entries, i) ==>
      entries[i].0 in Dictionary(entries) && Dictionary(entries)[entries[i].0] == entries[i].1
  {
    forall w ensures w in Dictionary(entries) <==> exists i :: 0 <= i < |entries| && entries[i].0 == w {
      var i := LastEntry(entries, w);
      if w in Dictionary(entries) {
        assert entries[i].0 == w;
      }
    }
    forall i | IsLastFor(entries, i)
      ensures entries[i].0 in Dictionary(entries) && Dictionary(entries)[entries[i].0] == entries[i].1
    {
      var j := LastEntry(entries, entries[i].0);
      assert !(i < j) && !(j < i);
    }
  }

  /** Insert all entries and build the fail links. */
  method Load(entries: seq<(string, string)>) returns (ac: AhoCorasick)
    ensures ac.Ready() && fresh(ac) && fresh(ac.repr)
    ensures forall w :: w in ac.words <==> exists i :: 0 <= i < |entries| && entries[i].0 == w
    ensures forall i :: IsLastFor(entries, i) ==> ac.words[entries[i].0] == entries[i].1
  {
    ac := InsertAll(entries);
    ac.BuildFailPointer();
    DictionaryIsLast(entries);
  }

  method InsertAll(entries: seq<(string, string)>) returns (ac: AhoCorasick)
    ensures ac.Valid() && fresh(ac) && fresh(ac.repr)
    ensures ac.words == Dictionary(entries)
  {
    ac := new AhoCorasick();
    for i := 0 to |entries|
      invariant ac.Valid() && fresh(ac) && fresh(ac.repr)
      invariant ac.words == Dictionary(entries[..i])
    {
      assert entries[..i + 1][..i] == entries[..i];
      ac.Insert(entries[i].0, entries[i].1);
    }
    assert entries[..|entries|] == entries;
  }

  method FilterText(ac: AhoCorasick, wac: AhoCorasick, text: string) returns (result: string)
    requires ac.Ready() && wac.Ready()
    ensures result == Clean(ac.words, wac.words.Keys, text)
  {
    var positions; ghost var jumps;
    positions, jumps := wac.MatchPositions(text);
    result := ac.FilterWithWhitelist(text, positions);
  }

  method CheckWordIN(ac: AhoCorasick, wac: AhoCorasick, word: string) returns (result: string)
    requires ac.Ready() && wac.Ready()
    ensures word == "" ==> result == EMPTY_WORD
    ensures |word| > 5000 ==> result == if Strings.Contains(word, "[CQ:image,file=base64://") then word else TOO_LONG
    ensures 0 < |word| <= 5000 ==> result == Clean(ac.words, wac.words.Keys, word)
  {
    if word == "" {
      return EMPTY_WORD;
    }
    if |word| > MAX_RUNES {
      if Strings.Contains(word, IMAGE_MARK) {
        return word;
      }
      return TOO_LONG;
    }
    result := FilterText(ac, wac, word);
  }

  method CheckWordOUT(acout: AhoCorasick, wac: AhoCorasick, word: string) returns (result: string)
    requires acout.Ready() && wac.Ready()
    ensures word == "" ==> result == EMPTY_WORD
    ensures word != "" && Strings.Contains(word, "base64://") ==> result == word
    ensures |word| > 5000 && !Strings.Contains(word, "base64://") ==> result == TOO_LONG
    ensures 0 < |word| <= 5000 && !Strings.Contains(word, "base64://") ==>
              result == Clean(acout.words, wac.words.Keys, word)
  {
    if word == "" {
      return EMPTY_WORD;
    }
    if Strings.Contains(word, BASE64_MARK) {
      return word;
    }
    if |word| > MAX_RUNES {
      return TOO_LONG;
    }
    result := FilterText(acout, wac, word);
  }
}
