/** The theory behind the automaton of acnode/acnode.go: the longest suffix of a text
    that is a path of a trie, and how it moves when one more rune is read. */
module Suffixes {

  function Parent(p: string): string
    requires p != ""
  {
    p[..|p| - 1]
  }

  function Last(p: string): char
    requires p != ""
  {
    p[|p| - 1]
  }

  function Extend(p: string, c: char): (q: string)
    ensures q != "" && Parent(q) == p && Last(q) == c
  {
    p + [c]
  }

  lemma ExtendTail(p: string, c: char)
    ensures Extend(p, c)[1..] == if p == "" then "" else Extend(p[1..], c)
  {
  }

  lemma Rejoin(p: string)
    requires p != ""
    ensures Extend(Parent(p), Last(p)) == p
  {
  }

  ghost function Prefixes(w: string): (r: set<string>)
    ensures w in r && "" in r
  {
    if w == "" then {""} else Prefixes(Parent(w)) + {w}
  }

  lemma {:induction false} PrefixesAreAll(w: string, p: string)
    ensures p in Prefixes(w) <==> p <= w
  {
    if w != "" {
      PrefixesAreAll(Parent(w), p);
      if |p| == |w| { assert p <= w ==> p == w; }
    }
  }

  /** The paths of a trie: they contain the root and are closed under dropping the last rune. */
  ghost predicate IsTrie(paths: set<string>) {
    "" in paths && forall p {:trigger Parent(p)} :: p in paths && p != "" ==> Parent(p) in paths
  }

  ghost predicate IsSuffix(t: string, s: string) {
    |t| <= |s| && t == s[|s| - |t|..]
  }

  /** The longest suffix of s among the paths (see LongestIsLongest). */
  ghost function Longest(paths: set<string>, s: string): (r: string)
    requires "" in paths
    ensures r in paths && |r| <= |s|
  {
    if s in paths then s else Longest(paths, s[1..])
  }

  lemma {:induction false} LongestIsLongest(paths: set<string>, s: string)
    requires "" in paths
    ensures Longest(paths, s) in paths && IsSuffix(Longest(paths, s), s)
    ensures forall t :: t in paths && IsSuffix(t, s) ==> IsSuffix(t, Longest(paths, s))
  {
    if s !in paths {
      LongestIsLongest(paths, s[1..]);
      var r := Longest(paths, s[1..]);
      assert r == s[1..][|s[1..]| - |r|..] == s[|s| - |r|..];
      forall t | t in paths && IsSuffix(t, s) ensures IsSuffix(t, r) {
        assert |t| < |s|;
        assert t == s[1..][|s[1..]| - |t|..];
      }
    }
  }

  /** Reading a rune only needs the longest suffix of what was read before. */
  lemma {:induction false} LongestStep(paths: set<string>, s: string, c: char)
    requires IsTrie(paths)
    ensures Longest(paths, Extend(s, c)) == Longest(paths, Extend(Longest(paths, s), c))
  {
    if s !in paths {
      assert Parent(Extend(s, c)) == s;
      ExtendTail(s, c);
      LongestStep(paths, s[1..], c);
    }
  }

  /** The walk over fail links that the goto loop makes for rune c from path s. */
  ghost function Jumps(paths: set<string>, s: string, c: char): nat
    requires "" in paths
    decreases |s|
  {
    if Extend(s, c) in paths || s == "" then 0
    else
      1 + Jumps(paths, Longest(paths, s[1..]), c)
  }

  /** One fail link keeps the answer: when s has no child c, the search goes on at the
      longest proper suffix of s. */
  lemma FailStep(paths: set<string>, s: string, c: char)
    requires IsTrie(paths) && s in paths && s != "" && Extend(s, c) !in paths
    ensures |Longest(paths, s[1..])| < |s|
    ensures Longest(paths, Extend(s, c)) == Longest(paths, Extend(Longest(paths, s[1..]), c))
    ensures Jumps(paths, s, c) == 1 + Jumps(paths, Longest(paths, s[1..]), c)
  {
    ExtendTail(s, c);
    LongestStep(paths, s[1..], c);
  }

  /** Where the search ends: at a node with a child c, or at the root. */
  lemma Arrive(paths: set<string>, s: string, c: char)
    requires "" in paths && (Extend(s, c) in paths || s == "")
    ensures Longest(paths, Extend(s, c)) == if Extend(s, c) in paths then Extend(s, c) else ""
    ensures Jumps(paths, s, c) == 0
  {
    if Extend(s, c) !in paths {
      ExtendTail(s, c);
    }
  }

  ghost function TotalJumps(paths: set<string>, text: string): nat
    requires "" in paths
  {
    if text == "" then 0
    else
      var before := text[..|text| - 1];
      TotalJumps(paths, before) + Jumps(paths, Longest(paths, before), text[|text| - 1])
  }

  /** Every jump lowers the depth by at least one. */
  lemma {:induction false} JumpsLowerDepth(paths: set<string>, s: string, c: char)
    requires IsTrie(paths) && s in paths
    ensures Jumps(paths, s, c) + |Longest(paths, Extend(s, c))| <= |s| + 1
    decreases |s|
  {
    if Extend(s, c) !in paths {
      if s == "" {
        Arrive(paths, s, c);
      } else {
        FailStep(paths, s, c);
        JumpsLowerDepth(paths, Longest(paths, s[1..]), c);
      }
    }
  }

  /** Amortised bound: reading a whole text follows at most one fail link per rune. */
  lemma {:induction false} TotalJumpsBounded(paths: set<string>, text: string)
    requires IsTrie(paths)
    ensures TotalJumps(paths, text) + |Longest(paths, text)| <= |text|
  {
    if text != "" {
      var before, c := text[..|text| - 1], text[|text| - 1];
      TotalJumpsBounded(paths, before);
      LongestIsLongest(paths, before);
      JumpsLowerDepth(paths, Longest(paths, before), c);
      assert text == Extend(before, c);
      LongestStep(paths, before, c);
    }
  }
}
