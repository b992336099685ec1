/** strings.ReplaceAll of Go's library and how it behaves on concatenations. */
module Replacing {
  import opened Strings

  /** An empty `pat` matches before every character and at the end. */
  function Interleave(s: string, sub: string): string {
    if s == "" then sub else sub + [s[0]] + Interleave(s[1..], sub)
  }

  /** Replace the leftmost occurrence of `pat`, then go on behind it. */
  function ReplaceAll(s: string, pat: string, sub: string): string
    decreases |s|
  {
    if pat == "" then Interleave(s, sub)
    else if s == "" then ""
    else if pat <= s then sub + ReplaceAll(s[|pat|..], pat, sub)
    else [s[0]] + ReplaceAll(s[1..], pat, sub)
  }

  /** An occurrence of `pat` cannot lie across the border between a and b. */
  predicate Barrier(a: string, b: string, pat: string) {
    a == "" || b == "" || a[|a| - 1] !in pat || b[0] !in pat
  }

  lemma CrossingTouchesBoth(a: string, b: string, pat: string)
    requires a != "" && |pat| > |a| && pat <= a + b
    ensures b != "" && a[|a| - 1] in pat && b[0] in pat
  {
    assert pat[|a| - 1] == (a + b)[|a| - 1] && pat[|a|] == (a + b)[|a|];
  }

  lemma BarrierStopsOccurrence(a: string, b: string, pat: string)
    requires a != "" && Barrier(a, b, pat) && pat <= a + b
    ensures pat <= a
  {
    if |pat| > |a| {
      CrossingTouchesBoth(a, b, pat);
    }
  }

  lemma ReplaceFound(s: string, rest: string, pat: string, sub: string)
    requires pat != "" && s == pat + rest
    ensures ReplaceAll(s, pat, sub) == sub + ReplaceAll(rest, pat, sub)
  {
    assert s[|pat|..] == rest;
  }

  lemma ConcatFound(rest: string, b: string, pat: string, sub: string)
    requires pat != ""
    requires ReplaceAll(rest + b, pat, sub) == ReplaceAll(rest, pat, sub) + ReplaceAll(b, pat, sub)
    ensures ReplaceAll(pat + rest + b, pat, sub) == ReplaceAll(pat + rest, pat, sub) + ReplaceAll(b, pat, sub)
  {
    Associative(pat, rest, b);
    ReplaceFound(pat + (rest + b), rest + b, pat, sub);
    ReplaceFound(pat + rest, rest, pat, sub);
    Associative(sub, ReplaceAll(rest, pat, sub), ReplaceAll(b, pat, sub));
  }

  lemma ReplaceNext(s: string, rest: string, pat: string, sub: string)
    requires pat != "" && s != "" && s[1..] == rest && !(pat <= s)
    ensures ReplaceAll(s, pat, sub) == [s[0]] + ReplaceAll(rest, pat, sub)
  {
  }

  lemma TailOfConcat(a: string, b: string)
    requires a != ""
    ensures (a + b)[1..] == a[1..] + b && (a + b)[0] == a[0]
  {
  }

  lemma ConcatPassed(a: string, b: string, pat: string, sub: string)
    requires pat != "" && a != "" && !(pat <= a + b) && !(pat <= a)
    requires ReplaceAll(a[1..] + b, pat, sub) == ReplaceAll(a[1..], pat, sub) + ReplaceAll(b, pat, sub)
    ensures ReplaceAll(a + b, pat, sub) == ReplaceAll(a, pat, sub) + ReplaceAll(b, pat, sub)
  {
    TailOfConcat(a, b);
    ReplaceNext(a + b, a[1..] + b, pat, sub);
    ReplaceNext(a, a[1..], pat, sub);
    Associative([a[0]], ReplaceAll(a[1..], pat, sub), ReplaceAll(b, pat, sub));
  }

  lemma PrefixOfConcat(a: string, b: string, pat: string)
    requires pat <= a
    ensures pat <= a + b
  {
  }

  lemma {:induction false} ReplaceConcat(a: string, b: string, pat: string, sub: string)
    requires pat != "" && Barrier(a, b, pat)
    ensures ReplaceAll(a + b, pat, sub) == ReplaceAll(a, pat, sub) + ReplaceAll(b, pat, sub)
    decreases |a|
  {
    if a == "" {
      assert a + b == b;
    } else if pat <= a + b {
      BarrierStopsOccurrence(a, b, pat);
      var rest := a[|pat|..];
      ReplaceConcat(rest, b, pat, sub);
      ConcatFound(rest, b, pat, sub);
      assert pat + rest == a;
    } else {
      if pat <= a {
        PrefixOfConcat(a, b, pat);
      }
      ReplaceConcat(a[1..], b, pat, sub);
      ConcatPassed(a, b, pat, sub);
    }
  }

  /** Where `pat` does not occur nothing is replaced. */
  lemma {:induction false} ReplaceNothing(s: string, pat: string, sub: string)
    requires pat != "" && !Contains(s, pat)
    ensures ReplaceAll(s, pat, sub) == s
  {
    if s != "" {
      FoundAtStart(s, pat);
      if Contains(s[1..], pat) {
        ContainsTail(s, pat);
      }
      ReplaceNothing(s[1..], pat, sub);
    }
  }

  lemma FoundAtStart(s: string, t: string)
    ensures FoundAtIndex(s, t, 0) <==> t <= s
  {
    if t <= s {
      assert s[0..|t|] == t;
    }
  }

  lemma ContainsTail(s: string, t: string)
    requires s != "" && Contains(s[1..], t)
    ensures Contains(s, t)
  {
    var i :| 0 <= i <= |s[1..]| - |t| && FoundAtIndex(s[1..], t, i);
    assert s[1..][i..i + |t|] == s[i + 1..i + 1 + |t|];
    assert FoundAtIndex(s, t, i + 1);
  }

  lemma HeadBack(a: string, b: string)
    requires a != ""
    ensures [a[0]] + (a[1..] + b) == a + b
  {
  }

  /** Text without the first character of `pat` is passed over. */
  lemma {:induction false} ReplaceSkips(a: string, b: string, pat: string, sub: string)
    requires pat != "" && pat[0] !in a
    ensures ReplaceAll(a + b, pat, sub) == a + ReplaceAll(b, pat, sub)
  {
    if a == "" {
      assert a + b == b;
    } else {
      assert (a + b)[0] == a[0];
      assert (a + b)[1..] == a[1..] + b;
      ReplaceSkips(a[1..], b, pat, sub);
      HeadBack(a, ReplaceAll(b, pat, sub));
    }
  }

  /** Only characters of the text and of the replacement come out. */
  lemma {:induction false} ReplaceAlphabet(s: string, pat: string, sub: string, c: char)
    requires pat != "" && c !in s && c !in sub
    ensures c !in ReplaceAll(s, pat, sub)
    decreases |s|
  {
    if s != "" {
      if pat <= s {
        ReplaceAlphabet(s[|pat|..], pat, sub, c);
      } else {
        ReplaceAlphabet(s[1..], pat, sub, c);
      }
    }
  }

  /** A replaced occurrence leaves the whole replacement behind. */
  lemma {:induction false} ReplaceGrows(s: string, pat: string, sub: string)
    requires pat != "" && Contains(s, pat)
    ensures |ReplaceAll(s, pat, sub)| >= |sub|
    decreases |s|
  {
    if !(pat <= s) {
      var i :| 0 <= i <= |s| - |pat| && FoundAtIndex(s, pat, i);
      FoundAtStart(s, pat);
      if i > 0 {
        assert s[1..][i - 1..i - 1 + |pat|] == s[i..i + |pat|];
        assert FoundAtIndex(s[1..], pat, i - 1);
        ReplaceGrows(s[1..], pat, sub);
      }
    }
  }

  /** `pat` does not occur before index n. */
  predicate FirstFrom(s: string, pat: string, n: nat) {
    forall i :: 0 <= i < n ==> !FoundAtIndex(s, pat, i)
  }

  lemma FirstInTail(s: string, pat: string, n: nat)
    requires s != "" && n > 0 && FirstFrom(s, pat, n)
    ensures !(pat <= s) && FirstFrom(s[1..], pat, n - 1)
  {
    FoundAtStart(s, pat);
    forall i | 0 <= i < n - 1 ensures !FoundAtIndex(s[1..], pat, i) {
      FoundInTail(s, pat, i);
    }
  }

  lemma ReplacePassed(s: string, a: string, r: string, pat: string, sub: string)
    requires pat != "" && s != "" && a != "" && s[0] == a[0] && !(pat <= s)
    requires ReplaceAll(s[1..], pat, sub) == a[1..] + r
    ensures ReplaceAll(s, pat, sub) == a + r
  {
    HeadBack(a, r);
  }

  /** The leftmost occurrence is replaced, and what stands before it is kept. */
  lemma {:induction false} ReplaceLeftmost(a: string, b: string, pat: string, sub: string)
    requires pat != "" && FirstFrom(a + pat + b, pat, |a|)
    ensures ReplaceAll(a + pat + b, pat, sub) == a + (sub + ReplaceAll(b, pat, sub))
    decreases |a|
  {
    var s := a + pat + b;
    if a == "" {
      assert s == pat + b;
      ReplaceFound(s, b, pat, sub);
    } else {
      FirstInTail(s, pat, |a|);
      assert s[1..] == a[1..] + pat + b && s[0] == a[0];
      ReplaceLeftmost(a[1..], b, pat, sub);
      ReplacePassed(s, a, sub + ReplaceAll(b, pat, sub), pat, sub);
    }
  }

  lemma FoundInTail(s: string, t: string, i: int)
    requires s != "" && i >= 0
    ensures FoundAtIndex(s[1..], t, i) <==> FoundAtIndex(s, t, i + 1)
  {
    if i + 1 <= |s| - |t| {
      assert s[1..][i..i + |t|] == s[i + 1..i + 1 + |t|];
    }
  }

  /** An empty pattern puts the replacement before each character and behind the last. */
  lemma {:induction false} ReplaceEmpty(s: string, c: char, sub: string)
    ensures ReplaceAll("", "", sub) == sub
    ensures ReplaceAll(s + [c], "", sub) == ReplaceAll(s, "", sub) + [c] + sub
  {
    if s == "" {
      assert [c][1..] == "" && "" + [c] == [c];
    } else {
      assert (s + [c])[1..] == s[1..] + [c];
      ReplaceEmpty(s[1..], c, sub);
    }
  }
}
