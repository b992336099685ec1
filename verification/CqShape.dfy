/** What the CQ codes of a text are, by position: the leftmost matches of an opening, anything but a
    closing bracket, and a closing bracket (handlers/message_parser.go). */
module CqShape {
  import opened Strings
  import opened CqCodes

  /** s[i..j] is a match of \[CQ:[^\]]*\] */
  ghost predicate IsCode(s: string, i: int, j: int) {
    && 0 <= i && i + 4 < j <= |s| && s[i..i + 4] == "[CQ:" && s[j - 1] == ']'
    && forall n :: i + 4 <= n < j - 1 ==> s[n] != ']'
  }

  ghost predicate NoCodeBefore(s: string, i: int) {
    forall a, b :: a < i ==> !IsCode(s, a, b)
  }

  lemma CodeInTail(s: string, i: int, j: int)
    requires s != "" && i > 0
    ensures IsCode(s, i, j) <==> IsCode(s[1..], i - 1, j - 1)
  {
    var t := s[1..];
    if 0 <= i && i + 4 < j <= |s| {
      assert s[i..i + 4] == t[i - 1..i + 3];
      assert forall n :: i + 4 <= n < j ==> s[n] == t[n - 1];
      assert forall n :: i + 3 <= n < j - 1 ==> t[n] == s[n + 1];
    }
  }

  lemma {:induction false} FirstIndex(t: string, c: char, m: nat)
    requires m < |t| && t[m] == c && forall k :: 0 <= k < m ==> t[k] != c
    ensures IndexOf(t, c) == Some(m)
  {
    if m > 0 {
      FirstIndex(t[1..], c, m - 1);
    }
  }

  lemma CodeAtStart(s: string, j: int)
    requires IsCode(s, 0, j)
    ensures OPEN <= s && IndexOf(s[4..], ']') == Some((j - 5) as nat)
  {
    assert s[..4] == s[0..4] == OPEN;
    FirstIndex(s[4..], ']', j - 5);
  }

  lemma StartIsCode(s: string)
    requires OPEN <= s && ']' in s[4..]
    ensures IsCode(s, 0, 4 + IndexOf(s[4..], ']').value + 1)
  {
    var t := s[4..];
    var n := IndexOf(t, ']').value;
    assert s[0..4] == s[..4] == OPEN;
    forall k | 4 <= k < n + 4 ensures s[k] != ']' {
      assert t[..n][k - 4] == s[k];
    }
  }

  /** The next code is the first match in the text, and there is none only if nothing matches. */
  lemma {:induction false} NextCodeIsFirst(s: string)
    ensures match NextCode(s)
            case None => forall i, j :: !IsCode(s, i, j)
            case Some((i, j)) => IsCode(s, i, j) && NoCodeBefore(s, i)
  {
    if s != "" {
      if OPEN <= s && ']' in s[4..] {
        StartIsCode(s);
      } else {
        NextCodeIsFirst(s[1..]);
        forall j ensures !IsCode(s, 0, j) {
          if IsCode(s, 0, j) {
            CodeAtStart(s, j);
          }
        }
        forall i, j | i > 0 ensures IsCode(s, i, j) <==> IsCode(s[1..], i - 1, j - 1) {
          CodeInTail(s, i, j);
        }
      }
    }
  }

  /** From the left: a part without a code beginning in it, a code, and so on; no code in what is
      left at the end. */
  ghost predicate CutAtCodes(s: string, segs: seq<string>, codes: seq<string>)
    decreases |codes|
  {
    && |segs| == |codes| + 1
    && if codes == [] then segs == [s] && forall i, j :: !IsCode(s, i, j)
       else
         var i, j := |segs[0]|, |segs[0]| + |codes[0]|;
         && IsCode(s, i, j) && NoCodeBefore(s, i) && s[..i] == segs[0] && s[i..j] == codes[0]
         && CutAtCodes(s[j..], segs[1..], codes[1..])
  }

  lemma CodeEndsOnce(s: string, i: int, j: int, k: int)
    requires IsCode(s, i, j) && IsCode(s, i, k)
    ensures j == k
  {
  }

  lemma FirstIsNext(s: string, i: int, j: int)
    requires IsCode(s, i, j) && NoCodeBefore(s, i)
    ensures NextCode(s) == Some((i as nat, j as nat))
  {
    NextCodeIsFirst(s);
    var (a, b) := NextCode(s).value;
    assert !(a < i) && !(i < a);
    CodeEndsOnce(s, i, j, b);
  }

  lemma CutStep(s: string, i: nat, j: nat, segs: seq<string>, codes: seq<string>)
    requires IsCode(s, i, j) && NoCodeBefore(s, i) && CutAtCodes(s[j..], segs, codes)
    ensures CutAtCodes(s, [s[..i]] + segs, [s[i..j]] + codes)
  {
    assert ([s[..i]] + segs)[1..] == segs && ([s[i..j]] + codes)[1..] == codes;
  }

  lemma {:induction false} PartsAreCut(s: string)
    ensures CutAtCodes(s, Segments(s), Codes(s))
    decreases |s|
  {
    NextCodeIsFirst(s);
    var next := NextCode(s);
    if next.Some? {
      var (i, j) := next.value;
      PartsAreCut(s[j..]);
      CutStep(s, i, j, Segments(s[j..]), Codes(s[j..]));
      PartsStep(s, i, j);
    }
  }

  lemma PartsStep(s: string, i: nat, j: nat)
    requires NextCode(s) == Some((i, j))
    ensures Segments(s) == [s[..i]] + Segments(s[j..]) && Codes(s) == [s[i..j]] + Codes(s[j..])
  {
  }

  lemma {:induction false} CutIsParts(s: string, segs: seq<string>, codes: seq<string>)
    requires CutAtCodes(s, segs, codes)
    ensures segs == Segments(s) && codes == Codes(s)
    decreases |codes|
  {
    if codes == [] {
      NextCodeIsFirst(s);
    } else {
      var i, j := |segs[0]|, |segs[0]| + |codes[0]|;
      FirstIsNext(s, i, j);
      CutIsParts(s[j..], segs[1..], codes[1..]);
      PartsStep(s, i, j);
      assert segs == [segs[0]] + segs[1..] && codes == [codes[0]] + codes[1..];
    }
  }

  /** The segments and codes of a text are what cutting it at its matches from the left gives. */
  lemma PartsIff(s: string, segs: seq<string>, codes: seq<string>)
    ensures CutAtCodes(s, segs, codes) <==> segs == Segments(s) && codes == Codes(s)
  {
    PartsAreCut(s);
    if CutAtCodes(s, segs, codes) {
      CutIsParts(s, segs, codes);
    }
  }

  lemma CodeInPiece(s: string, a: nat, b: nat, i: int, j: int)
    requires a <= b <= |s| && IsCode(s[a..b], i, j)
    ensures IsCode(s, a + i, a + j)
  {
    var t := s[a..b];
    SliceOfSlice(s, a, b, i, i + 4);
    assert forall n :: 0 <= n < b - a ==> t[n] == s[a + n];
    forall n | a + i + 4 <= n < a + j - 1 ensures s[n] != ']' {
      assert t[n - a] == s[n];
    }
  }

  lemma CodeOfPiece(s: string, i: int, j: int)
    requires IsCode(s, i, j)
    ensures IsCode(s[i..j], 0, j - i)
  {
    var t := s[i..j];
    assert t[0..4] == s[i..i + 4];
    assert forall n :: 0 <= n < j - i ==> t[n] == s[i + n];
  }

  lemma NoCodeInFront(s: string, i: nat)
    requires i <= |s| && NoCodeBefore(s, i)
    ensures forall a, b :: !IsCode(s[..i], a, b)
  {
    assert s[0..i] == s[..i];
    forall a, b ensures !IsCode(s[..i], a, b) {
      if IsCode(s[..i], a, b) {
        CodeInPiece(s, 0, i, a, b);
      }
    }
  }

  ghost predicate WholeCode(code: string) {
    IsCode(code, 0, |code|)
  }

  ghost predicate Codeless(seg: string) {
    forall i, j :: !IsCode(seg, i, j)
  }

  /** Each code is a match as a whole, and no segment holds one. */
  lemma {:induction false} CodesAreCodes(s: string)
    ensures forall k :: 0 <= k < |Codes(s)| ==> WholeCode(Codes(s)[k])
    ensures forall k :: 0 <= k < |Segments(s)| ==> Codeless(Segments(s)[k])
    decreases |s|
  {
    NextCodeIsFirst(s);
    var next := NextCode(s);
    if next.Some? {
      var (i, j) := next.value;
      CodesAreCodes(s[j..]);
      CodeOfPiece(s, i, j);
      NoCodeInFront(s, i);
      PartsStep(s, i, j);
      assert WholeCode(s[i..j]) && Codeless(s[..i]);
    } else {
      assert Codeless(s);
    }
  }
}
