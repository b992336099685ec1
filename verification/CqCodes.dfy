/** CQ codes in a text: the matches of the pattern that the masking code of
    handlers/message_parser.go uses, and texts as alternations of segments and fillers. */
module CqCodes {
  import opened Strings

  const OPEN := "[CQ:"

  function IndexOf(s: string, c: char): (r: Option<nat>)
    ensures r.Some? ==> r.value < |s| && s[r.value] == c && c !in s[..r.value]
    ensures r.None? ==> c !in s
  {
    if s == "" then None
    else if s[0] == c then Some(0)
    else
      match IndexOf(s[1..], c)
      case None => None
      case Some(i) =>
        assert s[..i + 1] == [s[0]] + s[1..][..i];
        Some(i + 1)
  }

  /** The leftmost CQ code: an opening, then everything up to the next closing bracket. */
  function NextCode(s: string): (r: Option<(nat, nat)>)
    ensures r.Some? ==> r.value.0 < r.value.1 <= |s|
  {
    if s == "" then None
    else if OPEN <= s && ']' in s[4..] then Some((0, 4 + IndexOf(s[4..], ']').value + 1))
    else
      var next := NextCode(s[1..]);
      if next.None? then None else Some((next.value.0 + 1, next.value.1 + 1))
  }

  /** The texts between the codes of s, one more than there are codes. */
  function Segments(s: string): (segs: seq<string>)
    ensures |segs| == |Codes(s)| + 1
    decreases |s|, 0
  {
    var next := NextCode(s);
    if next.None? then [s] else [s[..next.value.0]] + Segments(s[next.value.1..])
  }

  function Codes(s: string): seq<string>
    decreases |s|, 0
  {
    var next := NextCode(s);
    if next.None? then [] else [s[next.value.0..next.value.1]] + Codes(s[next.value.1..])
  }

  /** segs[0] + fillers[0] + segs[1] + ... + segs[n] + tail */
  function Weave(segs: seq<string>, fillers: seq<string>, tail: string): string
    requires |segs| == |fillers| + 1
    decreases |fillers|
  {
    if fillers == [] then segs[0] + tail
    else segs[0] + fillers[0] + Weave(segs[1..], fillers[1..], tail)
  }

  lemma ThreePieces(s: string, i: nat, j: nat)
    requires i <= j <= |s|
    ensures s[..i] + s[i..j] + s[j..] == s
  {
  }

  lemma WeaveOfHead(segs: seq<string>, fillers: seq<string>, seg: string, filler: string, tail: string)
    requires |segs| == |fillers| + 1
    ensures Weave([seg] + segs, [filler] + fillers, tail) == seg + filler + Weave(segs, fillers, tail)
  {
    assert ([seg] + segs)[1..] == segs && ([filler] + fillers)[1..] == fillers;
  }

  /** A text is its segments woven with its codes. */
  lemma {:induction false} WeaveOfParts(s: string)
    ensures Weave(Segments(s), Codes(s), "") == s
    decreases |s|
  {
    var next := NextCode(s);
    if next.None? {
      assert Segments(s) == [s] && s + "" == s;
    } else {
      var (i, j) := next.value;
      WeaveOfParts(s[j..]);
      WeaveOfHead(Segments(s[j..]), Codes(s[j..]), s[..i], s[i..j], "");
      ThreePieces(s, i, j);
    }
  }

  /** Every segment and every code is a piece of the text. */
  lemma {:induction false} PartsInText(s: string)
    ensures forall k :: 0 <= k < |Segments(s)| ==> Contains(s, Segments(s)[k])
    ensures forall k :: 0 <= k < |Codes(s)| ==> Contains(s, Codes(s)[k])
    decreases |s|
  {
    var next := NextCode(s);
    if next.None? {
      assert FoundAtIndex(s, s, 0);
    } else {
      var (i, j) := next.value;
      PartsInText(s[j..]);
      assert FoundAtIndex(s, s[..i], 0) && FoundAtIndex(s, s[i..j], i);
      forall k | 0 <= k < |Segments(s)| ensures Contains(s, Segments(s)[k]) {
        if k > 0 {
          PieceOfRest(s, j, Segments(s[j..])[k - 1]);
        }
      }
      forall k | 0 <= k < |Codes(s)| ensures Contains(s, Codes(s)[k]) {
        if k > 0 {
          PieceOfRest(s, j, Codes(s[j..])[k - 1]);
        }
      }
    }
  }

  lemma PieceOfRest(s: string, j: nat, t: string)
    requires j <= |s| && Contains(s[j..], t)
    ensures Contains(s, t)
  {
    var i :| 0 <= i <= |s[j..]| - |t| && FoundAtIndex(s[j..], t, i);
    assert s[j..][i..i + |t|] == s[j + i..j + i + |t|];
    assert FoundAtIndex(s, t, j + i);
  }

  lemma SliceOfSlice(s: string, a: nat, b: nat, c: nat, d: nat)
    requires c <= d <= b - a && a <= b <= |s|
    ensures s[a..b][c..d] == s[a + c..a + d]
  {
    var x, y := s[a..b][c..d], s[a + c..a + d];
    forall k | 0 <= k < d - c ensures x[k] == y[k] {
      assert x[k] == s[a..b][c + k];
    }
  }

  lemma PieceOfPiece(s: string, t: string, u: string)
    requires Contains(s, t) && Contains(t, u)
    ensures Contains(s, u)
  {
    var i :| 0 <= i <= |s| - |t| && FoundAtIndex(s, t, i);
    var j :| 0 <= j <= |t| - |u| && FoundAtIndex(t, u, j);
    SliceOfSlice(s, i, i + |t|, j, j + |u|);
    assert FoundAtIndex(s, u, i + j);
  }

  lemma CharOfPiece(s: string, t: string, c: char)
    requires Contains(s, t) && c in t
    ensures c in s
  {
    var i :| 0 <= i <= |s| - |t| && FoundAtIndex(s, t, i);
    var j :| 0 <= j < |t| && t[j] == c;
    assert s[i..i + |t|][j] == s[i + j];
  }
}
