/** A bot ID that can complete a placeholder name defeats the masking: an exact condition. */
module CqCompletion {
  import opened Strings
  import opened Decimals
  import opened Replacing
  import opened CqCodes
  import opened CqMask
  import opened CqProtection

  // ---- a segment that the replacement turns into a placeholder name

  function Rest(botID: string, k: nat, i: nat): string
    requires i <= |Name(k)| && botID <= Name(k)[i..]
  {
    Name(k)[i..][|botID|..]
  }

  /** The k-th name with the application ID where the bot ID fits. */
  function Broken(appID: string, botID: string, k: nat, i: nat): string
    requires i < |MARK| && botID <= Name(k)[i..]
  {
    MARK[..i] + (appID + Rest(botID, k, i))
  }

  predicate NameChar(c: char) {
    c in MARK || IsDigit(c)
  }

  lemma NameChars(k: nat, x: nat)
    requires x < |Name(k)|
    ensures NameChar(Name(k)[x]) && (x > 0 ==> Name(k)[x] != MARK[0])
  {
    assert Name(k)[x] == if x < |MARK| then MARK[x] else Numeral(k)[x - |MARK|];
    assert !IsDigit(MARK[0]);
  }

  lemma MarkHasNoDigit(c: char)
    requires IsDigit(c)
    ensures c !in MARK
  {
  }

  /** The tail of a name does not contain an ID that its number does not contain. */
  lemma RestLacks(appID: string, botID: string, k: nat, i: nat)
    requires IsNumber(appID) && !Contains(Numeral(k), appID) && i <= |Name(k)| && botID <= Name(k)[i..]
    ensures !Contains(Rest(botID, k, i), appID)
  {
    var from, ph := i + |botID|, Placeholder(k);
    if Contains(Rest(botID, k, i), appID) {
      assert Rest(botID, k, i) == Name(k)[from..];
      SliceOfSlice(ph, 1, |ph| - 1, from, |Name(k)|);
      assert ph[1..|ph| - 1] == Name(k);
      assert FoundAtIndex(ph, Name(k)[from..], 1 + from);
      PieceOfPiece(ph, Rest(botID, k, i), appID);
      OccursInNumber(appID, k);
    }
  }

  lemma ReplaceFront(appID: string, rest: string, botID: string)
    requires appID != "" && !Contains(rest, appID)
    ensures ReplaceAll(appID + rest, appID, botID) == botID + rest
  {
    ReplaceFound(appID + rest, rest, appID, botID);
    ReplaceNothing(rest, appID, botID);
  }

  lemma NameParts(botID: string, k: nat, i: nat)
    requires i < |MARK| && botID <= Name(k)[i..]
    ensures Name(k) == MARK[..i] + (botID + Rest(botID, k, i))
  {
    assert Name(k)[..i] == MARK[..i] && botID + Rest(botID, k, i) == Name(k)[i..];
  }

  lemma BrokenCompleted(appID: string, botID: string, k: nat, i: nat)
    requires IsNumber(appID) && !Contains(Numeral(k), appID) && i < |MARK| && botID <= Name(k)[i..]
    ensures ReplaceAll(Broken(appID, botID, k, i), appID, botID) == Name(k)
  {
    var rest := Rest(botID, k, i);
    MarkHasNoDigit(appID[0]);
    ReplaceSkips(MARK[..i], appID + rest, appID, botID);
    RestLacks(appID, botID, k, i);
    ReplaceFront(appID, rest, botID);
    NameParts(botID, k, i);
  }

  lemma BrokenChars(appID: string, botID: string, k: nat, i: nat, x: nat)
    requires IsNumber(appID) && i < |MARK| && botID <= Name(k)[i..] && i + |botID| > 0
    requires x < |Broken(appID, botID, k, i)|
    ensures NameChar(Broken(appID, botID, k, i)[x])
    ensures i <= x < i + |appID| ==> IsDigit(Broken(appID, botID, k, i)[x])
    ensures x >= i + |appID| ==> Broken(appID, botID, k, i)[x] != MARK[0]
  {
    if x < i {
      assert Broken(appID, botID, k, i)[x] == MARK[x];
    } else if x < i + |appID| {
      assert Broken(appID, botID, k, i)[x] == appID[x - i];
    } else {
      var y := x - |appID| + |botID|;
      assert Broken(appID, botID, k, i)[x] == Rest(botID, k, i)[x - i - |appID|] == Name(k)[y];
      NameChars(k, y);
    }
  }

  lemma BrokenLacksMark(appID: string, botID: string, k: nat, i: nat)
    requires IsNumber(appID) && i < |MARK| && botID <= Name(k)[i..] && i + |botID| > 0
    ensures !Contains(Broken(appID, botID, k, i), MARK)
  {
    var seg := Broken(appID, botID, k, i);
    forall p | 0 <= p <= |seg| - |MARK| ensures !FoundAtIndex(seg, MARK, p) {
      if p < i + |appID| {
        var x := if p < i then i else p;
        BrokenChars(appID, botID, k, i, x);
        MarkHasNoDigit(seg[x]);
        assert seg[p..p + |MARK|][x - p] == seg[x];
      } else {
        BrokenChars(appID, botID, k, i, p);
        assert seg[p..p + |MARK|][0] == seg[p];
      }
    }
  }

  // ---- the text: codes, the segment, one more code

  ghost predicate NextAt(s: string, i: nat, j: nat) {
    NextCode(s) == Some((i, j))
  }

  lemma NextInTail(s: string, rest: string, i: nat, j: nat, k: nat, l: nat)
    requires s != "" && s[0] != '[' && s[1..] == rest && NextAt(rest, i, j) && k == i + 1 && l == j + 1
    ensures NextAt(s, k, l)
  {
    assert OPEN[0] == '[';
  }

  lemma NextBehind(seg: string, t: string)
    requires '[' !in seg && NextCode(t).Some?
    ensures NextCode(seg + t) == Some((|seg| + NextCode(t).value.0, |seg| + NextCode(t).value.1))
  {
    NextMoves(seg, t, NextCode(t).value.0, NextCode(t).value.1);
  }

  lemma NothingBehind(t: string)
    ensures "" + t == t
  {
  }

  lemma {:induction false} NextMoves(seg: string, t: string, i: nat, j: nat)
    requires '[' !in seg && NextAt(t, i, j)
    ensures NextAt(seg + t, |seg| + i, |seg| + j)
    decreases |seg|
  {
    if seg == "" {
      NothingBehind(t);
    } else {
      NextMoves(seg[1..], t, i, j);
      TailOfConcat(seg, t);
      NextInTail(seg + t, seg[1..] + t, |seg[1..]| + i, |seg[1..]| + j, |seg| + i, |seg| + j);
    }
  }

  lemma PartsBehind(seg: string)
    requires '[' !in seg
    ensures Segments(seg + BARE_CODE) == [seg, ""] && Codes(seg + BARE_CODE) == [BARE_CODE]
  {
    var s := seg + BARE_CODE;
    NextBare("");
    assert BARE_CODE + "" == BARE_CODE;
    NextBehind(seg, BARE_CODE);
    assert s[..|seg|] == seg && s[|seg|..|seg| + 5] == BARE_CODE && s[|seg| + 5..] == "";
    assert Segments("") == [""] && Codes("") == [];
  }

  lemma BareInFront(t: string)
    ensures Segments(BARE_CODE + t) == [""] + Segments(t) && Codes(BARE_CODE + t) == [BARE_CODE] + Codes(t)
  {
    NextBare(t);
  }

  lemma OneMore(m: nat, s: string, t: seq<string>)
    requires m > 0
    ensures [s] + (Repeat(m - 1, s) + t) == Repeat(m, s) + t
  {
  }

  lemma {:induction false} PartsBehindBare(m: nat, t: string)
    ensures Segments(Bare(m) + t) == Repeat(m, "") + Segments(t)
    ensures Codes(Bare(m) + t) == Repeat(m, BARE_CODE) + Codes(t)
  {
    if m == 0 {
      assert "" + t == t;
    } else {
      PartsBehindBare(m - 1, t);
      Associative(BARE_CODE, Bare(m - 1), t);
      BareInFront(Bare(m - 1) + t);
      OneMore(m, "", Segments(t));
      OneMore(m, BARE_CODE, Codes(t));
    }
  }

  ghost function Spoiler(m: nat, seg: string): string {
    Bare(m) + (seg + BARE_CODE)
  }

  lemma SpoilerParts(m: nat, seg: string)
    requires '[' !in seg
    ensures Segments(Spoiler(m, seg)) == Repeat(m, "") + [seg, ""]
    ensures Codes(Spoiler(m, seg)) == Repeat(m + 1, BARE_CODE)
  {
    PartsBehind(seg);
    PartsBehindBare(m, seg + BARE_CODE);
    assert Repeat(m, BARE_CODE) + [BARE_CODE] == Repeat(m + 1, BARE_CODE);
  }

  lemma {:induction false} BareLength(m: nat)
    ensures |Bare(m)| == 5 * m && (m > 0 ==> Bare(m)[|Bare(m)| - 1] == ']')
  {
    if m > 0 {
      BareLength(m - 1);
    }
  }

  lemma CharsOfFound(s: string, t: string, p: int)
    requires FoundAtIndex(s, t, p)
    ensures forall y :: p <= y < p + |t| ==> s[y] in t
  {
    forall y | p <= y < p + |t| ensures s[y] in t {
      assert s[y] == s[p..p + |t|][y - p];
    }
  }

  lemma MarkAvoids(text: string, p: int, q: int)
    requires FoundAtIndex(text, MARK, p) && 0 <= q < |text| && text[q] !in MARK
    ensures q < p || p + |MARK| <= q
  {
    CharsOfFound(text, MARK, p);
  }

  lemma MarkWithin(text: string, p: int, from: nat, to: nat)
    requires FoundAtIndex(text, MARK, p) && 0 < from <= to < |text| && text[from - 1] == ']' && text[to] == '['
    requires forall x :: 0 <= x < |text| && text[x] == '_' ==> from <= x < to
    ensures from <= p && p + |MARK| <= to
  {
    assert text[p + 2] == text[p..p + |MARK|][2] == '_';
    MarkAvoids(text, p, from - 1);
    MarkAvoids(text, p, to);
  }

  lemma SpoilerIsClean(m: nat, seg: string)
    requires m > 0 && !Contains(seg, MARK) && forall x :: 0 <= x < |seg| ==> NameChar(seg[x])
    ensures CleanText(Spoiler(m, seg))
  {
    var text, from, to := Spoiler(m, seg), |Bare(m)|, |Bare(m)| + |seg|;
    BareAlphabet(m);
    BareLength(m);
    assert text[from..to] == seg;
    assert forall x :: 0 <= x < |text| ==>
      text[x] == if x < from then Bare(m)[x] else if x < to then seg[x - from] else BARE_CODE[x - to];
    if Contains(text, MARK) {
      var p :| 0 <= p <= |text| - |MARK| && FoundAtIndex(text, MARK, p);
      MarkWithin(text, p, from, to);
      FoundInPiece(text, MARK, p, from, to);
    }
  }

  lemma FoundInPiece(text: string, t: string, p: int, from: nat, to: nat)
    requires FoundAtIndex(text, t, p) && from <= p && p + |t| <= to <= |text|
    ensures Contains(text[from..to], t)
  {
    SliceOfSlice(text, from, to, p - from, p - from + |t|);
    assert FoundAtIndex(text[from..to], t, p - from);
  }

  // ---- what becomes of it

  ghost function Flawed(k: nat): seq<string> {
    Repeat(k + 2, "") + [Name(k), ""]
  }

  lemma SpoilerSegments(appID: string, botID: string, k: nat, seg: string)
    requires appID != "" && ReplaceAll(seg, appID, botID) == Name(k)
    ensures ReplaceEach(Repeat(k + 2, "") + [seg, ""], appID, botID) == Flawed(k)
  {
  }

  lemma SpoilerReplaced(appID: string, botID: string, k: nat, seg: string)
    requires IsNumber(appID) && Avoids(appID, k + 3) && '[' !in seg && ReplaceAll(seg, appID, botID) == Name(k)
    ensures ReplaceAll(Masked(Spoiler(k + 2, seg)), appID, botID) == Weave(Flawed(k), Placeholders(0, k + 3), "")
    ensures ReplaceOutside(Spoiler(k + 2, seg), appID, botID) == Weave(Flawed(k), Repeat(k + 3, BARE_CODE), "")
  {
    var segs := Repeat(k + 2, "") + [seg, ""];
    SpoilerParts(k + 2, seg);
    NumberHasNoNul(appID);
    PlaceholdersImmune(appID, k + 3);
    ReplaceWoven(segs, Placeholders(0, k + 3), "", appID, botID);
    SpoilerSegments(appID, botID, k, seg);
  }

  lemma NothingRepeated(x: string, s: seq<string>)
    ensures Repeat(0, x) + s == s
  {
  }

  lemma {:induction false} WeaveBehindBare(m: nat, segs: seq<string>, fillers: seq<string>)
    requires |segs| == |fillers| + 1
    ensures Weave(Repeat(m, "") + segs, Repeat(m, BARE_CODE) + fillers, "") == Bare(m) + Weave(segs, fillers, "")
  {
    if m == 0 {
      NothingRepeated("", segs);
      NothingRepeated(BARE_CODE, fillers);
    } else {
      WeaveBehindBare(m - 1, segs, fillers);
      OneMore(m, "", segs);
      OneMore(m, BARE_CODE, fillers);
      WeaveOfHead(Repeat(m - 1, "") + segs, Repeat(m - 1, BARE_CODE) + fillers, "", BARE_CODE, "");
      Associative(BARE_CODE, Bare(m - 1), Weave(segs, fillers, ""));
    }
  }

  lemma WeaveOfThree(a: string, b: string, c: string, d: string, x: string, y: string, z: string)
    ensures Weave([a, b, c, d], [x, y, z], "") == a + x + (b + y + (c + z + d))
  {
    WeaveOfHead([b, c, d], [y, z], a, x, "");
    WeaveOfHead([c, d], [z], b, y, "");
    WeaveOfHead([d], [], c, z, "");
    assert Weave([d], [], "") == d;
  }

  /** The last three placeholders with the false name between the last two. */
  ghost function Knot(k: nat): string {
    Placeholder(k) + (Placeholder(k + 1) + (Name(k) + Placeholder(k + 2)))
  }

  lemma KnotWoven(k: nat)
    ensures Weave(Flawed(k), Repeat(k, BARE_CODE) + Placeholders(k, 3), "") == Bare(k) + Knot(k)
  {
    assert Flawed(k) == Repeat(k, "") + ["", "", Name(k), ""];
    assert Placeholders(k, 3) == [Placeholder(k), Placeholder(k + 1), Placeholder(k + 2)];
    WeaveBehindBare(k, ["", "", Name(k), ""], Placeholders(k, 3));
    WeaveOfThree("", "", Name(k), "", Placeholder(k), Placeholder(k + 1), Placeholder(k + 2));
    assert "" + Placeholder(k) == Placeholder(k) && "" + Placeholder(k + 1) == Placeholder(k + 1);
    assert Name(k) + Placeholder(k + 2) + "" == Name(k) + Placeholder(k + 2);
  }

  lemma FlawedApart(k: nat, j: nat)
    requires j < k
    ensures ApartAfter(Flawed(k), "", j)
  {
    if Name(j) == Name(k) {
      NameInjective(j, k);
    }
    assert Name(j) != "";
  }

  lemma FirstRestored(k: nat, codes: seq<string>)
    requires codes == Repeat(k + 3, BARE_CODE)
    ensures Unmask(Weave(Flawed(k), Placeholders(0, k + 3), ""), codes, k) == Bare(k) + Knot(k)
  {
    NameHasNoNul(k);
    assert NUL !in BARE_CODE;
    forall j: nat {:trigger ApartAfter(Flawed(k), "", j)} | j < k
      ensures ApartAfter(Flawed(k), "", j) && Settled("", j, codes[j])
    {
      FlawedApart(k, j);
    }
    RestoreFirst(Flawed(k), codes, k + 3, "", k);
    assert codes[..k] == Repeat(k, BARE_CODE);
    KnotWoven(k);
  }

  /** What is left of the names of the last two placeholders, with a code between. */
  ghost function Debris(k: nat): string {
    Name(k + 1) + (BARE_CODE + Name(k + 2))
  }

  lemma KnotSpelled(k: nat)
    ensures Knot(k) == Placeholder(k) + ([NUL] + (Name(k + 1) + (Placeholder(k) + (Name(k + 2) + [NUL]))))
  {
  }

  lemma DebrisSpelled(k: nat)
    ensures BARE_CODE + ([NUL] + (Name(k + 1) + (BARE_CODE + (Name(k + 2) + [NUL])))) ==
      BARE_CODE + ([NUL] + Debris(k) + [NUL])
  {
  }

  lemma ReplaceHead(k: nat, t: string)
    ensures ReplaceAll(Placeholder(k) + t, Placeholder(k), BARE_CODE) ==
      BARE_CODE + ReplaceAll(t, Placeholder(k), BARE_CODE)
  {
    assert (Placeholder(k) + t)[|Placeholder(k)|..] == t;
  }

  /** The false name between a closing and an opening NUL is taken for the placeholder. */
  lemma KnotCut(k: nat)
    ensures ReplaceAll(Knot(k), Placeholder(k), BARE_CODE) == BARE_CODE + ([NUL] + Debris(k) + [NUL])
  {
    var ph := Placeholder(k);
    var last := Name(k + 2) + [NUL];
    NameHasNoNul(k);
    NameHasNoNul(k + 1);
    NameHasNoNul(k + 2);
    if Name(k + 1) == Name(k) {
      NameInjective(k + 1, k);
    }
    KnotSpelled(k);
    ReplaceHead(k, [NUL] + (Name(k + 1) + (ph + last)));
    NoFalseStart(Name(k + 1), ph + last, Name(k));
    NulStep(Name(k + 1) + (ph + last), k, BARE_CODE);
    ReplaceSkips(Name(k + 1), ph + last, ph, BARE_CODE);
    ReplaceHead(k, last);
    ReplaceSkips(Name(k + 2), [NUL], ph, BARE_CODE);
    LoneNul(k);
    DebrisSpelled(k);
  }

  lemma LoneNul(k: nat)
    ensures ReplaceAll([NUL], Placeholder(k), BARE_CODE) == [NUL]
  {
    assert [NUL][1..] == "";
    assert |Placeholder(k)| > 1;
  }

  lemma NameHasNoBracket(k: nat)
    ensures '[' !in Name(k)
  {
    forall x | 0 <= x < |Name(k)| ensures Name(k)[x] != '[' {
      NameChars(k, x);
    }
  }

  lemma DebrisIsNoName(k: nat, j: nat)
    ensures NUL !in Debris(k) && Debris(k) != Name(j)
  {
    NameHasNoNul(k + 1);
    NameHasNoNul(k + 2);
    NameHasNoBracket(j);
    assert NUL !in BARE_CODE;
    assert Debris(k)[|Name(k + 1)|] == BARE_CODE[0];
  }

  lemma DebrisStays(k: nat, j: nat)
    ensures Untouched(Bare(k + 1) + ([NUL] + Debris(k) + [NUL]), j, BARE_CODE)
  {
    DebrisIsNoName(k, j);
    PassChunk(Debris(k), "", j, BARE_CODE);
    assert [NUL] + Debris(k) + [NUL] + "" == [NUL] + Debris(k) + [NUL];
    BareAlphabet(k + 1);
    ReplaceSkips(Bare(k + 1), [NUL] + Debris(k) + [NUL], Placeholder(j), BARE_CODE);
  }

  lemma {:induction false} BareAtEnd(k: nat)
    ensures Bare(k + 1) == Bare(k) + BARE_CODE
  {
    if k > 0 {
      BareAtEnd(k - 1);
      Associative(BARE_CODE, Bare(k - 1), BARE_CODE);
    }
  }

  lemma UnmaskStep(masked: string, codes: seq<string>, j: nat)
    requires j < |codes|
    ensures Unmask(masked, codes, j + 1) == ReplaceAll(Unmask(masked, codes, j), Placeholder(j), codes[j])
  {
  }

  lemma KnotStep(k: nat)
    ensures ReplaceAll(Bare(k) + Knot(k), Placeholder(k), BARE_CODE) == Bare(k + 1) + ([NUL] + Debris(k) + [NUL])
  {
    BareAlphabet(k);
    ReplaceSkips(Bare(k), Knot(k), Placeholder(k), BARE_CODE);
    KnotCut(k);
    BareAtEnd(k);
    Associative(Bare(k), BARE_CODE, [NUL] + Debris(k) + [NUL]);
  }

  /** In the end the text still holds NULs. */
  lemma KnotLeft(k: nat, codes: seq<string>, masked: string)
    requires codes == Repeat(k + 3, BARE_CODE) && masked == Weave(Flawed(k), Placeholders(0, k + 3), "")
    ensures Unmask(masked, codes, k + 3) == Bare(k + 1) + ([NUL] + Debris(k) + [NUL])
  {
    FirstRestored(k, codes);
    UnmaskStep(masked, codes, k);
    KnotStep(k);
    UnmaskStep(masked, codes, k + 1);
    DebrisStays(k, k + 1);
    UnmaskStep(masked, codes, k + 2);
    DebrisStays(k, k + 2);
  }

  lemma {:induction false} WeaveNulFree(segs: seq<string>, fillers: seq<string>)
    requires |segs| == |fillers| + 1 && NulFree(segs) && NulFree(fillers)
    ensures NUL !in Weave(segs, fillers, "")
    decreases |fillers|
  {
    if fillers != [] {
      WeaveNulFree(segs[1..], fillers[1..]);
    }
  }

  lemma SpoilerShows(appID: string, botID: string, k: nat, seg: string)
    requires IsNumber(appID) && Avoids(appID, k + 3) && '[' !in seg && ReplaceAll(seg, appID, botID) == Name(k)
    ensures NUL in MaskReplaceUnmask(Spoiler(k + 2, seg), appID, botID)
  {
    SpoilerParts(k + 2, seg);
    SpoilerReplaced(appID, botID, k, seg);
    KnotLeft(k, Repeat(k + 3, BARE_CODE), Weave(Flawed(k), Placeholders(0, k + 3), ""));
    NulShows(Bare(k + 1), Debris(k));
  }

  lemma SpoilerDirect(appID: string, botID: string, k: nat, seg: string)
    requires IsNumber(appID) && Avoids(appID, k + 3) && '[' !in seg && ReplaceAll(seg, appID, botID) == Name(k)
    ensures NUL !in ReplaceOutside(Spoiler(k + 2, seg), appID, botID)
  {
    SpoilerReplaced(appID, botID, k, seg);
    NameHasNoNul(k);
    assert NUL !in BARE_CODE;
    WeaveNulFree(Flawed(k), Repeat(k + 3, BARE_CODE));
  }

  lemma NulShows(a: string, b: string)
    ensures NUL in a + ([NUL] + b + [NUL])
  {
    assert (a + ([NUL] + b + [NUL]))[|a|] == NUL;
  }

  lemma BrokenNameChars(appID: string, botID: string, k: nat, i: nat)
    requires IsNumber(appID) && i < |MARK| && botID <= Name(k)[i..] && i + |botID| > 0
    ensures var seg := Broken(appID, botID, k, i); '[' !in seg && forall x :: 0 <= x < |seg| ==> NameChar(seg[x])
  {
    var seg := Broken(appID, botID, k, i);
    forall x | 0 <= x < |seg| ensures NameChar(seg[x]) {
      BrokenChars(appID, botID, k, i, x);
    }
    assert !NameChar('[');
  }

  /** A clean text with k + 3 codes that the masking does not protect. */
  lemma Spoiled(appID: string, botID: string, k: nat, i: nat) returns (text: string)
    requires IsNumber(appID) && Avoids(appID, k + 3) && i < |MARK| && botID <= Name(k)[i..] && i + |botID| > 0
    ensures CleanText(text) && |Codes(text)| == k + 3
    ensures MaskReplaceUnmask(text, appID, botID) != ReplaceOutside(text, appID, botID)
  {
    var seg := Broken(appID, botID, k, i);
    text := Spoiler(k + 2, seg);
    BrokenNameChars(appID, botID, k, i);
    BrokenLacksMark(appID, botID, k, i);
    SpoilerIsClean(k + 2, seg);
    SpoilerParts(k + 2, seg);
    BrokenCompleted(appID, botID, k, i);
    SpoilerShows(appID, botID, k, seg);
    SpoilerDirect(appID, botID, k, seg);
  }

  /** For all clean texts with at most n codes the detour has the effect of the direct replacement. */
  ghost predicate Direct(appID: string, botID: string, n: nat) {
    forall text {:trigger MaskReplaceUnmask(text, appID, botID)} ::
      CleanText(text) && |Codes(text)| <= n ==>
        MaskReplaceUnmask(text, appID, botID) == ReplaceOutside(text, appID, botID)
  }

  /** For an application ID that occurs in no placeholder number this is so exactly if the bot
      ID completes no placeholder name. */
  lemma DirectIff(appID: string, botID: string, n: nat)
    requires IsNumber(appID) && Avoids(appID, n) && NUL !in botID
    ensures Direct(appID, botID, n) <==> !Completes(botID, n)
  {
    if Completes(botID, n) {
      var k: nat, i: nat :| CompletesAt(botID, n, k, i);
      var text := Spoiled(appID, botID, k, if i + |botID| > 0 then i else 1);
    } else {
      forall text | CleanText(text) && |Codes(text)| <= n
        ensures MaskReplaceUnmask(text, appID, botID) == ReplaceOutside(text, appID, botID)
      {
        forall k: nat, i: nat ensures !CompletesAt(botID, |Codes(text)|, k, i) {
          assert !CompletesAt(botID, n, k, i);
        }
        MaskingIsDirect(text, appID, botID);
      }
    }
  }

  /** It is not enough that the bot ID lacks NUL and the mark. */
  lemma PartOfMarkCompletes()
    ensures var botID := "PH_"; NUL !in botID && !Contains(botID, MARK) && Completes(botID, 3)
  {
    assert MARK[3..] == "PH_" && Name(0)[3..] == "PH_" + Numeral(0);
    assert CompletesAt("PH_", 3, 0, 3);
  }
}
