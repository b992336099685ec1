/** When masking protects the CQ codes: exactly when the application ID occurs in no
    placeholder number. */
module CqProtection {
  import opened Strings
  import opened Decimals
  import opened Replacing
  import opened CqCodes
  import opened CqMask

  // ---- placeholders

  lemma NameHasNoNul(i: nat)
    ensures NUL !in Name(i)
  {
    assert forall k :: 0 <= k < |Name(i)| ==> Name(i)[k] == (if k < |MARK| then MARK[k] else Numeral(i)[k - |MARK|]);
  }

  lemma NameInjective(i: nat, j: nat)
    requires Name(i) == Name(j)
    ensures i == j
  {
    assert Numeral(i) == Name(i)[|MARK|..];
    assert Numeral(j) == Name(j)[|MARK|..];
    NumeralRoundTrip(i);
    NumeralRoundTrip(j);
  }

  // ---- replacing around fillers

  /** A filler keeps its shape: it begins and ends with NUL and the pattern is not in it. */
  ghost predicate Immune(f: string, pat: string) {
    f != "" && f[0] == NUL && f[|f| - 1] == NUL && !Contains(f, pat)
  }

  ghost predicate EndsOrNul(t: string) {
    t == "" || t[0] == NUL
  }

  lemma {:induction false} ReplaceWoven(segs: seq<string>, fillers: seq<string>, tail: string, pat: string, sub: string)
    requires |segs| == |fillers| + 1 && pat != "" && NUL !in pat && EndsOrNul(tail)
    requires forall k :: 0 <= k < |fillers| ==> Immune(fillers[k], pat)
    ensures ReplaceAll(Weave(segs, fillers, tail), pat, sub) ==
            Weave(ReplaceEach(segs, pat, sub), fillers, ReplaceAll(tail, pat, sub))
    decreases |fillers|
  {
    if fillers == [] {
      ReplaceConcat(segs[0], tail, pat, sub);
    } else {
      var rest := Weave(segs[1..], fillers[1..], tail);
      ReplaceWoven(segs[1..], fillers[1..], tail, pat, sub);
      assert ReplaceEach(segs, pat, sub)[1..] == ReplaceEach(segs[1..], pat, sub);
      ReplaceAround(segs[0], fillers[0], rest, pat, sub);
    }
  }

  lemma ReplaceAround(seg: string, f: string, rest: string, pat: string, sub: string)
    requires pat != "" && NUL !in pat && Immune(f, pat)
    ensures ReplaceAll(seg + f + rest, pat, sub) == ReplaceAll(seg, pat, sub) + f + ReplaceAll(rest, pat, sub)
  {
    assert seg + f + rest == seg + (f + rest);
    ReplaceConcat(seg, f + rest, pat, sub);
    ReplaceConcat(f, rest, pat, sub);
    ReplaceNothing(f, pat, sub);
  }

  // ---- putting one code back

  /** A chunk that is not the name, up to a NUL or the end, is no occurrence. */
  lemma NoFalseStart(chunk: string, rest: string, name: string)
    requires NUL !in chunk && NUL !in name && chunk != name && EndsOrNul(rest)
    ensures !(name + [NUL] <= chunk + rest)
  {
    var p, t := name + [NUL], chunk + rest;
    if |name| < |chunk| {
      assert p[|name|] != t[|name|];
    } else if |name| > |chunk| && rest != "" {
      assert p[|chunk|] != t[|chunk|];
    } else if |name| == |chunk| {
      assert p[..|name|] == name && t[..|name|] == chunk;
    }
  }

  lemma ChunkSpelled(chunk: string, rest: string)
    ensures [NUL] + chunk + [NUL] + rest == [NUL] + (chunk + ([NUL] + rest))
  {
  }

  /** A chunk between NULs that is not the name is passed over. */
  lemma PassChunk(chunk: string, rest: string, k: nat, code: string)
    requires NUL !in chunk && chunk != Name(k)
    requires !(Name(k) + [NUL] <= rest) && ReplaceAll(rest, Placeholder(k), code) == rest
    ensures ReplaceAll([NUL] + chunk + [NUL] + rest, Placeholder(k), code) == [NUL] + chunk + [NUL] + rest
  {
    var ph := Placeholder(k);
    NameHasNoNul(k);
    NoFalseStart(chunk, [NUL] + rest, Name(k));
    NulStep(chunk + ([NUL] + rest), k, code);
    ReplaceSkips(chunk, [NUL] + rest, ph, code);
    NulStep(rest, k, code);
    ChunkSpelled(chunk, rest);
  }

  /** A NUL that does not start the placeholder stays. */
  lemma NulStep(t: string, k: nat, code: string)
    requires !(Name(k) + [NUL] <= t)
    ensures ReplaceAll([NUL] + t, Placeholder(k), code) == [NUL] + ReplaceAll(t, Placeholder(k), code)
  {
    assert Placeholder(k) == [NUL] + (Name(k) + [NUL]);
    assert ([NUL] + t)[1..] == t;
    PrefixBehind(NUL, Name(k) + [NUL], t);
  }

  lemma PrefixBehind(c: char, p: string, t: string)
    ensures [c] + p <= [c] + t <==> p <= t
  {
    if p <= t {
      assert t == p + t[|p|..];
      assert [c] + t == [c] + p + t[|p|..];
    }
    if [c] + p <= [c] + t {
      assert ([c] + t)[1..][..|p|] == ([c] + p)[1..];
    }
  }

  ghost predicate NulFree(texts: seq<string>) {
    forall i :: 0 <= i < |texts| ==> NUL !in texts[i]
  }

  /** From index `from` on no segment that stands in front of a NUL is the k-th name. */
  ghost predicate Apart(segs: seq<string>, tail: string, k: nat, from: nat) {
    forall i :: from <= i < |segs| && (i + 1 < |segs| || tail != "") ==> segs[i] != Name(k)
  }

  /** The segments that stand between two later placeholders, too. */
  ghost predicate ApartAfter(segs: seq<string>, tail: string, k: nat) {
    Apart(segs, tail, k, k + 2)
  }

  ghost predicate Settled(tail: string, k: nat, code: string) {
    EndsOrNul(tail) && ReplaceAll(tail, Placeholder(k), code) == tail
  }

  ghost predicate Untouched(s: string, k: nat, code: string) {
    ReplaceAll(s, Placeholder(k), code) == s
  }

  /** A chunk between NULs that is not the k-th placeholder. */
  ghost predicate Foreign(f: string, k: nat) {
    |f| >= 2 && f == [NUL] + f[1..|f| - 1] + [NUL] && NUL !in f[1..|f| - 1] && f[1..|f| - 1] != Name(k)
  }

  ghost predicate AllForeign(fillers: seq<string>, k: nat) {
    forall i :: 0 <= i < |fillers| ==> Foreign(fillers[i], k)
  }

  lemma PlaceholdersForeign(from: nat, m: nat, k: nat)
    requires k < from
    ensures AllForeign(Placeholders(from, m), k)
  {
    forall i | 0 <= i < m ensures Foreign(Placeholders(from, m)[i], k) {
      var f := Placeholder(from + i);
      NameHasNoNul(from + i);
      assert f[1..|f| - 1] == Name(from + i);
      if Name(from + i) == Name(k) {
        NameInjective(from + i, k);
      }
    }
  }

  lemma NoNameAhead(segs: seq<string>, fillers: seq<string>, tail: string, k: nat)
    requires |segs| == |fillers| + 1 && NulFree(segs) && Apart(segs, tail, k, 0) && AllForeign(fillers, k) &&
      EndsOrNul(tail)
    ensures !(Name(k) + [NUL] <= Weave(segs, fillers, tail))
  {
    NameHasNoNul(k);
    if fillers != [] {
      var rest := fillers[0] + Weave(segs[1..], fillers[1..], tail);
      Associative(segs[0], fillers[0], Weave(segs[1..], fillers[1..], tail));
      assert Foreign(fillers[0], k) && rest[0] == NUL;
      NoFalseStart(segs[0], rest, Name(k));
    } else if tail != "" {
      NoFalseStart(segs[0], tail, Name(k));
    } else if segs[0] == Name(k) {
      assert |segs[0] + ""| < |Name(k) + [NUL]|;
    } else {
      NoFalseStart(segs[0], "", Name(k));
    }
  }

  lemma PassFiller(seg: string, f: string, rest: string, k: nat, code: string)
    requires NUL !in seg && Foreign(f, k) && !(Name(k) + [NUL] <= rest) && Untouched(rest, k, code)
    ensures Untouched(seg + f + rest, k, code)
  {
    PassChunk(f[1..|f| - 1], rest, k, code);
    Associative(seg, f, rest);
    ReplaceSkips(seg, f + rest, Placeholder(k), code);
  }

  /** Placeholders with other numbers are left alone. */
  lemma {:induction false} ForeignUntouched(segs: seq<string>, fillers: seq<string>, tail: string, k: nat, code: string)
    requires |segs| == |fillers| + 1 && NulFree(segs) && Apart(segs, tail, k, 1) && AllForeign(fillers, k)
    requires Settled(tail, k, code)
    ensures Untouched(Weave(segs, fillers, tail), k, code)
    decreases |fillers|
  {
    if fillers == [] {
      ReplaceSkips(segs[0], tail, Placeholder(k), code);
    } else {
      ForeignUntouched(segs[1..], fillers[1..], tail, k, code);
      NoNameAhead(segs[1..], fillers[1..], tail, k);
      PassFiller(segs[0], fillers[0], Weave(segs[1..], fillers[1..], tail), k, code);
    }
  }

  lemma PlaceholdersTail(from: nat, m: nat)
    requires m > 0
    ensures Placeholders(from, m)[0] == Placeholder(from) && Placeholders(from, m)[1..] == Placeholders(from + 1, m - 1)
  {
  }

  lemma WeaveStep(segs: seq<string>, from: nat, m: nat, tail: string)
    requires |segs| == m + 1 && m > 0
    ensures Weave(segs, Placeholders(from, m), tail) ==
            segs[0] + Placeholder(from) + Weave(segs[1..], Placeholders(from + 1, m - 1), tail)
  {
    PlaceholdersTail(from, m);
  }

  /** The placeholder in front is replaced by its code. */
  lemma RestoreHere(seg: string, rest: string, k: nat, code: string)
    requires NUL !in seg && Untouched(rest, k, code)
    ensures ReplaceAll(seg + Placeholder(k) + rest, Placeholder(k), code) == seg + code + rest
  {
    var ph := Placeholder(k);
    Associative(seg, ph, rest);
    Associative(seg, code, rest);
    ReplaceSkips(seg, ph + rest, ph, code);
    assert (ph + rest)[|ph|..] == rest;
  }

  /** Putting back the code with the lowest number left. */
  lemma RestoreFirstOf(segs: seq<string>, k: nat, m: nat, tail: string, code: string)
    requires |segs| == m + 1 && m > 0 && NulFree(segs) && Apart(segs, tail, k, 2) && Settled(tail, k, code)
    ensures ReplaceAll(Weave(segs, Placeholders(k, m), tail), Placeholder(k), code) ==
            Weave(segs, [code] + Placeholders(k + 1, m - 1), tail)
  {
    WeaveStep(segs, k, m, tail);
    PlaceholdersForeign(k + 1, m - 1, k);
    ForeignUntouched(segs[1..], Placeholders(k + 1, m - 1), tail, k, code);
    RestoreHere(segs[0], Weave(segs[1..], Placeholders(k + 1, m - 1), tail), k, code);
    WeaveOfHead(segs[1..], Placeholders(k + 1, m - 1), segs[0], code, tail);
    assert [segs[0]] + segs[1..] == segs;
  }

  lemma NothingBefore(phs: seq<string>, code: string, others: seq<string>)
    ensures [] + phs == phs && [] + [code] + others == [code] + others
  {
  }

  lemma {:induction false} RestoreOne(segs: seq<string>, before: seq<string>, k: nat, m: nat, tail: string,
      code: string)
    requires |segs| == |before| + m + 1 && m > 0 && NulFree(segs) && NulFree(before)
    requires Apart(segs, tail, k, |before| + 2) && Settled(tail, k, code)
    ensures ReplaceAll(Weave(segs, before + Placeholders(k, m), tail), Placeholder(k), code) ==
            Weave(segs, before + [code] + Placeholders(k + 1, m - 1), tail)
    decreases |before|
  {
    if before == [] {
      NothingBefore(Placeholders(k, m), code, Placeholders(k + 1, m - 1));
      RestoreFirstOf(segs, k, m, tail, code);
    } else {
      RestoreOne(segs[1..], before[1..], k, m, tail, code);
      RestoreLater(segs, before, k, m, tail, code);
    }
  }

  lemma RestoreLater(segs: seq<string>, before: seq<string>, k: nat, m: nat, tail: string, code: string)
    requires |segs| == |before| + m + 1 && m > 0 && NulFree(segs) && NulFree(before) && before != []
    requires ReplaceAll(Weave(segs[1..], before[1..] + Placeholders(k, m), tail), Placeholder(k), code) ==
             Weave(segs[1..], before[1..] + [code] + Placeholders(k + 1, m - 1), tail)
    ensures ReplaceAll(Weave(segs, before + Placeholders(k, m), tail), Placeholder(k), code) ==
            Weave(segs, before + [code] + Placeholders(k + 1, m - 1), tail)
  {
    WeaveOfMore(segs, before, Placeholders(k, m), tail);
    WeaveOfMore(segs, before, [code] + Placeholders(k + 1, m - 1), tail);
    Associative(before, [code], Placeholders(k + 1, m - 1));
    Associative(before[1..], [code], Placeholders(k + 1, m - 1));
    ReplaceSkips(segs[0] + before[0], Weave(segs[1..], before[1..] + Placeholders(k, m), tail), Placeholder(k), code);
  }

  lemma WeaveOfMore(segs: seq<string>, before: seq<string>, after: seq<string>, tail: string)
    requires |segs| == |before| + |after| + 1 && before != []
    ensures Weave(segs, before + after, tail) == segs[0] + before[0] + Weave(segs[1..], before[1..] + after, tail)
  {
    assert (before + after)[1..] == before[1..] + after;
  }

  /** Putting back the first k codes, in front of a tail that no step touches. */
  lemma {:induction false} RestoreFirst(segs: seq<string>, codes: seq<string>, n: nat, tail: string, k: nat)
    requires k <= n <= |codes| && |segs| == n + 1 && NulFree(segs) && NulFree(codes)
    requires forall j: nat {:trigger ApartAfter(segs, tail, j)} :: j < k ==>
      ApartAfter(segs, tail, j) && Settled(tail, j, codes[j])
    ensures Unmask(Weave(segs, Placeholders(0, n), tail), codes, k) ==
      Weave(segs, codes[..k] + Placeholders(k, n - k), tail)
  {
    if k == 0 {
      assert codes[..0] + Placeholders(0, n) == Placeholders(0, n);
    } else {
      RestoreFirst(segs, codes, n, tail, k - 1);
      assert ApartAfter(segs, tail, k - 1);
      RestoreOne(segs, codes[..k - 1], k - 1, n - k + 1, tail, codes[k - 1]);
      assert codes[..k - 1] + [codes[k - 1]] == codes[..k];
    }
  }

  // ---- the texts and bot IDs that occur

  /** The text contains nothing that looks like a part of a placeholder. */
  ghost predicate CleanText(text: string) {
    NUL !in text && !Contains(text, MARK)
  }

  predicate IsNumber(s: string) {
    s != "" && AllDigits(s)
  }

  /** The bot ID fits into the name of a placeholder with two more behind it, from a place
      inside the mark on: put there, it could complete the name. */
  ghost predicate Completes(botID: string, n: nat) {
    exists k: nat, i: nat :: CompletesAt(botID, n, k, i)
  }

  ghost predicate CompletesAt(botID: string, n: nat, k: nat, i: nat) {
    k + 2 < n && i < |MARK| && botID <= Name(k)[i..]
  }

  /** Where the replacement cannot have helped, the mark was there before. */
  lemma {:induction false} MarkWasThere(s: string, pat: string, sub: string, k: nat, i: nat)
    requires pat != "" && i <= |MARK| && ReplaceAll(s, pat, sub) == Name(k)[i..]
    requires forall j: nat {:trigger Name(k)[j..]} :: j < |MARK| ==> !(sub <= Name(k)[j..])
    ensures MARK[i..] <= s
    decreases |s|
  {
    if i < |MARK| {
      assert Name(k)[i..] != "" && Name(k)[i] == MARK[i];
      if !(pat <= s) {
        var t := ReplaceAll(s[1..], pat, sub);
        assert Name(k)[i..] == [s[0]] + t;
        assert Name(k)[i..][0] == s[0] && Name(k)[i..][1..] == t == Name(k)[i + 1..];
        MarkWasThere(s[1..], pat, sub, k, i + 1);
        MarkStep(s, i);
      }
    }
  }

  lemma MarkStep(s: string, i: nat)
    requires i < |MARK| && s != "" && s[0] == MARK[i] && MARK[i + 1..] <= s[1..]
    ensures MARK[i..] <= s
  {
    assert s == [s[0]] + s[1..] && MARK[i..] == [MARK[i]] + MARK[i + 1..];
  }

  lemma ReplacedNulFree(text: string, appID: string, botID: string)
    requires CleanText(text) && appID != "" && NUL !in botID
    ensures NulFree(ReplaceEach(Segments(text), appID, botID))
  {
    var segs := Segments(text);
    PartsInText(text);
    forall i | 0 <= i < |segs| ensures NUL !in ReplaceAll(segs[i], appID, botID) {
      if NUL in segs[i] {
        CharOfPiece(text, segs[i], NUL);
      }
      ReplaceAlphabet(segs[i], appID, botID, NUL);
    }
  }

  /** Between later codes of a clean text, replacing leaves nothing that looks like a placeholder. */
  lemma ReplacedApart(text: string, appID: string, botID: string, k: nat)
    requires CleanText(text) && appID != "" && !Completes(botID, |Codes(text)|)
    ensures ApartAfter(ReplaceEach(Segments(text), appID, botID), "", k)
  {
    var segs, n := Segments(text), |Codes(text)|;
    PartsInText(text);
    forall i | k + 2 <= i < n ensures ReplaceAll(segs[i], appID, botID) != Name(k) {
      if ReplaceAll(segs[i], appID, botID) == Name(k) {
        forall j: nat {:trigger Name(k)[j..]} | j < |MARK| ensures !(botID <= Name(k)[j..]) {
          assert !CompletesAt(botID, n, k, j);
        }
        assert Name(k)[0..] == Name(k);
        MarkWasThere(segs[i], appID, botID, k, 0);
        FoundAtStart(segs[i], MARK);
        PieceOfPiece(text, segs[i], MARK);
      }
    }
  }

  lemma CodesNulFree(text: string)
    requires NUL !in text
    ensures NulFree(Codes(text))
  {
    PartsInText(text);
    forall i | 0 <= i < |Codes(text)| ensures NUL !in Codes(text)[i] {
      if NUL in Codes(text)[i] {
        CharOfPiece(text, Codes(text)[i], NUL);
      }
    }
  }

  // ---- the application ID and the placeholder numbers

  /** The numbers of the first n placeholders do not contain the application ID. */
  ghost predicate Avoids(appID: string, n: nat) {
    forall i: nat :: i < n ==> !Contains(Numeral(i), appID)
  }

  lemma NumberHasNoNul(s: string)
    requires AllDigits(s)
    ensures NUL !in s
  {
    assert !IsDigit(NUL);
  }

  /** The ID occurs in a placeholder only if it occurs in its number. */
  lemma OccursInNumber(appID: string, i: nat)
    requires IsNumber(appID) && Contains(Placeholder(i), appID)
    ensures Contains(Numeral(i), appID)
  {
    var ph, head := Placeholder(i), |MARK| + 1;
    var at :| 0 <= at <= |ph| - |appID| && FoundAtIndex(ph, appID, at);
    PlaceholderDigits(i);
    var first, last := appID[0], appID[|appID| - 1];
    assert ph[at..at + |appID|][0] == ph[at] == first;
    assert ph[at..at + |appID|][|appID| - 1] == ph[at + |appID| - 1] == last;
    SliceOfSlice(ph, head, |ph| - 1, at - head, at - head + |appID|);
    assert FoundAtIndex(Numeral(i), appID, at - head);
  }

  /** The digits of a placeholder are its number. */
  lemma PlaceholderDigits(i: nat)
    ensures var ph, head := Placeholder(i), |MARK| + 1;
            && head < |ph| && ph[head..|ph| - 1] == Numeral(i)
            && forall j :: 0 <= j < |ph| && IsDigit(ph[j]) ==> head <= j < |ph| - 1
  {
    var ph, head := Placeholder(i), |MARK| + 1;
    assert ph[0] == NUL && ph[|ph| - 1] == NUL;
    forall j | 0 < j < head ensures ph[j] == MARK[j - 1] {}
    forall j | head <= j < |ph| - 1 ensures ph[j] == Numeral(i)[j - head] {}
    assert forall j :: 0 <= j < |MARK| ==> !IsDigit(MARK[j]);
    assert !IsDigit(NUL);
  }

  lemma PlaceholdersImmune(appID: string, n: nat)
    requires IsNumber(appID) && Avoids(appID, n)
    ensures forall k :: 0 <= k < n ==> Immune(Placeholders(0, n)[k], appID)
  {
    forall k | 0 <= k < n ensures Immune(Placeholders(0, n)[k], appID) {
      if Contains(Placeholder(k), appID) {
        OccursInNumber(appID, k);
      }
    }
  }

  /** If the application ID occurs in no placeholder number and the bot ID completes no
      placeholder, masking, replacing and unmasking is the direct replacement outside the CQ codes. */
  lemma MaskingIsDirect(text: string, appID: string, botID: string)
    requires CleanText(text) && IsNumber(appID) && NUL !in botID
    requires Avoids(appID, |Codes(text)|) && !Completes(botID, |Codes(text)|)
    ensures MaskReplaceUnmask(text, appID, botID) == ReplaceOutside(text, appID, botID)
  {
    var n, codes := |Codes(text)|, Codes(text);
    var segs := ReplaceEach(Segments(text), appID, botID);
    NumberHasNoNul(appID);
    PlaceholdersImmune(appID, n);
    ReplaceWoven(Segments(text), Placeholders(0, n), "", appID, botID);
    CodesNulFree(text);
    ReplacedNulFree(text, appID, botID);
    forall j: nat {:trigger ApartAfter(segs, "", j)} | j < n
      ensures ApartAfter(segs, "", j) && Settled("", j, codes[j])
    {
      ReplacedApart(text, appID, botID, j);
    }
    RestoreFirst(segs, codes, n, "", n);
    assert codes[..n] + Placeholders(n, 0) == codes;
  }

  /** A numeric bot ID completes nothing. */
  lemma NumberCompletesNothing(botID: string, n: nat)
    requires IsNumber(botID)
    ensures !Completes(botID, n)
  {
    forall k: nat, i: nat ensures !CompletesAt(botID, n, k, i) {
      if i < |MARK| {
        assert IsDigit(botID[0]) && Name(k)[i..][0] == MARK[i] && !IsDigit(MARK[i]);
      }
    }
  }

  // ---- an ID no smaller than the number of codes is safe

  lemma {:induction false} TailValueSmaller(s: string)
    requires AllDigits(s) && s != ""
    ensures NumeralValue(s[1..]) <= NumeralValue(s)
  {
    if |s| > 1 {
      var init := s[..|s| - 1];
      TailValueSmaller(init);
      assert s[1..][..|s[1..]| - 1] == init[1..];
    } else {
      assert s[1..] == "";
    }
  }

  lemma {:induction false} PieceValueSmaller(s: string, from: nat, to: nat)
    requires AllDigits(s) && from <= to <= |s|
    ensures NumeralValue(s[from..to]) <= NumeralValue(s)
    decreases |s|
  {
    if from > 0 {
      TailValueSmaller(s);
      assert s[1..][from - 1..to - 1] == s[from..to];
      PieceValueSmaller(s[1..], from - 1, to - 1);
    } else if to < |s| {
      assert s[..|s| - 1][from..to] == s[from..to];
      PieceValueSmaller(s[..|s| - 1], from, to);
    } else {
      assert s[from..to] == s;
    }
  }

  lemma LargeIdAvoids(appID: string, n: nat)
    requires IsNumber(appID) && NumeralValue(appID) >= n
    ensures Avoids(appID, n)
  {
    forall i: nat | i < n ensures !Contains(Numeral(i), appID) {
      if Contains(Numeral(i), appID) {
        ContainedIsSmaller(appID, i);
      }
    }
  }

  lemma ContainedIsSmaller(appID: string, i: nat)
    requires IsNumber(appID) && Contains(Numeral(i), appID)
    ensures NumeralValue(appID) <= i
  {
    var at :| 0 <= at <= |Numeral(i)| - |appID| && FoundAtIndex(Numeral(i), appID, at);
    PieceValueSmaller(Numeral(i), at, at + |appID|);
    NumeralRoundTrip(i);
  }

  // ---- an ID that occurs in a placeholder number is not safe

  const BARE_CODE := "[CQ:]"

  /** n CQ codes in a row. */
  ghost function Bare(n: nat): string {
    if n == 0 then "" else BARE_CODE + Bare(n - 1)
  }

  ghost function Repeat(n: nat, s: string): (r: seq<string>)
    ensures |r| == n && forall i :: 0 <= i < n ==> r[i] == s
  {
    seq(n, _ => s)
  }

  lemma NextBare(t: string)
    ensures var s := BARE_CODE + t;
            NextCode(s) == Some((0, 5)) && s[5..] == t && s[0..5] == BARE_CODE && s[..0] == ""
  {
    var s := BARE_CODE + t;
    assert s[..4] == OPEN && s[4..] == "]" + t;
  }

  lemma {:induction false} BareParts(n: nat)
    ensures Segments(Bare(n)) == Repeat(n + 1, "") && Codes(Bare(n)) == Repeat(n, BARE_CODE)
  {
    if n > 0 {
      NextBare(Bare(n - 1));
      BareParts(n - 1);
      assert [""] + Repeat(n, "") == Repeat(n + 1, "");
      assert [BARE_CODE] + Repeat(n - 1, BARE_CODE) == Repeat(n, BARE_CODE);
    }
  }

  lemma {:induction false} BareAlphabet(n: nat)
    ensures forall k :: 0 <= k < |Bare(n)| ==> Bare(n)[k] != NUL && Bare(n)[k] != '_'
  {
    if n > 0 {
      BareAlphabet(n - 1);
    }
  }

  lemma BareIsClean(n: nat)
    ensures CleanText(Bare(n))
  {
    BareAlphabet(n);
    if Contains(Bare(n), MARK) {
      assert MARK[2] == '_';
      CharOfPiece(Bare(n), MARK, '_');
    }
  }

  lemma {:induction false} NumeralShort(n: nat)
    ensures |Numeral(n)| <= n + 1
  {
    if n >= 10 {
      NumeralShort(n / 10);
    }
  }

  ghost function Ones(n: nat): (s: string)
    ensures |s| == n && AllDigits(s)
  {
    seq(n, _ => '1')
  }

  /** The last filler moved into the tail. */
  lemma {:induction false} WeaveLast(segs: seq<string>, fillers: seq<string>, f: string)
    requires |segs| == |fillers| + 1
    ensures Weave(segs + [""], fillers + [f], "") == Weave(segs, fillers, f)
  {
    if fillers == [] {
      assert (segs + [""])[1..] == [""] && (fillers + [f])[1..] == [];
      assert segs[0] + f + ("" + "") == segs[0] + f;
    } else {
      assert (segs + [""])[1..] == segs[1..] + [""] && (fillers + [f])[1..] == fillers[1..] + [f];
      WeaveLast(segs[1..], fillers[1..], f);
    }
  }

  /** A text that begins with NUL survives behind text without NUL. */
  lemma {:induction false} WovenTailStays(segs: seq<string>, fillers: seq<string>, tail: string, k: nat, code: string)
    requires |segs| == |fillers| + 1 && NulFree(segs) && NulFree(fillers) && Settled(tail, k, code)
    ensures ReplaceAll(Weave(segs, fillers, tail), Placeholder(k), code) == Weave(segs, fillers, tail)
    decreases |fillers|
  {
    if fillers == [] {
      ReplaceSkips(segs[0], tail, Placeholder(k), code);
    } else {
      WovenTailStays(segs[1..], fillers[1..], tail, k, code);
      ReplaceSkips(segs[0] + fillers[0], Weave(segs[1..], fillers[1..], tail), Placeholder(k), code);
    }
  }

  lemma {:induction false} WovenTailShows(segs: seq<string>, fillers: seq<string>, tail: string, c: char)
    requires |segs| == |fillers| + 1 && c in tail
    ensures c in Weave(segs, fillers, tail)
    decreases |fillers|
  {
    if fillers != [] {
      WovenTailShows(segs[1..], fillers[1..], tail, c);
    }
  }

  lemma HeadHasNoDigit(c: char)
    requires IsDigit(c)
    ensures c !in [NUL] + MARK
  {
    var head := [NUL] + MARK;
    forall j | 0 <= j < |head| ensures !IsDigit(head[j]) {
      assert head[j] == if j == 0 then NUL else MARK[j - 1];
    }
  }

  lemma Reframe(number: string)
    ensures [NUL] + (MARK + number) + [NUL] == ([NUL] + MARK) + (number + [NUL])
  {
  }

  /** What the replacement makes of a placeholder. */
  lemma DamagedPlaceholder(i: nat, appID: string, botID: string)
    requires IsNumber(appID)
    ensures ReplaceAll(Placeholder(i), appID, botID) == [NUL] + (MARK + ReplaceAll(Numeral(i), appID, botID)) + [NUL]
  {
    var head := [NUL] + MARK;
    Reframe(Numeral(i));
    HeadHasNoDigit(appID[0]);
    ReplaceSkips(head, Numeral(i) + [NUL], appID, botID);
    NumberHasNoNul(appID);
    ReplaceConcat(Numeral(i), [NUL], appID, botID);
    assert [NUL][1..] == "";
    assert ReplaceAll([NUL], appID, botID) == [NUL];
    Reframe(ReplaceAll(Numeral(i), appID, botID));
  }

  /** A damaged placeholder with a long number is no placeholder any more. */
  lemma DamagedStays(number: string, k: nat, code: string)
    requires AllDigits(number) && |number| > |Numeral(k)|
    ensures Settled([NUL] + (MARK + number) + [NUL], k, code)
  {
    var chunk := MARK + number;
    NumberHasNoNul(number);
    assert forall j :: 0 <= j < |chunk| ==> chunk[j] == if j < |MARK| then MARK[j] else number[j - |MARK|];
    assert chunk != Name(k) by {
      assert |chunk| != |Name(k)|;
    }
    PassChunk(chunk, "", k, code);
    assert [NUL] + chunk + [NUL] + "" == [NUL] + chunk + [NUL];
  }

  lemma {:induction false} ReplaceDigits(s: string, pat: string, sub: string)
    requires AllDigits(s) && AllDigits(sub) && pat != ""
    ensures AllDigits(ReplaceAll(s, pat, sub))
    decreases |s|
  {
    if s != "" {
      if pat <= s {
        ReplaceDigits(s[|pat|..], pat, sub);
      } else {
        ReplaceDigits(s[1..], pat, sub);
      }
    }
  }

  /** The masked text after the replacement: all placeholders whole but the last. */
  lemma BareAfterReplace(i: nat, appID: string, botID: string)
    requires IsNumber(appID) && Avoids(appID, i)
    ensures ReplaceAll(Masked(Bare(i + 1)), appID, botID) ==
            Weave(Repeat(i + 1, ""), Placeholders(0, i), ReplaceAll(Placeholder(i), appID, botID))
  {
    BareParts(i + 1);
    assert Placeholders(0, i + 1) == Placeholders(0, i) + [Placeholder(i)];
    assert Repeat(i + 2, "") == Repeat(i + 1, "") + [""];
    WeaveLast(Repeat(i + 1, ""), Placeholders(0, i), Placeholder(i));
    NumberHasNoNul(appID);
    PlaceholdersImmune(appID, i);
    ReplaceWoven(Repeat(i + 1, ""), Placeholders(0, i), Placeholder(i), appID, botID);
    assert ReplaceEach(Repeat(i + 1, ""), appID, botID) == Repeat(i + 1, "");
  }

  lemma BareDirect(n: nat, appID: string, botID: string)
    requires appID != ""
    ensures ReplaceOutside(Bare(n), appID, botID) == Bare(n)
  {
    BareParts(n);
    assert ReplaceEach(Repeat(n + 1, ""), appID, botID) == Repeat(n + 1, "");
    WeaveOfParts(Bare(n));
  }

  /** A tail that no step touches outlives the restoring of all codes. */
  lemma TailOutlives(segs: seq<string>, codes: seq<string>, i: nat, tail: string)
    requires |segs| == i + 1 && |codes| == i + 1 && NulFree(segs) && NulFree(codes) && NUL in tail
    requires forall j: nat {:trigger ApartAfter(segs, tail, j)} :: j <= i ==>
      ApartAfter(segs, tail, j) && Settled(tail, j, codes[j])
    ensures NUL in Unmask(Weave(segs, Placeholders(0, i), tail), codes, i + 1)
  {
    assert ApartAfter(segs, tail, i);
    RestoreFirst(segs, codes, i, tail, i);
    assert codes[..i] + Placeholders(i, 0) == codes[..i];
    WovenTailStays(segs, codes[..i], tail, i, codes[i]);
    WovenTailShows(segs, codes[..i], tail, NUL);
  }

  /** The remains of the last placeholder are such a tail. */
  lemma DamageOutlives(i: nat, number: string, segs: seq<string>, codes: seq<string>, tail: string)
    requires AllDigits(number) && |number| >= i + 2
    requires segs == Repeat(i + 1, "") && codes == Repeat(i + 1, BARE_CODE) && tail == [NUL] + (MARK + number) + [NUL]
    ensures NUL in Unmask(Weave(segs, Placeholders(0, i), tail), codes, i + 1)
  {
    forall j: nat {:trigger ApartAfter(segs, tail, j)} | j <= i
      ensures ApartAfter(segs, tail, j) && Settled(tail, j, codes[j])
    {
      NumeralShort(j);
      DamagedStays(number, j, BARE_CODE);
    }
    assert NUL !in BARE_CODE;
    TailOutlives(segs, codes, i, tail);
  }

  /** With the first damaged number i, a row of i + 1 codes and a long bot ID a NUL remains. */
  lemma DamageShows(i: nat, appID: string)
    requires IsNumber(appID) && Avoids(appID, i) && Contains(Numeral(i), appID)
    ensures MaskReplaceUnmask(Bare(i + 1), appID, Ones(i + 2)) != ReplaceOutside(Bare(i + 1), appID, Ones(i + 2))
  {
    var botID := Ones(i + 2);
    var number := ReplaceAll(Numeral(i), appID, botID);
    BareParts(i + 1);
    BareAfterReplace(i, appID, botID);
    DamagedPlaceholder(i, appID, botID);
    ReplaceGrows(Numeral(i), appID, botID);
    ReplaceDigits(Numeral(i), appID, botID);
    DamageOutlives(i, number, Repeat(i + 1, ""), Codes(Bare(i + 1)), [NUL] + (MARK + number) + [NUL]);
    BareDirect(i + 1, appID, botID);
    BareIsClean(i + 1);
  }

  /** For all clean texts with at most n codes and all numeric bot IDs, the detour over
      placeholders has the effect of the direct replacement. */
  ghost predicate Protects(appID: string, n: nat) {
    forall text, botID {:trigger MaskReplaceUnmask(text, appID, botID)} ::
      CleanText(text) && IsNumber(botID) && |Codes(text)| <= n ==>
        MaskReplaceUnmask(text, appID, botID) == ReplaceOutside(text, appID, botID)
  }

  lemma {:induction false} FirstDamaged(appID: string, n: nat) returns (i: nat)
    requires !Avoids(appID, n)
    ensures i < n && Avoids(appID, i) && Contains(Numeral(i), appID)
  {
    if Avoids(appID, n - 1) {
      i := n - 1;
    } else {
      i := FirstDamaged(appID, n - 1);
    }
  }

  /** Masking protects all texts with up to n codes exactly when the application ID occurs
      in none of the numbers 0 to n - 1. */
  lemma ProtectsIff(appID: string, n: nat)
    requires IsNumber(appID)
    ensures Protects(appID, n) <==> Avoids(appID, n)
  {
    if Avoids(appID, n) {
      forall text, botID | CleanText(text) && IsNumber(botID) && |Codes(text)| <= n
        ensures MaskReplaceUnmask(text, appID, botID) == ReplaceOutside(text, appID, botID)
      {
        NumberHasNoNul(botID);
        NumberCompletesNothing(botID, |Codes(text)|);
        MaskingIsDirect(text, appID, botID);
      }
    } else {
      var i := FirstDamaged(appID, n);
      BareParts(i + 1);
      BareIsClean(i + 1);
      DamageShows(i, appID);
    }
  }

  /** In particular an application ID no smaller than the number of codes is protected. */
  lemma LargeIdIsProtected(appID: string, n: nat)
    requires IsNumber(appID) && NumeralValue(appID) >= n
    ensures Protects(appID, n)
  {
    LargeIdAvoids(appID, n);
    ProtectsIff(appID, n);
  }
}
