/** Splicing merged replacements into a text, rune by rune: what each position of the
    text contributes to the result. */
module Splicing {
  import opened Merging

  ghost function Flatten(pieces: seq<string>): string {
    if pieces == [] then "" else Flatten(pieces[..|pieces| - 1]) + pieces[|pieces| - 1]
  }

  ghost predicate StartsAt(merged: seq<Replacement>, k: int, i: int) {
    0 <= k < |merged| && merged[k].Start == i
  }

  ghost predicate CoveredBy(merged: seq<Replacement>, k: int, i: int) {
    0 <= k < |merged| && merged[k].Start <= i <= merged[k].End
  }

  /** A covered run contributes its replacement text at its first position and nothing
      after it; every other position contributes its own rune. */
  ghost function PieceOf(text: string, merged: seq<Replacement>, i: nat): string
    requires i < |text|
  {
    if exists k :: StartsAt(merged, k, i) then
      var k :| StartsAt(merged, k, i); merged[k].Text
    else if exists k :: CoveredBy(merged, k, i) then ""
    else [text[i]]
  }

  ghost function Pieces(text: string, merged: seq<Replacement>): seq<string> {
    seq(|text|, i requires 0 <= i < |text| => PieceOf(text, merged, i))
  }

  ghost predicate InText(text: string, merged: seq<Replacement>) {
    forall k :: 0 <= k < |merged| ==> 0 <= merged[k].Start && merged[k].End < |text|
  }

  lemma MergeInText(text: string, input: set<Replacement>, merged: seq<Replacement>)
    requires IsMerge(input, merged)
    requires forall r :: r in input ==> 0 <= r.Start && r.End < |text|
    ensures InText(text, merged)
  {
    forall k | 0 <= k < |merged| ensures 0 <= merged[k].Start && merged[k].End < |text| {
      assert IsRun(input, merged[k]);
    }
  }

  lemma {:induction false} FlattenAppend(a: seq<string>, b: seq<string>)
    ensures Flatten(a + b) == Flatten(a) + Flatten(b)
  {
    if b == [] {
      assert a + b == a;
    } else {
      assert (a + b)[..|a + b| - 1] == a + b[..|b| - 1];
      FlattenAppend(a, b[..|b| - 1]);
    }
  }

  lemma {:induction false} FlattenRunes(pieces: seq<string>, text: string)
    requires |pieces| == |text| && forall i :: 0 <= i < |text| ==> pieces[i] == [text[i]]
    ensures Flatten(pieces) == text
  {
    if text != "" {
      FlattenRunes(pieces[..|text| - 1], text[..|text| - 1]);
    }
  }

  lemma {:induction false} FlattenFirst(pieces: seq<string>, first: string)
    requires pieces != [] && pieces[0] == first && forall i :: 0 < i < |pieces| ==> pieces[i] == ""
    ensures Flatten(pieces) == first
  {
    if |pieces| == 1 {
      assert Flatten(pieces[..0]) == "";
    } else {
      FlattenFirst(pieces[..|pieces| - 1], first);
    }
  }

  /** Everything the splicing loop has emitted when it has reached position n. */
  ghost function Emitted(text: string, merged: seq<Replacement>, n: nat): string
    requires n <= |text|
  {
    Flatten(Pieces(text, merged)[..n])
  }

  lemma EmittedAll(text: string, merged: seq<Replacement>)
    ensures Emitted(text, merged, |text|) == Flatten(Pieces(text, merged))
  {
    assert Pieces(text, merged)[..|text|] == Pieces(text, merged);
  }

  lemma PieceInGap(text: string, merged: seq<Replacement>, from: nat, to: nat, i: nat)
    requires from <= i < to <= |text|
    requires forall i, k :: from <= i < to ==> !CoveredBy(merged, k, i) && !StartsAt(merged, k, i)
    ensures Pieces(text, merged)[i] == [text[i]]
  {
    assert forall k :: !CoveredBy(merged, k, i) && !StartsAt(merged, k, i);
  }

  lemma EmitGap(text: string, merged: seq<Replacement>, from: nat, to: nat)
    requires from <= to <= |text|
    requires forall i, k :: from <= i < to ==> !CoveredBy(merged, k, i) && !StartsAt(merged, k, i)
    ensures Emitted(text, merged, to) == Emitted(text, merged, from) + text[from..to]
  {
    var all := Pieces(text, merged);
    assert all[..to] == all[..from] + all[from..to];
    FlattenAppend(all[..from], all[from..to]);
    forall i | 0 <= i < to - from ensures all[from..to][i] == [text[from..to][i]] {
      PieceInGap(text, merged, from, to, from + i);
      assert all[from..to][i] == all[from + i] && text[from..to][i] == text[from + i];
    }
    FlattenRunes(all[from..to], text[from..to]);
  }

  lemma NoRuns(text: string)
    ensures Flatten(Pieces(text, [])) == text
  {
    forall i | 0 <= i < |text| ensures PieceOf(text, [], i) == [text[i]] {
      assert forall k :: !StartsAt([], k, i) && !CoveredBy([], k, i);
    }
    FlattenRunes(Pieces(text, []), text);
  }

  lemma EmitRun(text: string, merged: seq<Replacement>, k: nat)
    requires Disjoint(merged) && InText(text, merged) && k < |merged|
    ensures 0 <= merged[k].Start <= merged[k].End < |text|
    ensures Emitted(text, merged, merged[k].End + 1) == Emitted(text, merged, merged[k].Start) + merged[k].Text
  {
    var all, from, to := Pieces(text, merged), merged[k].Start, merged[k].End + 1;
    assert all[..to] == all[..from] + all[from..to];
    FlattenAppend(all[..from], all[from..to]);
    forall i | from <= i < to ensures all[i] == if i == from then merged[k].Text else "" {
      assert CoveredBy(merged, k, i);
      if i == from {
        assert StartsAt(merged, k, i);
      }
      OneRunAt(merged, k, i);
    }
    FlattenFirst(all[from..to], merged[k].Text);
  }

  /** One turn of the splicing loop: the gap before a run, then the run. */
  lemma EmitNext(text: string, merged: seq<Replacement>, n: nat, lastIndex: nat)
    requires Disjoint(merged) && InText(text, merged) && n < |merged|
    requires lastIndex == if n == 0 then 0 else merged[n - 1].End + 1
    ensures lastIndex <= merged[n].Start <= merged[n].End < |text|
    ensures Emitted(text, merged, merged[n].End + 1) ==
            Emitted(text, merged, lastIndex) + text[lastIndex..merged[n].Start] + merged[n].Text
  {
    EmitGap(text, merged, lastIndex, merged[n].Start);
    EmitRun(text, merged, n);
  }

  lemma EmitTail(text: string, merged: seq<Replacement>, lastIndex: nat)
    requires Disjoint(merged) && InText(text, merged)
    requires lastIndex == if merged == [] then 0 else merged[|merged| - 1].End + 1
    requires lastIndex <= |text|
    ensures Flatten(Pieces(text, merged)) == Emitted(text, merged, lastIndex) + text[lastIndex..]
  {
    EmitGap(text, merged, lastIndex, |text|);
    EmittedAll(text, merged);
    assert text[lastIndex..] == text[lastIndex..|text|];
  }

  lemma OneRunAt(merged: seq<Replacement>, k: nat, i: int)
    requires Disjoint(merged) && CoveredBy(merged, k, i)
    ensures forall j :: StartsAt(merged, j, i) ==> j == k
    ensures forall j :: CoveredBy(merged, j, i) ==> j == k
  {
  }

  method ApplyReplacements(text: string, replacements: array<Replacement>)
    returns (result: string, ghost merged: seq<Replacement>)
    requires forall k :: 0 <= k < replacements.Length ==>
               0 <= replacements[k].Start <= replacements[k].End < |text|
    modifies replacements
    ensures IsMerge(old(Members(replacements[..])), merged)
    ensures result == Flatten(Pieces(text, merged))
  {
    ghost var input := Members(replacements[..]);
    var runs := MergeOverlapping(replacements);
    merged := runs;
    MergeInText(text, input, merged);
    result := "";
    var lastIndex := 0;
    for n := 0 to |runs|
      invariant 0 <= lastIndex <= |text|
      invariant lastIndex == if n == 0 then 0 else runs[n - 1].End + 1
      invariant result == Emitted(text, merged, lastIndex)
    {
      var r := runs[n];
      EmitNext(text, merged, n, lastIndex);
      result := result + text[lastIndex..r.Start];
      result := result + r.Text;
      lastIndex := r.End + 1;
    }
    EmitTail(text, merged, lastIndex);
    result := result + text[lastIndex..];
  }
}
