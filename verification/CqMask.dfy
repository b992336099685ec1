/** Protecting CQ codes while the application ID is replaced by the bot ID: mask, replace,
    unmask (transformMessageTextAt and its twin in handlers/message_parser.go). */
module CqMask {
  import Strings
  import Decimals
  import Replacing
  import opened CqCodes

  const NUL := '\0'
  const MARK := "CQ_PH_"

  /** What stands between the two NULs of a placeholder. */
  function Name(i: nat): string {
    MARK + Decimals.Numeral(i)
  }

  function Placeholder(i: nat): string {
    [NUL] + Name(i) + [NUL]
  }

  function Placeholders(from: nat, n: nat): (phs: seq<string>)
    ensures |phs| == n && forall i :: 0 <= i < n ==> phs[i] == Placeholder(from + i)
  {
    seq(n, i requires 0 <= i < n => Placeholder(from + i))
  }

  function ReplaceEach(segs: seq<string>, pat: string, sub: string): (r: seq<string>)
    ensures |r| == |segs| && forall i :: 0 <= i < |segs| ==> r[i] == Replacing.ReplaceAll(segs[i], pat, sub)
  {
    seq(|segs|, i requires 0 <= i < |segs| => Replacing.ReplaceAll(segs[i], pat, sub))
  }

  /** The direct transformation: replace between the CQ codes, keep the codes. */
  function ReplaceOutside(text: string, appID: string, botID: string): string {
    Weave(ReplaceEach(Segments(text), appID, botID), Codes(text), "")
  }

  function Masked(text: string): string {
    Weave(Segments(text), Placeholders(0, |Codes(text)|), "")
  }

  /** Put the codes back for the first k placeholders, one after the other. */
  function Unmask(masked: string, codes: seq<string>, k: nat): string
    requires k <= |codes|
  {
    if k == 0 then masked else Replacing.ReplaceAll(Unmask(masked, codes, k - 1), Placeholder(k - 1), codes[k - 1])
  }

  function MaskReplaceUnmask(text: string, appID: string, botID: string): string {
    Unmask(Replacing.ReplaceAll(Masked(text), appID, botID), Codes(text), |Codes(text)|)
  }

  datatype Holder = Holder(orig: string, placeholder: string)

  // ---- the code

  function MaskFrom(rest: string, from: nat): string {
    Weave(Segments(rest), Placeholders(from, |Codes(rest)|), "")
  }

  lemma MaskFromStep(rest: string, from: nat)
    ensures var next := NextCode(rest);
            MaskFrom(rest, from) ==
              if next.None? then rest
              else rest[..next.value.0] + Placeholder(from) + MaskFrom(rest[next.value.1..], from + 1)
  {
    var next := NextCode(rest);
    if next.None? {
      assert rest + "" == rest;
    } else {
      var n := |Codes(rest)|;
      assert Placeholders(from, n)[1..] == Placeholders(from + 1, n - 1);
      assert Segments(rest)[1..] == Segments(rest[next.value.1..]);
    }
  }

  /** The holders record the first codes; `left` lists the others. */
  ghost predicate HoldsFirst(codes: seq<string>, holders: seq<Holder>, left: seq<string>) {
    && |holders| + |left| == |codes| && codes[|holders|..] == left
    && forall i :: 0 <= i < |holders| ==> holders[i] == Holder(codes[i], Placeholder(i))
  }

  lemma HoldsOneMore(codes: seq<string>, holders: seq<Holder>, left: seq<string>)
    requires HoldsFirst(codes, holders, left) && left != []
    ensures HoldsFirst(codes, holders + [Holder(left[0], Placeholder(|holders|))], left[1..])
  {
  }

  /** The callback of the pattern replacement: each match is recorded and masked. */
  method MaskCodes(text: string) returns (masked: string, holders: seq<Holder>)
    ensures masked == Masked(text)
    ensures |holders| == |Codes(text)|
    ensures forall i :: 0 <= i < |holders| ==> holders[i] == Holder(Codes(text)[i], Placeholder(i))
  {
    masked, holders := "", [];
    var rest := text;
    var next := NextCode(rest);
    MaskFromStep(rest, 0);
    while next.Some?
      invariant next == NextCode(rest)
      invariant masked + MaskFrom(rest, |holders|) == Masked(text)
      invariant HoldsFirst(Codes(text), holders, Codes(rest))
      decreases |rest|
    {
      var (i, j) := next.value;
      MaskFromStep(rest, |holders|);
      var ph := Placeholder(|holders|);
      HoldsOneMore(Codes(text), holders, Codes(rest));
      Strings.AssociativeFour(masked, rest[..i], ph, MaskFrom(rest[j..], |holders| + 1));
      holders := holders + [Holder(rest[i..j], ph)];
      masked := masked + rest[..i] + ph;
      rest := rest[j..];
      next := NextCode(rest);
    }
    MaskFromStep(rest, |holders|);
    masked := masked + rest;
  }

  method TransformAt(text: string, appID: string, botID: string, doNotReplaceAppid: bool) returns (result: string)
    ensures result == if doNotReplaceAppid then text else MaskReplaceUnmask(text, appID, botID)
  {
    result := text;
    if !doNotReplaceAppid {
      var holders;
      result, holders := MaskCodes(result);
      result := Replacing.ReplaceAll(result, appID, botID);
      ghost var replaced := result;
      for i := 0 to |holders|
        invariant result == Unmask(replaced, Codes(text), i)
      {
        result := Replacing.ReplaceAll(result, holders[i].placeholder, holders[i].orig);
      }
    }
  }
}
