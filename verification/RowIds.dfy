/** Row IDs and the digest they come from (GenerateRowID in idmap/service.go). */
module RowIds {
  import opened Strings
  import opened Decimals
  import Probing
  import opened Identities
  import opened IdBuckets
  import opened IdentityStore

  ghost predicate DigitAt(s: string, n: int) {
    0 <= n < |s| && '0' <= s[n] <= '9'
  }

  /** The positions of the digits of s, in order. */
  ghost predicate DigitPositions(s: string, at: seq<nat>) {
    && (forall j :: 0 <= j < |at| ==> DigitAt(s, at[j]))
    && (forall i, j :: 0 <= i < j < |at| ==> at[i] < at[j])
    && (forall n {:trigger DigitAt(s, n)} :: DigitAt(s, n) ==> Listed(at, n))
  }

  ghost predicate Listed(at: seq<nat>, n: int) {
    exists j :: 0 <= j < |at| && at[j] == n
  }

  lemma OnlyDigitsCons(c: char, t: string)
    ensures OnlyDigits([c] + t) == (if IsDigit(c) then [c] else "") + OnlyDigits(t)
  {
    assert ([c] + t)[1..] == t;
  }

  lemma FirstChar(s: string)
    requires s != ""
    ensures [s[0]] + s[1..] == s
  {
  }

  lemma {:induction false} OnlyDigitsSnoc(s: string, c: char)
    ensures OnlyDigits(s + [c]) == OnlyDigits(s) + if IsDigit(c) then [c] else ""
  {
    if s == "" {
      OnlyDigitsCons(c, "");
      assert "" + [c] == [c] + "";
    } else {
      var x, t := s[0], s[1..];
      FirstChar(s);
      Associative([x], t, [c]);
      OnlyDigitsSnoc(t, c);
      OnlyDigitsCons(x, t);
      OnlyDigitsCons(x, t + [c]);
      Associative(if IsDigit(x) then [x] else "", OnlyDigits(t), if IsDigit(c) then [c] else "");
    }
  }

  lemma OneMorePosition(s: string, c: char, at: seq<nat>)
    requires DigitPositions(s, at)
    ensures DigitPositions(s + [c], if IsDigit(c) then at + [|s|] else at)
  {
    var t, more := s + [c], if IsDigit(c) then at + [|s|] else at;
    forall j | 0 <= j < |more| ensures DigitAt(t, more[j]) {
      if j < |at| {
        assert DigitAt(s, at[j]);
      }
    }
    forall n {:trigger DigitAt(t, n)} | DigitAt(t, n) ensures Listed(more, n) {
      if n < |s| {
        assert DigitAt(s, n) && Listed(at, n);
        var j :| 0 <= j < |at| && at[j] == n;
        assert more[j] == n;
      } else {
        assert more[|at|] == n;
      }
    }
  }

  /** t is what stands at these positions. */
  ghost predicate Picks(s: string, at: seq<nat>, t: string) {
    |t| == |at| && forall j :: 0 <= j < |at| ==> at[j] < |s| && t[j] == s[at[j]]
  }

  lemma OneMorePicked(s: string, c: char, at: seq<nat>, t: string)
    requires Picks(s, at, t)
    ensures Picks(s + [c], at, t) && Picks(s + [c], at + [|s|], t + [c])
  {
  }

  ghost predicate PicksDigits(s: string, at: seq<nat>) {
    DigitPositions(s, at) && Picks(s, at, OnlyDigits(s))
  }

  ghost predicate CanPick(s: string) {
    exists at: seq<nat> :: PicksDigits(s, at)
  }

  lemma OneMoreChar(s: string, c: char, at: seq<nat>)
    requires PicksDigits(s, at)
    ensures PicksDigits(s + [c], if IsDigit(c) then at + [|s|] else at)
  {
    OneMorePosition(s, c, at);
    OneMorePicked(s, c, at, OnlyDigits(s));
    OnlyDigitsSnoc(s, c);
  }

  lemma PickOneMore(s: string, c: char)
    requires CanPick(s)
    ensures CanPick(s + [c])
  {
    var at: seq<nat> :| PicksDigits(s, at);
    OneMoreChar(s, c, at);
  }

  lemma LastChar(s: string)
    requires s != ""
    ensures s[..|s| - 1] + [s[|s| - 1]] == s
  {
  }

  lemma {:induction false} DigitsPicked(s: string)
    ensures CanPick(s)
  {
    if s == "" {
      var none: seq<nat> := [];
      assert PicksDigits("", none);
    } else {
      LastChar(s);
      DigitsPicked(s[..|s| - 1]);
      PickOneMore(s[..|s| - 1], s[|s| - 1]);
    }
  }

  /** The first n of these characters, with zeros behind them if there are too few. */
  ghost predicate ShownFirst(s: string, at: seq<nat>, shown: string) {
    forall j :: 0 <= j < |shown| ==> if j < |at| then at[j] < |s| && shown[j] == s[at[j]] else shown[j] == '0'
  }

  lemma RowDigitsShown(cfg: Config, raw: string, length: nat, at: seq<nat>)
    requires Picks(cfg.digest(raw), at, OnlyDigits(cfg.digest(raw)))
    ensures ShownFirst(cfg.digest(raw), at, RowDigits(cfg, raw, length))
  {
  }

  /** A row ID is the number that the first digits of the digest show. */
  lemma RowIdOfDigest(cfg: Config, raw: string, length: nat) returns (at: seq<nat>, shown: string)
    requires 0 < length <= 18
    ensures DigitPositions(cfg.digest(raw), at) && ShownFirst(cfg.digest(raw), at, shown)
    ensures |shown| == length && AllDigits(shown) && GenerateRowID(cfg, raw, length) == Some(NumeralValue(shown))
  {
    DigitsPicked(cfg.digest(raw));
    at :| PicksDigits(cfg.digest(raw), at);
    RowDigitsShown(cfg, raw, length, at);
    shown := RowDigits(cfg, raw, length);
    RowIdExists(cfg, raw, length);
    ParseDigits(shown);
  }

  lemma NineDigitsSmall(cfg: Config, raw: string)
    ensures GenerateRowID(cfg, raw, 9).Some? && 0 <= GenerateRowID(cfg, raw, 9).value < 1_000_000_000
  {
    RowIdExists(cfg, raw, 9);
    NumeralBound(RowDigits(cfg, raw, 9));
    assert Pow10(3) == 1000;
    assert Pow10(6) == 1_000_000;
    assert Pow10(9) == 1_000_000_000;
  }

  lemma HashedSuccess(cfg: Config, b: Buckets, raw: string, v: int, next: Buckets)
    requires cfg.hashIds && Allocates(cfg, b, raw, Ok(v), next)
    ensures !RowIdHeld(cfg, b, raw, 9) ==> GenerateRowID(cfg, raw, 9) == Some(v)
    ensures exists d: nat :: 9 <= d <= 18 && !RowIdHeld(cfg, b, raw, d)
  {
    var d: nat :| 9 <= d <= 18 && GenerateRowID(cfg, raw, d) == Some(v) &&
      forall e: nat :: 9 <= e < d ==> RowIdHeld(cfg, b, raw, e);
    assert !RowIdHeld(cfg, b, raw, d);
  }

  /** In the hash mode a new identity gets its row ID of nine digits if that is free, and none at
      all exactly if all of nine to eighteen digits are taken. */
  lemma HashedAllocation(cfg: Config, b: Buckets, raw: string, r: Result<int, StoreError>, next: Buckets)
    requires cfg.hashIds && Allocates(cfg, b, raw, r, next)
    ensures var short := GenerateRowID(cfg, raw, 9);
            short.Some? && 0 <= short.value < 1_000_000_000 &&
            (!Probing.Taken(b.forward, short.value) ==> r == Ok(short.value))
    ensures r.Err? <==> forall d: nat :: 9 <= d <= 18 ==> RowIdHeld(cfg, b, raw, d)
    ensures r.Ok? ==> next.counter >= r.value && next.counter >= b.counter
  {
    NineDigitsSmall(cfg, raw);
    if r.Ok? {
      HashedSuccess(cfg, b, raw, r.value, next);
    } else {
      assert RowIdHeld(cfg, b, raw, 9);
    }
  }
}
