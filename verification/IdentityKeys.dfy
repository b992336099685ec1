/** Which inputs share an identity (normalizeIdentity and parseRUIN in idmap/map_service.go), and
    so a vUIN. */
module IdentityKeys {
  import opened Strings
  import opened Decimals
  import opened Identities
  import opened IdBuckets
  import IdentityStore
  import IdRuns

  // ---- inputs that are not rUINs

  lemma KeyHead(cfg: Config, s: string)
    ensures var key := NormalizeStripped(cfg, s).Key;
            && (ParseRUIN(cfg, s).Some? ==> "ru" <= key)
            && (ParseRUIN(cfg, s).None? && |s| == 32 ==> key == "openid:QQ:" + cfg.appId + ":" + s)
            && (ParseRUIN(cfg, s).None? && |s| != 32 ==> key == "raw:" + s)
  {
    var key := NormalizeStripped(cfg, s).Key;
    if ParseRUIN(cfg, s).Some? {
      var (_, platform, index, _) := SplitRUIN(s).value;
      assert key[0] == 'r' && key[1] == 'u' && key[..2] == "ru";
    }
  }

  lemma BehindSame(p: string, a: string, b: string)
    requires p + a == p + b
    ensures a == b
  {
    assert (p + a)[|p|..] == a && (p + b)[|p|..] == b;
  }

  lemma HeadsDiffer(cfg: Config, a: string, b: string)
    ensures ("openid:QQ:" + cfg.appId + ":" + a)[0] == 'o'
    ensures ("raw:" + b)[0] == 'r' && ("raw:" + b)[1] == 'a'
  {
  }

  /** Two inputs with the same key have the same raw form, unless both are rUINs. */
  lemma KeyTellsRaw(cfg: Config, a: string, b: string)
    requires ParseRUIN(cfg, a).None? && NormalizeStripped(cfg, a).Key == NormalizeStripped(cfg, b).Key
    ensures NormalizeStripped(cfg, a).Raw == NormalizeStripped(cfg, b).Raw == a == b
  {
    KeyHead(cfg, a);
    KeyHead(cfg, b);
    HeadsDiffer(cfg, a, a);
    HeadsDiffer(cfg, b, b);
    if |a| == 32 {
      BehindSame("openid:QQ:" + cfg.appId + ":", a, b);
    } else {
      BehindSame("raw:", a, b);
    }
  }

  /** The raw form determines the key, for all inputs. */
  lemma RawTellsKey(cfg: Config, a: string, b: string)
    requires NormalizeStripped(cfg, a).Raw == NormalizeStripped(cfg, b).Raw
    ensures NormalizeStripped(cfg, a) == NormalizeStripped(cfg, b)
  {
    StrippedIdempotent(cfg, a);
    StrippedIdempotent(cfg, b);
  }

  // ---- rUINs

  datatype Parts = Parts(platform: string, index: string, id: string)

  function KeyOfParts(p: Parts): string {
    "ruin:" + p.platform + ":" + p.index + ":" + p.id
  }

  function RawOfParts(p: Parts): string {
    "rUIN-" + p.platform + "-" + p.index + "-" + p.id
  }

  ghost predicate Dashless(p: Parts) {
    '-' !in p.platform && '-' !in p.index
  }

  /** Behind the key's head. */
  function Tail(p: Parts): string {
    p.platform + ":" + (p.index + ":" + p.id)
  }

  /** The platform, the index and the ID, decoded if need be, that a rUIN is read as. */
  lemma PartsOf(cfg: Config, s: string) returns (p: Parts)
    requires ParseRUIN(cfg, s).Some?
    ensures Dashless(p)
    ensures NormalizeStripped(cfg, s).Key == KeyOfParts(p) && NormalizeStripped(cfg, s).Raw == RawOfParts(p)
    ensures SplitRUIN(s).Some? && SplitRUIN(s).value.1 == p.platform && SplitRUIN(s).value.2 == p.index
  {
    var (head, platform, index, id0) := SplitRUIN(s).value;
    var id := if platform == "QQ" && !IsDigits(cfg, id0)
              then (match DecodeBase32ID(cfg, id0) case Some(d) => d case None => id0)
              else id0;
    p := Parts(platform, index, id);
  }

  lemma KeyIsTail(p: Parts)
    ensures KeyOfParts(p) == "ruin:" + Tail(p)
    ensures RawOfParts(p) == "rUIN-" + (p.platform + "-" + (p.index + "-" + p.id))
  {
  }

  lemma TailsEqual(p: Parts, q: Parts)
    requires KeyOfParts(p) == KeyOfParts(q)
    ensures Tail(p) == Tail(q)
  {
    KeyIsTail(p);
    KeyIsTail(q);
    BehindSame("ruin:", Tail(p), Tail(q));
  }

  lemma CutSame(a: string, x: string, b: string, y: string, c: char)
    requires c !in a && c !in b && a + [c] + x == b + [c] + y
    ensures a == b && x == y
  {
    CutUnique(a, c, x);
    CutUnique(b, c, y);
  }

  lemma TailAsCut(p: Parts)
    ensures Tail(p) == p.platform + [':'] + (p.index + [':'] + p.id)
  {
  }

  /** Without colons in platform and index the key determines the parts. */
  lemma ColonlessPartsTold(p: Parts, q: Parts)
    requires ':' !in p.platform && ':' !in p.index && ':' !in q.platform && ':' !in q.index
    requires KeyOfParts(p) == KeyOfParts(q)
    ensures p == q
  {
    TailsEqual(p, q);
    TailAsCut(p);
    TailAsCut(q);
    CutSame(p.platform, p.index + [':'] + p.id, q.platform, q.index + [':'] + q.id, ':');
    CutSame(p.index, p.id, q.index, q.id, ':');
  }

  /** The platform and the index of a rUIN have no colon. */
  ghost predicate Colonless(cfg: Config, s: string) {
    ParseRUIN(cfg, s).Some? ==>
      SplitRUIN(s).Some? && ':' !in SplitRUIN(s).value.1 && ':' !in SplitRUIN(s).value.2
  }

  /** So two inputs have the same identity exactly if they have the same raw form. */
  lemma SameIdentityIff(cfg: Config, a: string, b: string)
    requires Colonless(cfg, a) && Colonless(cfg, b)
    ensures NormalizeStripped(cfg, a).Key == NormalizeStripped(cfg, b).Key <==>
            NormalizeStripped(cfg, a).Raw == NormalizeStripped(cfg, b).Raw
  {
    if NormalizeStripped(cfg, a).Raw == NormalizeStripped(cfg, b).Raw {
      RawTellsKey(cfg, a, b);
    } else if NormalizeStripped(cfg, a).Key == NormalizeStripped(cfg, b).Key {
      if ParseRUIN(cfg, a).None? {
        KeyTellsRaw(cfg, a, b);
      } else if ParseRUIN(cfg, b).None? {
        KeyTellsRaw(cfg, b, a);
      } else {
        var p := PartsOf(cfg, a);
        var q := PartsOf(cfg, b);
        ColonlessPartsTold(p, q);
      }
    }
  }

  // ---- rUINs that share a key although their raw forms differ

  /** What stands before the first colon; all of it if there is none. */
  function FirstPart(s: string): string {
    match Cut(s, ':')
    case None => s
    case Some(parts) => parts.0
  }

  /** The platform or the index has a colon, or the ID has one with no dash before it. */
  predicate Resplits(p: Parts) {
    ':' in p.platform || ':' in p.index || (':' in p.id && '-' !in FirstPart(p.id))
  }

  /** Base32 decodes no text with a colon. */
  ghost predicate DecodesNoColon(cfg: Config) {
    forall t :: ':' in t ==> cfg.decode32(t).None?
  }

  lemma UpperColon(s: string)
    requires ':' in s
    ensures ':' in ToUpper(s)
  {
    var i :| 0 <= i < |s| && s[i] == ':';
    assert ToUpper(s)[i] == ':';
  }

  /** Parts are read back from their raw form where the ID is not decoded. */
  lemma PartsReadBack(cfg: Config, p: Parts)
    requires Dashless(p) && DecodesNoColon(cfg) && (p.platform != "QQ" || ':' in p.id)
    ensures NormalizeStripped(cfg, RawOfParts(p)).Key == KeyOfParts(p)
    ensures NormalizeStripped(cfg, RawOfParts(p)).Raw == RawOfParts(p)
  {
    SplitRuinRaw(p.platform, p.index, p.id);
    assert RawOfParts(p) == RuinRaw(p.platform, p.index, p.id);
    if p.platform == "QQ" {
      UpperColon(p.id);
    }
  }

  lemma FirstPartOf(a: string, x: string)
    requires ':' !in a
    ensures FirstPart(a + [':'] + x) == a
  {
    CutUnique(a, ':', x);
  }

  lemma CutFirst(s: string) returns (u: string, v: string)
    requires ':' in s
    ensures s == u + [':'] + v && ':' !in u && FirstPart(s) == u
    ensures '-' !in s ==> '-' !in u && '-' !in v
  {
    var parts := Cut(s, ':').value;
    u, v := parts.0, parts.1;
  }

  /** q is another way to split the key of p, and its ID is not decoded. */
  ghost predicate SplitsSame(p: Parts, q: Parts) {
    Dashless(q) && q != p && KeyOfParts(q) == KeyOfParts(p) && (q.platform == "QQ" ==> ':' in q.id)
  }

  lemma SameTailSameKey(p: Parts, q: Parts)
    requires q.platform + [':'] + (q.index + [':'] + q.id) == p.platform + [':'] + (p.index + [':'] + p.id)
    ensures KeyOfParts(q) == KeyOfParts(p)
  {
    TailAsCut(p);
    TailAsCut(q);
    KeyIsTail(p);
    KeyIsTail(q);
  }

  lemma Regroup(u: string, v: string, x: string)
    ensures (u + [':'] + v) + [':'] + x == u + [':'] + (v + [':'] + x)
    ensures ':' in u + [':'] + v
  {
    assert (u + [':'] + v)[|u|] == ':';
  }

  lemma SplitInPlatform(p: Parts) returns (q: Parts)
    requires Dashless(p) && ':' in p.platform
    ensures SplitsSame(p, q)
  {
    var u, v := CutFirst(p.platform);
    q := Parts(u, v, p.index + [':'] + p.id);
    Regroup(u, v, p.index + [':'] + p.id);
    Regroup(p.index, p.id, "");
    SameTailSameKey(p, q);
    assert |u| < |p.platform|;
  }

  lemma SplitInIndex(p: Parts) returns (q: Parts)
    requires Dashless(p) && ':' in p.index
    ensures SplitsSame(p, q)
  {
    var u, v := CutFirst(p.index);
    q := Parts(p.platform, u, v + [':'] + p.id);
    Regroup(u, v, p.id);
    Regroup(v, p.id, "");
    SameTailSameKey(p, q);
    assert |u| < |p.index|;
  }

  lemma SplitInId(p: Parts) returns (q: Parts)
    requires Dashless(p) && ':' in p.id && '-' !in FirstPart(p.id)
    ensures SplitsSame(p, q)
  {
    var u, v := CutFirst(p.id);
    q := Parts(p.platform + [':'] + p.index, u, v);
    Regroup(p.platform, p.index, u + [':'] + v);
    SameTailSameKey(p, q);
    assert |q.platform| > |p.platform| && ':' !in "QQ";
  }

  lemma OtherSplit(p: Parts) returns (q: Parts)
    requires Dashless(p) && Resplits(p)
    ensures SplitsSame(p, q)
  {
    if ':' in p.platform {
      q := SplitInPlatform(p);
    } else if ':' in p.index {
      q := SplitInIndex(p);
    } else {
      q := SplitInId(p);
    }
  }

  /** Of two different ways to split a key both have a colon that another split can use. */
  lemma ResplitsIfShared(p: Parts, q: Parts)
    requires Dashless(p) && Dashless(q) && p != q && KeyOfParts(p) == KeyOfParts(q)
    ensures Resplits(p)
  {
    if !Resplits(p) {
      TailsEqual(p, q);
      TailAsCut(p);
      TailAsCut(q);
      if ':' in q.platform {
        var u, v := CutFirst(q.platform);
        assert Tail(q) == u + [':'] + (v + [':'] + (q.index + [':'] + q.id));
        CutSame(p.platform, p.index + [':'] + p.id, u, v + [':'] + (q.index + [':'] + q.id), ':');
        IndexOrId(p, v, q.index, q.id);
      } else {
        CutSame(p.platform, p.index + [':'] + p.id, q.platform, q.index + [':'] + q.id, ':');
        if ':' in q.index {
          var u, v := CutFirst(q.index);
          assert q.index + [':'] + q.id == u + [':'] + (v + [':'] + q.id);
          CutSame(p.index, p.id, u, v + [':'] + q.id, ':');
          DashlessFirst(v, q.id);
        } else {
          CutSame(p.index, p.id, q.index, q.id, ':');
        }
      }
    }
  }

  lemma DashlessFirst(a: string, x: string)
    requires '-' !in a
    ensures ':' in a + [':'] + x && '-' !in FirstPart(a + [':'] + x)
  {
    var s := a + [':'] + x;
    assert s[|a|] == ':';
    if ':' in a {
      var u, v := CutFirst(a);
      assert s == u + [':'] + (v + [':'] + x);
      FirstPartOf(u, v + [':'] + x);
    } else {
      FirstPartOf(a, x);
    }
  }

  /** An index and an ID that read as three dashless pieces and more: the ID has a free colon. */
  lemma IndexOrId(p: Parts, v: string, index: string, id: string)
    requires p.index + [':'] + p.id == v + [':'] + (index + [':'] + id)
    requires ':' !in p.index && '-' !in v && '-' !in index
    ensures ':' in p.id && '-' !in FirstPart(p.id)
  {
    if ':' in v {
      var a, b := CutFirst(v);
      assert v + [':'] + (index + [':'] + id) == a + [':'] + (b + [':'] + (index + [':'] + id));
      CutSame(p.index, p.id, a, b + [':'] + (index + [':'] + id), ':');
      DashlessFirst(b, index + [':'] + id);
    } else {
      CutSame(p.index, p.id, v, index + [':'] + id, ':');
      DashlessFirst(index, id);
    }
  }

  /** Another input has the same key but another raw form. */
  ghost predicate KeyShared(cfg: Config, a: string) {
    exists b :: NormalizeStripped(cfg, b).Key == NormalizeStripped(cfg, a).Key &&
                NormalizeStripped(cfg, b).Raw != NormalizeStripped(cfg, a).Raw
  }

  lemma SharedResplits(cfg: Config, a: string, b: string, p: Parts)
    requires ParseRUIN(cfg, a).Some? && Dashless(p) && NormalizeStripped(cfg, a).Key == KeyOfParts(p)
    requires NormalizeStripped(cfg, a).Raw == RawOfParts(p)
    requires NormalizeStripped(cfg, b).Key == NormalizeStripped(cfg, a).Key
    requires NormalizeStripped(cfg, b).Raw != NormalizeStripped(cfg, a).Raw
    ensures Resplits(p)
  {
    if ParseRUIN(cfg, b).None? {
      KeyTellsRaw(cfg, b, a);
    } else {
      var q := PartsOf(cfg, b);
      ResplitsIfShared(p, q);
    }
  }

  lemma ResplitsShared(cfg: Config, a: string, p: Parts)
    requires Dashless(p) && Resplits(p) && DecodesNoColon(cfg)
    requires NormalizeStripped(cfg, a).Key == KeyOfParts(p) && NormalizeStripped(cfg, a).Raw == RawOfParts(p)
    ensures KeyShared(cfg, a)
  {
    var q := OtherSplit(p);
    PartsReadBack(cfg, q);
    if RawOfParts(q) == RawOfParts(p) {
      RawTellsParts(p, q);
    }
  }

  /** A rUIN shares its key with another one exactly if a colon allows another split. */
  lemma KeySharedIff(cfg: Config, a: string) returns (p: Parts)
    requires ParseRUIN(cfg, a).Some? && DecodesNoColon(cfg)
    ensures NormalizeStripped(cfg, a).Raw == RawOfParts(p) && Dashless(p)
    ensures KeyShared(cfg, a) <==> Resplits(p)
  {
    p := PartsOf(cfg, a);
    if Resplits(p) {
      ResplitsShared(cfg, a, p);
    } else if KeyShared(cfg, a) {
      var b :| NormalizeStripped(cfg, b).Key == NormalizeStripped(cfg, a).Key &&
               NormalizeStripped(cfg, b).Raw != NormalizeStripped(cfg, a).Raw;
      SharedResplits(cfg, a, b, p);
    }
  }

  lemma RawTellsParts(p: Parts, q: Parts)
    requires Dashless(p) && Dashless(q) && RawOfParts(p) == RawOfParts(q)
    ensures p == q
  {
    KeyIsTail(p);
    KeyIsTail(q);
    BehindSame("rUIN-", p.platform + "-" + (p.index + "-" + p.id), q.platform + "-" + (q.index + "-" + q.id));
    CutSame(p.platform, p.index + "-" + p.id, q.platform, q.index + "-" + q.id, '-');
    CutSame(p.index, p.id, q.index, q.id, '-');
  }

  // ---- how rUINs are read

  /** An ID of platform QQ that is no number, in any case, is decoded if that gives digits: then it
      is the same identity as with the digits. */
  lemma EncodedIdDecoded(cfg: Config, index: string, encoded: string, digits: string)
    requires '-' !in index && !IsDigits(cfg, encoded) && IsDigits(cfg, digits)
    requires cfg.decode32(ToUpper(encoded)) == Some(digits)
    ensures NormalizeStripped(cfg, RawOfParts(Parts("QQ", index, encoded))).Key ==
      KeyOfParts(Parts("QQ", index, digits))
    ensures NormalizeStripped(cfg, RawOfParts(Parts("QQ", index, encoded))).Raw ==
      RawOfParts(Parts("QQ", index, digits))
  {
    SplitRuinRaw("QQ", index, encoded);
    assert RawOfParts(Parts("QQ", index, encoded)) == RuinRaw("QQ", index, encoded);
  }

  /** Otherwise the ID stays as it is. */
  lemma OtherIdKept(cfg: Config, p: Parts)
    requires Dashless(p)
    requires p.platform != "QQ" || IsDigits(cfg, p.id) || cfg.decode32(ToUpper(p.id)).None? ||
      !IsDigits(cfg, cfg.decode32(ToUpper(p.id)).value)
    ensures NormalizeStripped(cfg, RawOfParts(p)).Raw == RawOfParts(p)
    ensures NormalizeStripped(cfg, RawOfParts(p)).Key == KeyOfParts(p)
  {
    SplitRuinRaw(p.platform, p.index, p.id);
    assert RawOfParts(p) == RuinRaw(p.platform, p.index, p.id);
  }

  lemma SplitAnyHead(head: string, platform: string, index: string, id: string)
    requires |head| == 4 && ToLower(head) == "ruin" && '-' !in platform && '-' !in index
    ensures SplitRUIN(head + ['-'] + (platform + "-" + (index + "-" + id))) == Some((head, platform, index, id))
    ensures "ruin-" <= ToLower(head + ['-'] + (platform + "-" + (index + "-" + id)))
  {
    var r2 := index + "-" + id;
    var r1 := platform + "-" + r2;
    HeadNoDash(head);
    AnyHead(head + ['-'] + r1, head, r1);
    CutUnique(head, '-', r1);
    CutUnique(platform, '-', r2);
    CutUnique(index, '-', id);
  }

  /** The head of a rUIN may be written in any case. */
  lemma HeadInAnyCase(cfg: Config, head: string, p: Parts)
    requires |head| == 4 && ToLower(head) == "ruin" && Dashless(p)
    ensures NormalizeStripped(cfg, head + ['-'] + (p.platform + "-" + (p.index + "-" + p.id))) ==
            NormalizeStripped(cfg, RawOfParts(p))
  {
    SplitAnyHead(head, p.platform, p.index, p.id);
    SplitRuinRaw(p.platform, p.index, p.id);
    assert RawOfParts(p) == RuinRaw(p.platform, p.index, p.id);
  }

  lemma HeadNoDash(head: string)
    requires ToLower(head) == "ruin"
    ensures '-' !in head
  {
    assert forall i :: 0 <= i < |head| ==> AsciiLower(head[i]) == "ruin"[i];
  }

  lemma AnyHead(s: string, head: string, rest: string)
    requires |head| == 4 && ToLower(head) == "ruin" && s == head + ['-'] + rest
    ensures "ruin-" <= ToLower(s)
  {
    assert forall i :: 0 <= i < 4 ==> ToLower(s)[i] == ToLower(head)[i];
    assert ToLower(s)[..5] == "ruin-";
  }

  // ---- the bot's prefix, and plain inputs

  /** An input that is read as it stands. */
  ghost predicate Plain(cfg: Config, s: string) {
    !("ruin-" <= ToLower(s)) && (cfg.uin.None? || !(Decimal(cfg.uin.value) + ":" <= s))
  }

  lemma PlainIsRaw(cfg: Config, s: string)
    requires Plain(cfg, s)
    ensures Normalize(cfg, s).Raw == s && Normalize(cfg, s) == NormalizeStripped(cfg, s)
  {
  }

  /** With or without the bot's prefix it is the same identity. */
  lemma PrefixIgnored(cfg: Config, s: string)
    requires cfg.uin.Some? && !(Decimal(cfg.uin.value) + ":" <= s)
    ensures Normalize(cfg, Decimal(cfg.uin.value) + ":" + s) == Normalize(cfg, s)
  {
    var p := Decimal(cfg.uin.value) + ":";
    assert p <= p + s && (p + s)[|p|..] == s;
  }

  // ---- runs of stores

  /** Step i stores this input and answers with this vUIN. */
  ghost predicate Answers(cfg: Config, states: seq<Buckets>, ops: seq<IdRuns.Op>, i: nat, raw: string, v: int) {
    && i < |ops| && |states| == |ops| + 1 && ops[i] == IdRuns.StoreOp(raw)
    && IdentityStore.Stores(cfg, states[i], raw, Ok(v), states[i + 1])
  }

  ghost predicate MappedTo(b: Buckets, key: string, v: int) {
    key in b.forward && b.forward[key] == v
  }

  lemma StoredIsMapped(cfg: Config, b: Buckets, raw: string, v: int, next: Buckets)
    requires IdentityStore.Stores(cfg, b, raw, Ok(v), next)
    ensures MappedTo(next, Normalize(cfg, raw).Key, v)
  {
  }

  /** In a run of stores two answers are the same exactly if the inputs have the same key. */
  lemma SameAnswerIff(cfg: Config, states: seq<Buckets>, ops: seq<IdRuns.Op>, i: nat, a: string, v: int, j: nat,
      b: string, w: int)
    requires IdRuns.IsRun(cfg, states, ops) && IdRuns.OnlyStores(ops) && i <= j
    requires Answers(cfg, states, ops, i, a, v) && Answers(cfg, states, ops, j, b, w)
    ensures v == w <==> Normalize(cfg, a).Key == Normalize(cfg, b).Key
  {
    var m, n := i + 1, j + 1;
    var first, second := states[m], states[n];
    StoredIsMapped(cfg, states[i], a, v, first);
    StoredIsMapped(cfg, states[j], b, w, second);
    IdRuns.StoringRunIsStable(cfg, states, ops, m, n);
    OneKeyEach(first, second, Normalize(cfg, a).Key, v, Normalize(cfg, b).Key, w);
  }

  lemma OneKeyEach(b: Buckets, later: Buckets, j: string, v: int, k: string, w: int)
    requires IdRuns.Keeps(b, later) && IdRuns.OneIdentityEach(later) && MappedTo(b, j, v) && MappedTo(later, k, w)
    ensures v == w <==> j == k
  {
  }

  /** ... that is, the same raw form, where platform and index of rUINs have no colon. */
  lemma SameVuinIff(cfg: Config, states: seq<Buckets>, ops: seq<IdRuns.Op>, i: nat, a: string, v: int, j: nat,
      b: string, w: int)
    requires IdRuns.IsRun(cfg, states, ops) && IdRuns.OnlyStores(ops) && i <= j
    requires Answers(cfg, states, ops, i, a, v) && Answers(cfg, states, ops, j, b, w)
    requires Colonless(cfg, StripUinPrefix(cfg, a)) && Colonless(cfg, StripUinPrefix(cfg, b))
    ensures v == w <==> Normalize(cfg, a).Raw == Normalize(cfg, b).Raw
  {
    SameAnswerIff(cfg, states, ops, i, a, v, j, b, w);
    SameIdentityIff(cfg, StripUinPrefix(cfg, a), StripUinPrefix(cfg, b));
  }

  /** Different plain inputs get different vUINs, and the same one always gets its own. */
  lemma PlainInputsApart(cfg: Config, states: seq<Buckets>, ops: seq<IdRuns.Op>, i: nat, a: string, v: int, j: nat,
      b: string, w: int)
    requires IdRuns.IsRun(cfg, states, ops) && IdRuns.OnlyStores(ops) && i <= j
    requires Answers(cfg, states, ops, i, a, v) && Answers(cfg, states, ops, j, b, w)
    requires Plain(cfg, a) && Plain(cfg, b)
    ensures v == w <==> a == b
  {
    PlainIsRaw(cfg, a);
    PlainIsRaw(cfg, b);
    SameAnswerIff(cfg, states, ops, i, a, v, j, b, w);
    if Normalize(cfg, a).Key == Normalize(cfg, b).Key {
      KeyTellsRaw(cfg, a, b);
    }
  }
}
