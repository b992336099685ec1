/** Normalisation of identities (idmap/map_service.go and stripUinPrefix of idmap/service.go). */
module Identities {
  import opened Strings
  import Decimals

  /** What the code reads from its configuration and from libraries; fixed during a run.
      uin is set when databases are shared by several bots. decode32 stands for base32
      decoding, unicodeDigits for the test that every rune is a digit, digest for the
      hexadecimal MD5 sum. */
  datatype Config = Config(
    uin: Option<int>,
    appId: string,
    hashIds: bool,
    decode32: string -> Option<string>,
    unicodeDigits: string -> bool,
    digest: string -> string)

  datatype Identity = Identity(Key: string, Raw: string, Kind: string, Platform: string)

  function UinPrefix(cfg: Config): string {
    match cfg.uin
    case None => ""
    case Some(uin) => Decimals.Decimal(uin) + ":"
  }

  function StripUinPrefix(cfg: Config, val: string): string {
    var prefix := UinPrefix(cfg);
    if prefix != "" && prefix <= val then val[|prefix|..] else val
  }

  function AsciiLower(c: char): char {
    if 'A' <= c <= 'Z' then 'a' + (c - 'A') else c
  }

  function ToLower(s: string): (t: string)
    ensures |t| == |s| && forall i :: 0 <= i < |s| ==> t[i] == AsciiLower(s[i])
  {
    seq(|s|, i requires 0 <= i < |s| => AsciiLower(s[i]))
  }

  function ToUpper(s: string): string {
    seq(|s|, i requires 0 <= i < |s| => if 'a' <= s[i] <= 'z' then 'A' + (s[i] - 'a') else s[i])
  }

  predicate IsDigits(cfg: Config, s: string) {
    s != "" && cfg.unicodeDigits(s)
  }

  function DecodeBase32ID(cfg: Config, id: string): (r: Option<string>)
    ensures r.Some? ==> IsDigits(cfg, r.value)
  {
    match cfg.decode32(ToUpper(id))
    case None => None
    case Some(out) => if out == "" || !IsDigits(cfg, out) then None else Some(out)
  }

  /** The four parts of a text split at its first three dashes. */
  function SplitRUIN(raw: string): Option<(string, string, string, string)> {
    match Cut(raw, '-')
    case None => None
    case Some(first) =>
      match Cut(first.1, '-')
      case None => None
      case Some(second) =>
        match Cut(second.1, '-')
        case None => None
        case Some(third) => Some((first.0, second.0, third.0, third.1))
  }

  function ParseRUIN(cfg: Config, raw: string): Option<Identity> {
    if !("ruin-" <= ToLower(raw)) then None
    else
      match SplitRUIN(raw)
      case None => None
      case Some(parts) =>
        var (_, platform, index, id0) := parts;
        var id := if platform == "QQ" && !IsDigits(cfg, id0)
                  then (match DecodeBase32ID(cfg, id0) case Some(d) => d case None => id0)
                  else id0;
        Some(Identity("ruin:" + platform + ":" + index + ":" + id, RuinRaw(platform, index, id), "ruin", platform))
  }

  function RuinRaw(platform: string, index: string, id: string): string {
    "rUIN-" + platform + "-" + index + "-" + id
  }

  /** Normalisation after the prefix has been stripped. */
  function NormalizeStripped(cfg: Config, raw: string): Identity {
    match ParseRUIN(cfg, raw)
    case Some(identity) => identity
    case None =>
      if |raw| == 32 then Identity("openid:QQ:" + cfg.appId + ":" + raw, raw, "openid", "QQ")
      else Identity("raw:" + raw, raw, "raw", "")
  }

  function Normalize(cfg: Config, raw: string): Identity {
    NormalizeStripped(cfg, StripUinPrefix(cfg, raw))
  }

  lemma OpenidIsLong(cfg: Config, raw: string)
    ensures var identity := NormalizeStripped(cfg, raw);
            "openid:" <= identity.Key ==> |identity.Raw| == 32
  {
    var key := NormalizeStripped(cfg, raw).Key;
    assert "openid:" <= key ==> key[0] == 'o';
  }

  lemma SplitRuinRaw(platform: string, index: string, id: string)
    requires '-' !in platform && '-' !in index
    ensures SplitRUIN(RuinRaw(platform, index, id)) == Some(("rUIN", platform, index, id))
    ensures "ruin-" <= ToLower(RuinRaw(platform, index, id))
  {
    var r2 := index + "-" + id;
    var r1 := platform + "-" + r2;
    RuinRawParts(platform, index, id);
    CutUnique("rUIN", '-', r1);
    CutUnique(platform, '-', r2);
    CutUnique(index, '-', id);
  }

  lemma RuinRawParts(platform: string, index: string, id: string)
    ensures RuinRaw(platform, index, id) == "rUIN" + ['-'] + (platform + "-" + (index + "-" + id))
    ensures "ruin-" <= ToLower(RuinRaw(platform, index, id))
  {
    assert ToLower(RuinRaw(platform, index, id))[..5] == "ruin-";
  }

  /** Without the prefix question, normalising twice is normalising once, rUINs included. */
  lemma StrippedIdempotent(cfg: Config, raw: string)
    ensures NormalizeStripped(cfg, NormalizeStripped(cfg, raw).Raw) == NormalizeStripped(cfg, raw)
  {
    match ParseRUIN(cfg, raw)
    case None =>
    case Some(identity) =>
      var (head, platform, index, id0) := SplitRUIN(raw).value;
      var id := if platform == "QQ" && !IsDigits(cfg, id0)
                then (match DecodeBase32ID(cfg, id0) case Some(d) => d case None => id0)
                else id0;
      SplitRuinRaw(platform, index, id);
  }

  lemma UinPrefixShape(cfg: Config)
    requires cfg.uin.Some?
    ensures UinPrefix(cfg) != "" && UinPrefix(cfg)[0] != 'r'
  {
    assert UinPrefix(cfg)[0] == Decimals.Decimal(cfg.uin.value)[0];
  }

  /** The raw form of an identity survives another normalisation unless the bot's prefix
      still stands at its front. */
  predicate Stable(cfg: Config, raw: string) {
    cfg.uin.None? || !(UinPrefix(cfg) <= raw)
  }

  lemma StableIsStripped(cfg: Config, raw: string)
    ensures Stable(cfg, raw) ==> StripUinPrefix(cfg, raw) == raw
    ensures !Stable(cfg, raw) ==> |StripUinPrefix(cfg, raw)| < |raw|
  {
    if cfg.uin.Some? {
      UinPrefixShape(cfg);
    }
  }

  /** The input does not begin with the bot's prefix twice in a row. */
  predicate PrefixedOnce(cfg: Config, raw: string) {
    cfg.uin.None? || !(UinPrefix(cfg) + UinPrefix(cfg) <= raw)
  }

  lemma PrefixTwice(p: string, raw: string)
    requires p <= raw
    ensures p + p <= raw <==> p <= raw[|p|..]
  {
    assert raw == p + raw[|p|..];
    if p <= raw[|p|..] {
      assert raw[|p|..] == p + raw[|p|..][|p|..];
    }
    if p + p <= raw {
      assert raw[|p|..2 * |p|] == (p + p)[|p|..] == p;
    }
  }

  /** A text that begins with the prefix is no rUIN. */
  lemma PrefixedIsNoRuin(cfg: Config, s: string)
    requires cfg.uin.Some? && UinPrefix(cfg) <= s
    ensures ParseRUIN(cfg, s).None?
  {
    assert UinPrefix(cfg)[0] == s[0] == Decimals.Decimal(cfg.uin.value)[0];
    assert ToLower(s)[0] == AsciiLower(s[0]);
  }

  lemma NormalizedPrefix(cfg: Config, s: string)
    requires cfg.uin.Some?
    ensures UinPrefix(cfg) <= NormalizeStripped(cfg, s).Raw <==> UinPrefix(cfg) <= s
  {
    if UinPrefix(cfg) <= s {
      PrefixedIsNoRuin(cfg, s);
    } else if ParseRUIN(cfg, s).Some? {
      UinPrefixShape(cfg);
      assert NormalizeStripped(cfg, s).Raw[0] == 'r';
    }
  }

  lemma StableIffPrefixedOnce(cfg: Config, raw: string)
    ensures Stable(cfg, Normalize(cfg, raw).Raw) <==> PrefixedOnce(cfg, raw)
  {
    if cfg.uin.Some? {
      UinPrefixShape(cfg);
      NormalizedPrefix(cfg, StripUinPrefix(cfg, raw));
      if UinPrefix(cfg) <= raw {
        PrefixTwice(UinPrefix(cfg), raw);
      }
    }
  }

  /** Normalising is idempotent exactly for inputs that do not begin with the prefix twice. */
  lemma NormalizeIdempotentIff(cfg: Config, raw: string)
    ensures Normalize(cfg, Normalize(cfg, raw).Raw) == Normalize(cfg, raw) <==> PrefixedOnce(cfg, raw)
  {
    StableIffPrefixedOnce(cfg, raw);
    IdempotentIffStable(cfg, raw);
  }

  lemma IdempotentIffStable(cfg: Config, raw: string)
    ensures Normalize(cfg, Normalize(cfg, raw).Raw) == Normalize(cfg, raw) <==> Stable(cfg, Normalize(cfg, raw).Raw)
  {
    var s := StripUinPrefix(cfg, raw);
    var once := NormalizeStripped(cfg, s);
    StrippedIdempotent(cfg, s);
    StableIsStripped(cfg, once.Raw);
    if !Stable(cfg, once.Raw) {
      UinPrefixShape(cfg);
      assert once.Raw[0] != 'r';
      var t := StripUinPrefix(cfg, once.Raw);
      NormalizedKeyTells(cfg, s, t);
    }
  }

  /** A shorter text never normalises to the identity of a text that is not a rUIN. */
  lemma NormalizedKeyTells(cfg: Config, s: string, t: string)
    requires ParseRUIN(cfg, s).None? && |t| < |s|
    ensures NormalizeStripped(cfg, t) != NormalizeStripped(cfg, s)
  {
    if ParseRUIN(cfg, t).Some? {
      assert NormalizeStripped(cfg, t).Kind == "ruin";
    }
  }

  /** The prefix doubled: stored under one key, read back under another. */
  lemma DoubledPrefixIsNotStable(cfg: Config)
    requires cfg.uin == Some(7)
    ensures Normalize(cfg, "7:7:x").Raw == "7:x" && Normalize(cfg, "7:x").Raw == "x"
  {
    assert Decimals.Decimal(7) == "7";
    assert UinPrefix(cfg) == "7:";
    assert StripUinPrefix(cfg, "7:7:x") == "7:x";
    assert StripUinPrefix(cfg, "7:x") == "x";
    assert ToLower("7:x")[0] == '7' && ToLower("x")[0] == 'x';
  }
}
