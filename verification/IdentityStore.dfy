/** The operations of the two-way ID store (idmap/map_service.go), each bbolt Update one
    atomic step. */
module IdentityStore {
  import opened Strings
  import opened Decimals
  import opened ByteOrder
  import opened Probing
  import opened Identities
  import opened IdBuckets

  datatype StoreError = KeyNotFound | NoUniqueVuin | BadRowId

  // ---- allocation

  function OnlyDigits(s: string): (t: string)
    ensures AllDigits(t)
  {
    if s == "" then "" else (if IsDigit(s[0]) then [s[0]] else "") + OnlyDigits(s[1..])
  }

  function Zeros(n: nat): (t: string)
    ensures |t| == n && AllDigits(t)
  {
    seq(n, _ => '0')
  }

  /** The first `length` digits of the MD5 sum's hexadecimal form, padded with zeros. */
  function RowDigits(cfg: Config, raw: string, length: nat): (t: string)
    ensures |t| == length && AllDigits(t)
  {
    var digits := OnlyDigits(cfg.digest(raw));
    if |digits| >= length then digits[..length] else digits + Zeros(length - |digits|)
  }

  function GenerateRowID(cfg: Config, raw: string, length: nat): Option<int> {
    ParseInt64(RowDigits(cfg, raw, length))
  }

  function Pow10(n: nat): nat {
    if n == 0 then 1 else 10 * Pow10(n - 1)
  }

  lemma {:induction false} NumeralBound(s: string)
    requires AllDigits(s)
    ensures NumeralValue(s) < Pow10(|s|)
  {
    if s != "" {
      NumeralBound(s[..|s| - 1]);
    }
  }

  lemma {:induction false} Pow10Monotone(n: nat)
    requires n <= 18
    ensures Pow10(n) <= 1_000_000_000_000_000_000
    decreases 18 - n
  {
    if n < 18 {
      Pow10Monotone(n + 1);
    } else {
      assert Pow10(6) == 1_000_000;
      assert Pow10(12) == 1_000_000 * Pow10(6) by {
        assert Pow10(9) == 1000 * Pow10(6) && Pow10(12) == 1000 * Pow10(9);
      }
      assert Pow10(15) == 1000 * Pow10(12) && Pow10(18) == 1000 * Pow10(15);
    }
  }

  /** For the lengths the allocator uses, a row ID is always generated and never negative. */
  lemma RowIdExists(cfg: Config, raw: string, length: nat)
    requires 0 < length <= 18
    ensures GenerateRowID(cfg, raw, length).Some? && 0 <= GenerateRowID(cfg, raw, length).value
  {
    var t := RowDigits(cfg, raw, length);
    NumeralBound(t);
    Pow10Monotone(length);
    assert IsDigit(t[0]);
  }

  ghost predicate RowIdHeld(cfg: Config, b: Buckets, raw: string, digits: nat) {
    GenerateRowID(cfg, raw, digits).Some? && Taken(b.forward, GenerateRowID(cfg, raw, digits).value)
  }

  /** The outcome of the allocator: a vUIN that no identity holds, or an error without a change. */
  ghost predicate Allocates(cfg: Config, b: Buckets, raw: string, r: Result<int, StoreError>, next: Buckets) {
    && next == b.(counter := next.counter)
    && match r
       case Err(e) => e == NoUniqueVuin && cfg.hashIds && next == b && forall d: nat :: 9 <= d <= 18 ==>
         RowIdHeld(cfg, b, raw, d)
       case Ok(v) =>
         && IsInt64(v) && !Taken(b.forward, v)
         && if cfg.hashIds then
              && next.counter == (if v > b.counter then v else b.counter)
              && exists d: nat :: 9 <= d <= 18 && GenerateRowID(cfg, raw, d) == Some(v)
                                  && forall e: nat :: 9 <= e < d ==> RowIdHeld(cfg, b, raw, e)
            else next.counter == v && FirstFree(b.forward, StartAfter(b.counter), v)
  }

  lemma AllocationKeepsAgreement(cfg: Config, b: Buckets, raw: string, r: Result<int, StoreError>, next: Buckets)
    requires Agree(cfg, b) && IsInt64(b.counter) && Allocates(cfg, b, raw, r, next)
    ensures Agree(cfg, next) && IsInt64(next.counter)
  {
  }

  lemma CounterChosen(cfg: Config, b: Buckets, raw: string, n: nat, v: int)
    requires !cfg.hashIds && v == Probe(StartAfter(b.counter), n) && !Taken(b.forward, v)
    requires ProbedTaken(b.forward, StartAfter(b.counter), n)
    ensures Allocates(cfg, b, raw, Ok(v), b.(counter := v))
  {
    assert FirstFree(b.forward, StartAfter(b.counter), v);
  }

  // ---- what the operations do to the buckets

  /** Storing a raw ID: a known identity keeps its vUIN, a new one gets a free one. */
  ghost predicate Stores(cfg: Config, b: Buckets, raw: string, r: Result<int, StoreError>, next: Buckets) {
    var identity := Normalize(cfg, raw);
    if identity.Key in b.forward then
      var vuin := b.forward[identity.Key];
      r == Ok(vuin) && next == b.(lastSeen := b.lastSeen[LastSeenKey(vuin) := identity.Raw])
    else
      exists mid :: Allocates(cfg, b, raw, r, mid) && next == if r.Ok? then PutMapping(mid, identity, r.value) else mid
  }

  ghost predicate Binds(cfg: Config, b: Buckets, oldVuin: int, newVuin: int, r: Result<(), StoreError>, next: Buckets) {
    if oldVuin == newVuin then r.Ok? && next == b
    else if Holders(b, oldVuin) == {} then r == Err(KeyNotFound) && next == b
    else r.Ok? && IsRebind(cfg, b, oldVuin, newVuin, next)
  }

  /** The last-seen hint of a vUIN, as long as it still names one of its identities. */
  ghost predicate HintHolds(cfg: Config, b: Buckets, vuin: int) {
    && LastSeenKey(vuin) in b.lastSeen && b.lastSeen[LastSeenKey(vuin)] != ""
    && Normalize(cfg, b.lastSeen[LastSeenKey(vuin)]).Key in Holders(b, vuin)
  }

  predicate Preferred(key: string, raw: string) {
    "openid:" <= key || (|raw| == 32 && !("rUIN-" <= raw))
  }

  /** k is the identity that the walk over the reverse entries settles on. */
  ghost predicate Settles(b: Buckets, vuin: int, k: string) {
    && k in Holders(b, vuin)
    && if Preferred(k, RawOf(b, k))
       then forall j :: j in Holders(b, vuin) && Preferred(j, RawOf(b, j)) ==>
              Leq(VuinIdentityKey(vuin, k), VuinIdentityKey(vuin, j))
       else RawOf(b, k) != "" && (forall j :: j in Holders(b, vuin) ==> !Preferred(j, RawOf(b, j)))
            && forall j :: j in Holders(b, vuin) && RawOf(b, j) != "" ==>
                 Leq(VuinIdentityKey(vuin, k), VuinIdentityKey(vuin, j))
  }

  /** The walk never settles on another identity while one with an openid key is there. */
  lemma OpenidsFirst(b: Buckets, vuin: int, k: string, j: string)
    requires Settles(b, vuin, k) && j in Holders(b, vuin) && "openid:" <= j
    ensures "openid:" <= k || |RawOf(b, k)| == 32
    ensures !("openid:" <= k) ==> !("rUIN-" <= RawOf(b, k))
    ensures Leq(VuinIdentityKey(vuin, k), VuinIdentityKey(vuin, j))
  {
  }

  /** Without any of them, nor a raw form of 32 characters, it settles on the first raw form. */
  lemma FirstRawElse(b: Buckets, vuin: int, k: string, j: string)
    requires forall i :: i in Holders(b, vuin) ==> !("openid:" <= i) && |RawOf(b, i)| != 32
    requires Settles(b, vuin, k) && j in Holders(b, vuin) && RawOf(b, j) != ""
    ensures RawOf(b, k) != "" && Leq(VuinIdentityKey(vuin, k), VuinIdentityKey(vuin, j))
  {
  }

  ghost predicate SettlesOn(b: Buckets, vuin: int, raw: string) {
    exists k :: Settles(b, vuin, k) && raw == RawOf(b, k)
  }

  /** Looking up a vUIN: the hint if it holds, else the first preferred identity in byte
      order, else the first with a raw form. */
  ghost predicate Retrieves(cfg: Config, b: Buckets, virtualID: string, r: Result<string, StoreError>) {
    var v := ParseInt64(virtualID);
    if v.None? || v.value <= 0 then r == Err(KeyNotFound)
    else if HintHolds(cfg, b, v.value) then r == Ok(b.lastSeen[LastSeenKey(v.value)])
    else match r
      case Ok(raw) => raw != "" && SettlesOn(b, v.value, raw)
      case Err(e) => e == KeyNotFound && forall k :: k in Holders(b, v.value) ==> RawOf(b, k) == ""
  }

  class IdStore {
    const cfg: Config
    var forward: map<string, int>
    var reverse: map<string, string>
    var lastSeen: map<string, string>
    var counter: int

    ghost function State(): Buckets
      reads this
    {
      Buckets(forward, reverse, lastSeen, counter)
    }

    ghost predicate Valid()
      reads this
    {
      Agree(cfg, State()) && IsInt64(counter)
    }

    constructor (cfg: Config)
      ensures Valid() && this.cfg == cfg && State() == Buckets(map[], map[], map[], 0)
    {
      this.cfg := cfg;
      forward, reverse, lastSeen, counter := map[], map[], map[], 0;
    }

    method PutIdentityMapping(identity: Identity, vuin: int)
      modifies this
      ensures State() == PutMapping(old(State()), identity, vuin)
    {
      if identity.Key in forward {
        var oldVuin := forward[identity.Key];
        if oldVuin != vuin {
          reverse := reverse - {VuinIdentityKey(oldVuin, identity.Key)};
        }
      }
      forward := forward[identity.Key := vuin];
      reverse := reverse[VuinIdentityKey(vuin, identity.Key) := identity.Raw];
      TouchLastSeen(vuin, identity);
    }

    method TouchLastSeen(vuin: int, identity: Identity)
      modifies `lastSeen
      ensures lastSeen == old(lastSeen)[LastSeenKey(vuin) := identity.Raw]
    {
      lastSeen := lastSeen[LastSeenKey(vuin) := identity.Raw];
    }

    method VuinExists(vuin: int) returns (found: bool)
      requires Valid()
      ensures found <==> Taken(forward, vuin)
    {
      var k := First(reverse.Keys, VuinPrefix(vuin), false);
      found := k.Some? && VuinPrefix(vuin) <= k.value;
      FirstTellsPresence(reverse.Keys, VuinPrefix(vuin), k);
      PresenceIsHeld(cfg, State(), vuin);
    }

    method AllocateVuin(raw: string) returns (r: Result<int, StoreError>)
      requires Valid() && |forward| < TWO_64
      modifies `counter
      ensures Allocates(cfg, old(State()), raw, r, State())
    {
      if cfg.hashIds {
        r := AllocateByHash(raw);
      } else {
        r := AllocateByCounter(raw);
      }
    }

    method AllocateByHash(raw: string) returns (r: Result<int, StoreError>)
      requires Valid() && cfg.hashIds
      modifies `counter
      ensures Allocates(cfg, old(State()), raw, r, State())
    {
      ghost var b := State();
      for digits := 9 to 19
        invariant State() == b
        invariant forall d: nat :: 9 <= d < digits ==> RowIdHeld(cfg, b, raw, d)
      {
        RowIdExists(cfg, raw, digits);
        var row := GenerateRowID(cfg, raw, digits);
        if row.None? {
          return Err(BadRowId);
        }
        var taken := VuinExists(row.value);
        if !taken {
          if row.value > counter {
            counter := row.value;
          }
          r := Ok(row.value);
          assert GenerateRowID(cfg, raw, digits) == Some(row.value);
          return;
        }
      }
      r := Err(NoUniqueVuin);
    }

    method AllocateByCounter(raw: string) returns (r: Result<int, StoreError>)
      requires Valid() && !cfg.hashIds && |forward| < TWO_64
      modifies `counter
      ensures Allocates(cfg, old(State()), raw, r, State())
    {
      ghost var b := State();
      var next := Wrap64(counter + 1);
      if next <= 0 {
        next := 1;
      }
      ghost var start, n: nat := StartAfter(b.counter), 0;
      var taken := VuinExists(next);
      while taken
        invariant State() == b && next == Probe(start, n) && (taken <==> Taken(b.forward, next))
        invariant ProbedTaken(b.forward, start, n)
        decreases |forward| - n + (if taken then 1 else 0)
      {
        OneMoreProbed(b.forward, start, n, next);
        n := n + 1;
        next := Wrap64(next + 1);
        taken := VuinExists(next);
      }
      counter := next;
      r := Ok(next);
      CounterChosen(cfg, b, raw, n, next);
    }

    method StoreIdentity(raw: string) returns (r: Result<int, StoreError>)
      requires Valid() && |forward| < TWO_64
      modifies this
      ensures Valid() && Stores(cfg, old(State()), raw, r, State())
    {
      ghost var b := State();
      var identity := Normalize(cfg, raw);
      InputSpells(cfg, raw);
      if identity.Key in forward {
        var vuin := forward[identity.Key];
        TouchLastSeen(vuin, identity);
        HintKeepsAgreement(cfg, b, State());
        return Ok(vuin);
      }
      r := AllocateVuin(raw);
      ghost var mid := State();
      AllocationKeepsAgreement(cfg, b, raw, r, mid);
      if r.Ok? {
        PutIdentityMapping(identity, r.value);
        PutKeepsAgreement(cfg, mid, identity, r.value);
      }
    }

    method BindIdentity(raw: string, vuin: int)
      requires Valid() && IsInt64(vuin)
      modifies this
      ensures Valid() && State() == PutMapping(old(State()), Normalize(cfg, raw), vuin)
    {
      ghost var b := State();
      var identity := Normalize(cfg, raw);
      PutIdentityMapping(identity, vuin);
      InputSpells(cfg, raw);
      PutKeepsAgreement(cfg, b, identity, vuin);
    }

    /** The cursor loop of bindVuin: all identities of a vUIN with their raw forms. */
    method CollectHolders(vuin: int) returns (moved: seq<Identity>)
      requires Valid()
      ensures ListsSome(State(), vuin, moved)
      ensures forall k :: k in Holders(State(), vuin) ==> Among(moved, k)
    {
      var prefix := VuinPrefix(vuin);
      moved := [];
      ghost var listed: set<string> := {};
      var k := First(reverse.Keys, prefix, false);
      WalkStart(reverse.Keys, prefix, k);
      while k.Some? && prefix <= k.value
        invariant Walked(reverse.Keys, prefix, k, listed)
        invariant ListsSome(State(), vuin, moved)
        invariant forall j :: Among(moved, j) <==> VuinIdentityKey(vuin, j) in listed
        decreases reverse.Keys - listed
      {
        var identityKey := k.value[|prefix|..];
        ghost var was := moved;
        EntryOf(cfg, State(), vuin, k.value);
        moved := moved + [Identity(identityKey, reverse[k.value], "", "")];
        var next := First(reverse.Keys, k.value, true);
        WalkStep(reverse.Keys, prefix, k, listed, next);
        ListedOneMore(State(), vuin, was, Identity(identityKey, reverse[k.value], "", ""), listed);
        listed := listed + {k.value};
        k := next;
      }
      WalkEnd(reverse.Keys, prefix, k, listed);
      forall j | j in Holders(State(), vuin) ensures Among(moved, j) {
        ReverseIffForward(cfg, State(), vuin, j);
        PrefixTellsVuin(vuin, vuin, j);
      }
    }

    method BindVuin(oldVuin: int, newVuin: int) returns (r: Result<(), StoreError>)
      requires Valid() && IsInt64(oldVuin) && IsInt64(newVuin)
      modifies this
      ensures Valid() && Binds(cfg, old(State()), oldVuin, newVuin, r, State())
    {
      if oldVuin == newVuin {
        return Ok(());
      }
      ghost var b := State();
      var moved := CollectHolders(oldVuin);
      if moved == [] {
        assert Holders(b, oldVuin) == {};
        return Err(KeyNotFound);
      }
      assert moved[0].Key in Holders(b, oldVuin);
      for i := 0 to |moved|
        invariant State() == MoveAll(b, oldVuin, newVuin, moved[..i])
      {
        var identity := Identity(moved[i].Key, moved[i].Raw, "", "");
        assert moved[..i + 1][..i] == moved[..i];
        reverse := reverse - {VuinIdentityKey(oldVuin, identity.Key)};
        PutIdentityMapping(identity, newVuin);
      }
      assert moved[..|moved|] == moved;
      lastSeen := lastSeen - {LastSeenKey(oldVuin)};
      MoveAllIsRebind(cfg, b, oldVuin, newVuin, moved);
      r := Ok(());
    }

    method RetrieveIdentity(virtualID: string) returns (r: Result<string, StoreError>)
      requires Valid()
      ensures Retrieves(cfg, State(), virtualID, r)
    {
      var parsed := ParseInt64(virtualID);
      if parsed.None? || parsed.value <= 0 {
        return Err(KeyNotFound);
      }
      var vuin := parsed.value;
      var raw := if LastSeenKey(vuin) in lastSeen then lastSeen[LastSeenKey(vuin)] else "";
      if raw != "" {
        var identity := Normalize(cfg, raw);
        if identity.Key in forward && forward[identity.Key] == vuin {
          return Ok(raw);
        }
      }
      var selected := SelectByWalk(vuin);
      if selected == "" {
        return Err(KeyNotFound);
      }
      r := Ok(selected);
    }

    /** The cursor loop of retrieveIdentity. */
    method SelectByWalk(vuin: int) returns (selected: string)
      requires Valid()
      ensures selected == "" ==> forall k :: k in Holders(State(), vuin) ==> RawOf(State(), k) == ""
      ensures selected != "" ==> SettlesOn(State(), vuin, selected)
    {
      var prefix, fallback := VuinPrefix(vuin), "";
      ghost var listed: set<string>, from := {}, "";
      ghost var b := State();
      var k := First(reverse.Keys, prefix, false);
      WalkStart(reverse.Keys, prefix, k);
      while k.Some? && prefix <= k.value
        invariant Walked(reverse.Keys, prefix, k, listed)
        invariant NonePreferred(b, vuin, listed)
        invariant FallbackSoFar(b, vuin, listed, fallback, from)
        decreases reverse.Keys - listed
      {
        var key := k.value[|prefix|..];
        var raw := reverse[k.value];
        EntryOf(cfg, b, vuin, k.value);
        ghost var was, oldFrom := fallback, from;
        if fallback == "" {
          fallback := raw;
          from := if raw == "" then from else key;
        }
        if "openid:" <= key || (|raw| == 32 && !("rUIN-" <= raw)) {
          PreferredIsRaw(cfg, b, key);
          FirstPreferredSettles(cfg, b, vuin, k, listed, key);
          return raw;
        }
        var next := First(reverse.Keys, k.value, true);
        WalkStep(reverse.Keys, prefix, k, listed, next);
        FallbackOneMore(b, vuin, k, listed, key, was, oldFrom, fallback, from);
        listed := listed + {k.value};
        k := next;
      }
      WalkEnd(reverse.Keys, prefix, k, listed);
      selected := fallback;
      FallbackSettles(cfg, b, vuin, listed, fallback, from);
    }

    method LookupVirtualIdentity(raw: string) returns (vuin: int, found: bool)
      ensures var key := Normalize(cfg, raw).Key;
              && vuin == (if key in forward then forward[key] else 0)
              && found == (vuin > 0)
    {
      var identity := Normalize(cfg, raw);
      vuin := if identity.Key in forward then forward[identity.Key] else 0;
      found := vuin > 0;
    }
  }

  lemma InputSpells(cfg: Config, raw: string)
    ensures Spells(cfg, Normalize(cfg, raw).Raw, Normalize(cfg, raw).Key)
  {
  }

  lemma HintKeepsAgreement(cfg: Config, b: Buckets, next: Buckets)
    requires Agree(cfg, b) && next == b.(lastSeen := next.lastSeen)
    ensures Agree(cfg, next)
  {
  }

  /** A prefixed reverse entry is the entry of one of the vUIN's identities. */
  lemma EntryOf(cfg: Config, b: Buckets, v: int, s: string)
    requires Agree(cfg, b) && s in b.reverse && VuinPrefix(v) <= s
    ensures var k := s[|VuinPrefix(v)|..];
            k in Holders(b, v) && s == VuinIdentityKey(v, k) && b.reverse[s] == RawOf(b, k)
  {
    PrefixedAreHolders(cfg, b, v, s);
  }

  lemma ListedOneMore(b: Buckets, v: int, moved: seq<Identity>, m: Identity, listed: set<string>)
    requires ListsSome(b, v, moved) && m.Key in Holders(b, v) && m.Raw == RawOf(b, m.Key)
    requires VuinIdentityKey(v, m.Key) !in listed
    requires forall j :: Among(moved, j) <==> VuinIdentityKey(v, j) in listed
    ensures ListsSome(b, v, moved + [m])
    ensures forall j :: Among(moved + [m], j) <==> VuinIdentityKey(v, j) in listed + {VuinIdentityKey(v, m.Key)}
  {
    forall j ensures Among(moved + [m], j) <==> VuinIdentityKey(v, j) in listed + {VuinIdentityKey(v, m.Key)} {
      AmongOneMore(moved, m, j);
      if VuinIdentityKey(v, j) == VuinIdentityKey(v, m.Key) {
        VuinKeyInjective(v, j, v, m.Key);
      }
    }
    forall i | 0 <= i < |moved| ensures moved[i].Key != m.Key {
      assert Among(moved, moved[i].Key);
    }
  }

  ghost predicate NonePreferred(b: Buckets, v: int, listed: set<string>) {
    forall k {:trigger Preferred(k, RawOf(b, k))} :: VuinIdentityKey(v, k) in listed ==> !Preferred(k, RawOf(b, k))
  }

  /** fallback is the raw form of the first listed identity that has one, namely `from`. */
  ghost predicate FallbackSoFar(b: Buckets, v: int, listed: set<string>, fallback: string, from: string) {
    if fallback == "" then forall k {:trigger RawOf(b, k)} :: VuinIdentityKey(v, k) in listed ==> RawOf(b, k) == ""
    else
      && VuinIdentityKey(v, from) in listed && RawOf(b, from) == fallback
      && forall k {:trigger RawOf(b, k)} :: VuinIdentityKey(v, k) in listed && RawOf(b, k) != "" ==>
           Leq(VuinIdentityKey(v, from), VuinIdentityKey(v, k))
  }

  lemma HolderEntry(cfg: Config, b: Buckets, v: int, k: string)
    requires Agree(cfg, b) && k in Holders(b, v)
    ensures VuinIdentityKey(v, k) in Prefixed(b.reverse.Keys, VuinPrefix(v))
  {
    ReverseIffForward(cfg, b, v, k);
    PrefixTellsVuin(v, v, k);
  }

  /** A preferred identity has a raw form: an openid is 32 bytes long. */
  lemma PreferredIsRaw(cfg: Config, b: Buckets, k: string)
    requires Agree(cfg, b) && k in b.forward && Preferred(k, RawOf(b, k))
    ensures RawOf(b, k) != ""
  {
    RawIsSpelling(cfg, b, k);
    var input :| Normalize(cfg, input).Key == k && Normalize(cfg, input).Raw == RawOf(b, k);
    OpenidIsLong(cfg, StripUinPrefix(cfg, input));
  }

  lemma FirstPreferredSettles(cfg: Config, b: Buckets, v: int, at: Option<string>, listed: set<string>, k: string)
    requires Agree(cfg, b) && at == Some(VuinIdentityKey(v, k)) && Walked(b.reverse.Keys, VuinPrefix(v), at, listed)
    requires NonePreferred(b, v, listed) && k in Holders(b, v) && Preferred(k, RawOf(b, k))
    ensures SettlesOn(b, v, RawOf(b, k))
  {
    forall j | j in Holders(b, v) && Preferred(j, RawOf(b, j))
      ensures Leq(VuinIdentityKey(v, k), VuinIdentityKey(v, j))
    {
      HolderEntry(cfg, b, v, j);
    }
    assert Settles(b, v, k);
  }

  lemma FallbackOneMore(b: Buckets, v: int, at: Option<string>, listed: set<string>, k: string, was: string,
      oldFrom: string, fallback: string, from: string)
    requires at == Some(VuinIdentityKey(v, k)) && Walked(b.reverse.Keys, VuinPrefix(v), at, listed)
    requires NonePreferred(b, v, listed) && !Preferred(k, RawOf(b, k))
    requires FallbackSoFar(b, v, listed, was, oldFrom)
    requires fallback == (if was == "" then RawOf(b, k) else was)
    requires from == (if was == "" && RawOf(b, k) != "" then k else oldFrom)
    ensures NonePreferred(b, v, listed + {at.value}) && FallbackSoFar(b, v, listed + {at.value}, fallback, from)
  {
    var entry := at.value;
    forall j | VuinIdentityKey(v, j) in listed + {entry}
      ensures !Preferred(j, RawOf(b, j))
      ensures RawOf(b, j) == "" || (fallback != "" && Leq(VuinIdentityKey(v, from), VuinIdentityKey(v, j)))
    {
      LeqReflexive(entry);
      if VuinIdentityKey(v, j) == entry {
        VuinKeyInjective(v, j, v, k);
        LeqTotal(VuinIdentityKey(v, from), entry);
      }
    }
  }

  lemma FallbackSettles(cfg: Config, b: Buckets, v: int, listed: set<string>, fallback: string, from: string)
    requires Agree(cfg, b) && listed == Prefixed(b.reverse.Keys, VuinPrefix(v))
    requires NonePreferred(b, v, listed) && FallbackSoFar(b, v, listed, fallback, from)
    ensures fallback == "" ==> forall k :: k in Holders(b, v) ==> RawOf(b, k) == ""
    ensures fallback != "" ==> SettlesOn(b, v, fallback)
  {
    forall k | k in Holders(b, v) ensures VuinIdentityKey(v, k) in listed {
      HolderEntry(cfg, b, v, k);
    }
    if fallback != "" {
      ReverseIffForward(cfg, b, v, from);
      assert Settles(b, v, from);
    }
  }

  lemma PresenceIsHeld(cfg: Config, b: Buckets, v: int)
    requires Agree(cfg, b)
    ensures (exists s :: s in b.reverse && VuinPrefix(v) <= s) <==> Taken(b.forward, v)
  {
    if s :| s in b.reverse && VuinPrefix(v) <= s {
      PrefixedAreHolders(cfg, b, v, s);
    }
    if k :| k in b.forward && b.forward[k] == v {
      ReverseIffForward(cfg, b, v, k);
      PrefixTellsVuin(v, v, k);
    }
  }
}
