/** Runs of the two-way ID store: what holds after any sequence of operations. */
module IdRuns {
  import opened Strings
  import opened Decimals
  import ByteOrder
  import Probing
  import opened Identities
  import opened IdBuckets
  import opened IdentityStore

  datatype Op = StoreOp(raw: string) | BindOp(raw: string, vuin: int) | RebindOp(oldVuin: int, newVuin: int)

  /** One operation; an Update that fails is rolled back and changes nothing. */
  ghost predicate Step(cfg: Config, b: Buckets, op: Op, next: Buckets) {
    || next == b
    || match op
       case StoreOp(raw) => exists r :: Stores(cfg, b, raw, r, next)
       case BindOp(raw, vuin) => IsInt64(vuin) && next == PutMapping(b, Normalize(cfg, raw), vuin)
       case RebindOp(o, n) => IsInt64(o) && IsInt64(n) && exists r :: Binds(cfg, b, o, n, r, next)
  }

  ghost predicate IsRun(cfg: Config, states: seq<Buckets>, ops: seq<Op>) {
    && |states| == |ops| + 1 && states[0] == Buckets(map[], map[], map[], 0)
    && forall i {:trigger ops[i]} :: 0 <= i < |ops| ==> Step(cfg, states[i], ops[i], states[i + 1])
  }

  lemma StoreKeepsAgreement(cfg: Config, b: Buckets, raw: string, r: Result<int, StoreError>, next: Buckets)
    requires Agree(cfg, b) && IsInt64(b.counter) && Stores(cfg, b, raw, r, next)
    ensures Agree(cfg, next) && IsInt64(next.counter)
  {
    var identity := Normalize(cfg, raw);
    InputSpells(cfg, raw);
    if identity.Key in b.forward {
      HintKeepsAgreement(cfg, b, next);
    } else {
      var mid :| Allocates(cfg, b, raw, r, mid) && next == if r.Ok? then PutMapping(mid, identity, r.value) else mid;
      AllocationKeepsAgreement(cfg, b, raw, r, mid);
      if r.Ok? {
        PutKeepsAgreement(cfg, mid, identity, r.value);
      }
    }
  }

  lemma StepKeepsAgreement(cfg: Config, b: Buckets, op: Op, next: Buckets)
    requires Agree(cfg, b) && IsInt64(b.counter) && Step(cfg, b, op, next)
    ensures Agree(cfg, next) && IsInt64(next.counter)
  {
    if next != b {
      match op
      case StoreOp(raw) =>
        var r :| Stores(cfg, b, raw, r, next);
        StoreKeepsAgreement(cfg, b, raw, r, next);
      case BindOp(raw, vuin) =>
        InputSpells(cfg, raw);
        PutKeepsAgreement(cfg, b, Normalize(cfg, raw), vuin);
      case RebindOp(o, n) =>
    }
  }

  lemma StepInRunAgrees(cfg: Config, states: seq<Buckets>, ops: seq<Op>, i: nat)
    requires IsRun(cfg, states, ops) && 0 < i <= |ops| && Agree(cfg, states[i - 1]) && IsInt64(states[i - 1].counter)
    ensures Agree(cfg, states[i]) && IsInt64(states[i].counter)
  {
    assert Step(cfg, states[i - 1], ops[i - 1], states[i]);
    StepKeepsAgreement(cfg, states[i - 1], ops[i - 1], states[i]);
  }

  /** In every run the two ID buckets agree. */
  lemma {:induction false} RunAgrees(cfg: Config, states: seq<Buckets>, ops: seq<Op>, i: nat)
    requires IsRun(cfg, states, ops) && i <= |ops|
    ensures Agree(cfg, states[i]) && IsInt64(states[i].counter)
  {
    if i > 0 {
      RunAgrees(cfg, states, ops, i - 1);
      StepInRunAgrees(cfg, states, ops, i);
    }
  }

  // ---- runs that only store

  ghost predicate OneIdentityEach(b: Buckets) {
    forall j, k :: j in b.forward && k in b.forward && b.forward[j] == b.forward[k] ==> j == k
  }

  /** Every identity of b is still there in later, under the same vUIN. */
  ghost predicate Keeps(b: Buckets, later: Buckets) {
    forall k :: k in b.forward ==> k in later.forward && later.forward[k] == b.forward[k]
  }

  lemma StoreKeepsVuins(cfg: Config, b: Buckets, raw: string, next: Buckets)
    requires Step(cfg, b, StoreOp(raw), next)
    ensures Keeps(b, next)
    ensures OneIdentityEach(b) ==> OneIdentityEach(next)
  {
    var identity := Normalize(cfg, raw);
    if next != b && identity.Key !in b.forward {
      var r :| Stores(cfg, b, raw, r, next);
      var mid :| Allocates(cfg, b, raw, r, mid) && next == if r.Ok? then PutMapping(mid, identity, r.value) else mid;
      if r.Ok? {
        assert forall k :: k in b.forward ==> b.forward[k] != r.value by {
          if k :| k in b.forward && b.forward[k] == r.value {
            assert Probing.Taken(b.forward, r.value);
          }
        }
      }
    }
  }

  ghost predicate OnlyStores(ops: seq<Op>) {
    forall n :: 0 <= n < |ops| ==> ops[n].StoreOp?
  }

  lemma StoringStep(cfg: Config, states: seq<Buckets>, ops: seq<Op>, j: nat)
    requires IsRun(cfg, states, ops) && OnlyStores(ops) && j < |ops|
    ensures Keeps(states[j], states[j + 1])
    ensures OneIdentityEach(states[j]) ==> OneIdentityEach(states[j + 1])
  {
    var op := ops[j];
    StoreKeepsVuins(cfg, states[j], op.raw, states[j + 1]);
  }

  lemma {:induction false} StoringRunKeeps(cfg: Config, states: seq<Buckets>, ops: seq<Op>, i: nat, j: nat)
    requires IsRun(cfg, states, ops) && OnlyStores(ops) && i <= j <= |ops|
    ensures Keeps(states[i], states[j])
  {
    if i < j {
      StoringRunKeeps(cfg, states, ops, i, j - 1);
      StoringStep(cfg, states, ops, j - 1);
    }
  }

  lemma {:induction false} StoringRunIsInjective(cfg: Config, states: seq<Buckets>, ops: seq<Op>, j: nat)
    requires IsRun(cfg, states, ops) && OnlyStores(ops) && j <= |ops|
    ensures OneIdentityEach(states[j])
  {
    if j > 0 {
      StoringRunIsInjective(cfg, states, ops, j - 1);
      StoringStep(cfg, states, ops, j - 1);
    }
  }

  /** Without bind operations, distinct identities keep distinct vUINs for ever. */
  lemma StoringRunIsStable(cfg: Config, states: seq<Buckets>, ops: seq<Op>, i: nat, j: nat)
    requires IsRun(cfg, states, ops) && OnlyStores(ops) && i <= j <= |ops|
    ensures Keeps(states[i], states[j]) && OneIdentityEach(states[j])
  {
    StoringRunKeeps(cfg, states, ops, i, j);
    StoringRunIsInjective(cfg, states, ops, j);
  }

  // ---- lookups

  /** A lookup returns only an identity that is mapped to the vUIN now, however old the
      last-seen hint is: its key as stored, or its key as normalised again. */
  lemma RetrievedIsMapped(cfg: Config, b: Buckets, v: int, raw: string)
    requires Agree(cfg, b) && IsInt64(v) && Retrieves(cfg, b, Decimal(v), Ok(raw))
    ensures v > 0 && raw != ""
    ensures exists k :: k in Holders(b, v) && (raw == RawOf(b, k) || Normalize(cfg, raw).Key == k)
  {
    DecimalRoundTrip(v);
    if HintHolds(cfg, b, v) {
      assert Normalize(cfg, raw).Key in Holders(b, v);
    } else {
      var k :| Settles(b, v, k) && raw == RawOf(b, k);
    }
  }

  /** Every raw form in the store survives another normalisation. */
  ghost predicate AllStable(cfg: Config, b: Buckets) {
    forall k {:trigger RawOf(b, k)} :: k in b.forward ==> Stable(cfg, RawOf(b, k))
  }

  ghost predicate StableInput(cfg: Config, op: Op) {
    op.RebindOp? || PrefixedOnce(cfg, op.raw)
  }

  lemma StableSpelling(cfg: Config, raw: string, key: string)
    requires Spells(cfg, raw, key) && Stable(cfg, raw)
    ensures Normalize(cfg, raw).Key == key
  {
    var input :| Normalize(cfg, input).Key == key && Normalize(cfg, input).Raw == raw;
    IdempotentIffStable(cfg, input);
  }

  lemma PutKeepsStable(cfg: Config, b: Buckets, identity: Identity, vuin: int)
    requires Agree(cfg, b) && AllStable(cfg, b) && Stable(cfg, identity.Raw)
    ensures AllStable(cfg, PutMapping(b, identity, vuin))
  {
    var next := PutMapping(b, identity, vuin);
    forall k | k in next.forward ensures Stable(cfg, RawOf(next, k)) {
      if k in b.forward {
        RawAfterPut(cfg, b, identity, vuin, k);
      }
    }
  }

  lemma StoreKeepsStable(cfg: Config, b: Buckets, raw: string, r: Result<int, StoreError>, next: Buckets)
    requires Agree(cfg, b) && IsInt64(b.counter) && AllStable(cfg, b) && Stores(cfg, b, raw, r, next)
    requires Stable(cfg, Normalize(cfg, raw).Raw)
    ensures AllStable(cfg, next)
  {
    var identity := Normalize(cfg, raw);
    if identity.Key in b.forward {
      forall k | k in next.forward ensures Stable(cfg, RawOf(next, k)) {
        assert RawOf(next, k) == RawOf(b, k);
      }
    } else {
      var mid :|
        Allocates(cfg, b, raw, r, mid) && next == if r.Ok? then PutMapping(mid, identity, r.value) else mid;
      AllocationKeepsAgreement(cfg, b, raw, r, mid);
      forall k | k in mid.forward ensures Stable(cfg, RawOf(mid, k)) {
        assert RawOf(mid, k) == RawOf(b, k);
      }
      if r.Ok? {
        PutKeepsStable(cfg, mid, identity, r.value);
      }
    }
  }

  lemma StepKeepsStable(cfg: Config, b: Buckets, op: Op, next: Buckets)
    requires Agree(cfg, b) && IsInt64(b.counter) && AllStable(cfg, b) && StableInput(cfg, op) && Step(cfg, b, op, next)
    ensures AllStable(cfg, next)
  {
    if next != b {
      if !op.RebindOp? {
        StableIffPrefixedOnce(cfg, op.raw);
      }
      match op
      case StoreOp(raw) =>
        var r :| Stores(cfg, b, raw, r, next);
        StoreKeepsStable(cfg, b, raw, r, next);
      case BindOp(raw, vuin) =>
        PutKeepsStable(cfg, b, Normalize(cfg, raw), vuin);
      case RebindOp(o, n) =>
        forall k | k in next.forward ensures Stable(cfg, RawOf(next, k)) {
          assert RawOf(next, k) == RawOf(b, k);
        }
    }
  }

  /** In a run whose inputs never carry a doubled bot prefix (none do when no prefix is
      set), a lookup's answer normalises to an identity mapped to the vUIN. */
  lemma {:induction false} RunStaysStable(cfg: Config, states: seq<Buckets>, ops: seq<Op>, i: nat)
    requires IsRun(cfg, states, ops) && i <= |ops|
    requires forall n :: 0 <= n < |ops| ==> StableInput(cfg, ops[n])
    ensures AllStable(cfg, states[i])
  {
    if i > 0 {
      RunStaysStable(cfg, states, ops, i - 1);
      RunAgrees(cfg, states, ops, i - 1);
      StepKeepsStable(cfg, states[i - 1], ops[i - 1], states[i]);
    }
  }

  lemma RetrievedNormalizesBack(cfg: Config, b: Buckets, v: int, raw: string)
    requires Agree(cfg, b) && AllStable(cfg, b) && IsInt64(v) && Retrieves(cfg, b, Decimal(v), Ok(raw))
    ensures Normalize(cfg, raw).Key in Holders(b, v)
  {
    DecimalRoundTrip(v);
    if !HintHolds(cfg, b, v) {
      var k :| Settles(b, v, k) && raw == RawOf(b, k);
      RawIsSpelling(cfg, b, k);
      StableSpelling(cfg, raw, k);
    }
  }

  // ---- looking up straight after storing

  lemma SettlesOnce(b: Buckets, v: int, j: string, k: string)
    requires Settles(b, v, j) && Settles(b, v, k)
    ensures j == k
  {
    ByteOrder.LeqAntisymmetric(VuinIdentityKey(v, j), VuinIdentityKey(v, k));
    VuinKeyInjective(v, j, v, k);
  }

  /** A lookup has one answer. */
  lemma RetrievesOnce(cfg: Config, b: Buckets, virtualID: string, r: Result<string, StoreError>,
      q: Result<string, StoreError>)
    requires Retrieves(cfg, b, virtualID, r) && Retrieves(cfg, b, virtualID, q)
    ensures r == q
  {
    var v := ParseInt64(virtualID);
    if v.Some? && v.value > 0 && !HintHolds(cfg, b, v.value) {
      if r.Ok? {
        var j :| Settles(b, v.value, j) && r.value == RawOf(b, j);
        if q.Ok? {
          var k :| Settles(b, v.value, k) && q.value == RawOf(b, k);
          SettlesOnce(b, v.value, j, k);
        }
      }
    }
  }

  /** A vUIN just given to a new identity has no other. */
  lemma NewIdentityAlone(cfg: Config, b: Buckets, raw: string, v: int, next: Buckets)
    requires Agree(cfg, b) && IsInt64(b.counter) && Stores(cfg, b, raw, Ok(v), next) &&
      Normalize(cfg, raw).Key !in b.forward
    ensures Agree(cfg, next) && IsInt64(v) && Holders(next, v) == {Normalize(cfg, raw).Key}
    ensures RawOf(next, Normalize(cfg, raw).Key) == Normalize(cfg, raw).Raw
    ensures LastSeenKey(v) in next.lastSeen && next.lastSeen[LastSeenKey(v)] == Normalize(cfg, raw).Raw
  {
    StoreKeepsAgreement(cfg, b, raw, Ok(v), next);
    var mid :| Allocates(cfg, b, raw, Ok(v), mid) && next == PutMapping(mid, Normalize(cfg, raw), v);
    OnlyHolder(mid, Normalize(cfg, raw), v);
  }

  lemma OnlyHolder(b: Buckets, identity: Identity, v: int)
    requires !Probing.Taken(b.forward, v)
    ensures Holders(PutMapping(b, identity, v), v) == {identity.Key}
  {
    assert forall k :: k in b.forward ==> Probing.Taken(b.forward, b.forward[k]);
  }

  lemma SettlesAlone(b: Buckets, v: int, k: string)
    requires Holders(b, v) == {k} && RawOf(b, k) != ""
    ensures Settles(b, v, k)
  {
    ByteOrder.LeqReflexive(VuinIdentityKey(v, k));
  }

  lemma RetrieveNew(cfg: Config, b: Buckets, raw: string, v: int, next: Buckets)
    requires Agree(cfg, b) && IsInt64(b.counter) && Stores(cfg, b, raw, Ok(v), next) && v > 0
    requires Normalize(cfg, raw).Raw != "" && Normalize(cfg, raw).Key !in b.forward
    ensures Retrieves(cfg, next, Decimal(v), Ok(Normalize(cfg, raw).Raw))
  {
    NewIdentityAlone(cfg, b, raw, v, next);
    DecimalRoundTrip(v);
    SettlesAlone(next, v, Normalize(cfg, raw).Key);
  }

  /** What the lookup of a known identity answers depends on the other identities of its vUIN
      only if the raw form normalises to something else: then one of them that goes before all
      others must have that raw form. */
  ghost predicate ReadBack(cfg: Config, b: Buckets, raw: string, v: int) {
    || Normalize(cfg, raw).Key !in b.forward
    || PrefixedOnce(cfg, raw)
    || Normalize(cfg, Normalize(cfg, raw).Raw).Key in Holders(b, v)
    || exists k :: FirstOfAll(b, v, k) && RawOf(b, k) == Normalize(cfg, raw).Raw
  }

  /** Preferred identities go before others, and among equals byte order decides. */
  ghost predicate GoesBefore(b: Buckets, v: int, j: string, k: string) {
    if Preferred(j, RawOf(b, j)) == Preferred(k, RawOf(b, k))
    then !ByteOrder.Leq(VuinIdentityKey(v, k), VuinIdentityKey(v, j))
    else Preferred(j, RawOf(b, j))
  }

  /** Of the identities of v that are preferred or have a raw form none goes before k. */
  ghost predicate FirstOfAll(b: Buckets, v: int, k: string) {
    k in Holders(b, v) && forall j {:trigger RawOf(b, j)} ::
      j in Holders(b, v) && (RawOf(b, j) != "" || Preferred(j, "")) ==> !GoesBefore(b, v, j, k)
  }

  lemma FirstIsSettled(b: Buckets, v: int, k: string)
    requires RawOf(b, k) != ""
    ensures FirstOfAll(b, v, k) <==> Settles(b, v, k)
  {
  }

  lemma FirstIsSettledOn(b: Buckets, v: int, raw: string)
    requires raw != ""
    ensures (exists k :: FirstOfAll(b, v, k) && RawOf(b, k) == raw) <==> SettlesOn(b, v, raw)
  {
    if k :| FirstOfAll(b, v, k) && RawOf(b, k) == raw {
      FirstIsSettled(b, v, k);
    }
    if SettlesOn(b, v, raw) {
      var k :| Settles(b, v, k) && raw == RawOf(b, k);
      FirstIsSettled(b, v, k);
    }
  }

  lemma HintChangesNoWalk(b: Buckets, next: Buckets, v: int, raw: string)
    requires next == b.(lastSeen := next.lastSeen)
    ensures SettlesOn(next, v, raw) <==> SettlesOn(b, v, raw)
  {
    assert Holders(next, v) == Holders(b, v);
    assert forall k :: RawOf(next, k) == RawOf(b, k);
    assert forall k :: Settles(next, v, k) <==> Settles(b, v, k);
  }

  lemma RetrieveKnown(cfg: Config, b: Buckets, raw: string, v: int, next: Buckets)
    requires Agree(cfg, b) && Stores(cfg, b, raw, Ok(v), next) && v > 0
    requires Normalize(cfg, raw).Raw != "" && Normalize(cfg, raw).Key in b.forward
    ensures Retrieves(cfg, next, Decimal(v), Ok(Normalize(cfg, raw).Raw)) <==> ReadBack(cfg, b, raw, v)
  {
    var identity := Normalize(cfg, raw);
    assert IsInt64(b.forward[identity.Key]);
    DecimalRoundTrip(v);
    NormalizeIdempotentIff(cfg, raw);
    HintChangesNoWalk(b, next, v, identity.Raw);
    FirstIsSettledOn(b, v, identity.Raw);
    assert next.lastSeen[LastSeenKey(v)] == identity.Raw;
    assert HintHolds(cfg, next, v) <==> Normalize(cfg, identity.Raw).Key in Holders(b, v);
  }

  /** Looking up straight after storing gives the normalised raw form back, for every new
      identity and every input that does not begin with the prefix twice; for the others exactly
      if the hint happens to name an identity of the vUIN or the walk settles on the raw form. */
  lemma StoreThenRetrieveIff(cfg: Config, b: Buckets, raw: string, v: int, next: Buckets)
    requires Agree(cfg, b) && IsInt64(b.counter) && Stores(cfg, b, raw, Ok(v), next) && v > 0
    requires Normalize(cfg, raw).Raw != ""
    ensures Retrieves(cfg, next, Decimal(v), Ok(Normalize(cfg, raw).Raw)) <==> ReadBack(cfg, b, raw, v)
    ensures ReadBack(cfg, b, raw, v) ==> forall r :: Retrieves(cfg, next, Decimal(v), r) ==>
      r == Ok(Normalize(cfg, raw).Raw)
  {
    if Normalize(cfg, raw).Key in b.forward {
      RetrieveKnown(cfg, b, raw, v, next);
    } else {
      RetrieveNew(cfg, b, raw, v, next);
    }
    if ReadBack(cfg, b, raw, v) {
      forall r | Retrieves(cfg, next, Decimal(v), r) ensures r == Ok(Normalize(cfg, raw).Raw) {
        RetrievesOnce(cfg, next, Decimal(v), r, Ok(Normalize(cfg, raw).Raw));
      }
    }
  }

  lemma PlainIdentity(cfg: Config, s: string)
    requires 0 < |s| < 32 && (s[0] == '7' || s[0] == '!' || s[0] == 'x')
    ensures NormalizeStripped(cfg, s) == Identity("raw:" + s, s, "raw", "")
  {
    assert ToLower(s)[0] == s[0];
  }

  /** Two bindings under a bot prefix "7:", one of them with the prefix doubled. */
  ghost function Doubled(cfg: Config): Buckets {
    var one := PutMapping(Buckets(map[], map[], map[], 0), Identity("raw:7:x", "7:x", "raw", ""), 1);
    PutMapping(one, Identity("raw:!", "!", "raw", ""), 1)
  }

  lemma DoubledRaws(cfg: Config)
    ensures var b := Doubled(cfg);
            && Holders(b, 1) == {"raw:7:x", "raw:!"} && RawOf(b, "raw:7:x") == "7:x" && RawOf(b, "raw:!") == "!"
  {
    VuinKeysDiffer(1, "raw:7:x", 1, "raw:!");
  }

  lemma DoubledOrder()
    ensures !ByteOrder.Leq(VuinIdentityKey(1, "raw:7:x"), VuinIdentityKey(1, "raw:!"))
  {
    var p := VuinPrefix(1) + "raw:";
    assert VuinIdentityKey(1, "raw:7:x") == p + "7:x" && VuinIdentityKey(1, "raw:!") == p + "!";
    ByteOrder.LeqBehind(p, "7:x", "!");
  }

  /** The other identity goes first. */
  lemma DoubledGoesSecond(cfg: Config, k: string)
    requires FirstOfAll(Doubled(cfg), 1, k)
    ensures RawOf(Doubled(cfg), k) != "7:x"
  {
    var b := Doubled(cfg);
    DoubledRaws(cfg);
    DoubledOrder();
    assert !Preferred("raw:7:x", "7:x") && !Preferred("raw:!", "!");
    assert RawOf(b, "raw:!") == "!" && "raw:!" in Holders(b, 1);
    assert GoesBefore(b, 1, "raw:!", "raw:7:x");
  }

  lemma StripSeven(cfg: Config, s: string)
    requires cfg.uin == Some(7)
    ensures "7:" <= s ==> StripUinPrefix(cfg, s) == s[2..]
    ensures !("7:" <= s) ==> StripUinPrefix(cfg, s) == s
    ensures UinPrefix(cfg) == "7:"
  {
    assert Decimal(7) == "7" && UinPrefix(cfg) == "7:";
  }

  lemma DoubledNormalized(cfg: Config)
    requires cfg.uin == Some(7)
    ensures Normalize(cfg, "7:7:x") == Identity("raw:7:x", "7:x", "raw", "")
    ensures Normalize(cfg, "7:!") == Identity("raw:!", "!", "raw", "")
    ensures Normalize(cfg, "7:x").Key == "raw:x"
  {
    StripSeven(cfg, "7:7:x");
    StripSeven(cfg, "7:x");
    StripSeven(cfg, "7:!");
    assert "7:7:x"[2..] == "7:x" && "7:x"[2..] == "x" && "7:!"[2..] == "!";
    PlainIdentity(cfg, "7:x");
    PlainIdentity(cfg, "x");
    PlainIdentity(cfg, "!");
    assert "raw:" + "7:x" == "raw:7:x" && "raw:" + "!" == "raw:!" && "raw:" + "x" == "raw:x";
  }

  /** A state, reached by two bindings, and an input that is not read back: it begins with the
      prefix twice, its identity is known, and its vUIN has another. */
  lemma DoubledNotReadBack(cfg: Config, raw: string, b: Buckets)
    requires cfg.uin == Some(7) && raw == "7:7:x"
    requires b ==
      PutMapping(PutMapping(Buckets(map[], map[], map[], 0), Normalize(cfg, raw), 1), Normalize(cfg, "7:!"), 1)
    ensures !ReadBack(cfg, b, raw, 1)
  {
    DoubledNormalized(cfg);
    DoubledHintFails(cfg);
    PrefixedTwice(cfg);
    forall k | FirstOfAll(b, 1, k) ensures RawOf(b, k) != "7:x" {
      DoubledGoesSecond(cfg, k);
    }
  }

  lemma PrefixedTwice(cfg: Config)
    requires cfg.uin == Some(7)
    ensures !PrefixedOnce(cfg, "7:7:x")
  {
    StripSeven(cfg, "7:7:x");
    assert "7:" + "7:" == "7:7:x"[..4];
  }

  lemma DoubledHintFails(cfg: Config)
    ensures "raw:7:x" in Doubled(cfg).forward && "raw:x" !in Holders(Doubled(cfg), 1)
  {
    DoubledRaws(cfg);
  }

  // ---- how long a mapping lasts

  /** The operation can give the identity another vUIN. */
  ghost predicate Remaps(cfg: Config, op: Op, key: string, v: int) {
    match op
    case StoreOp(_) => false
    case BindOp(raw, vuin) => Normalize(cfg, raw).Key == key && vuin != v
    case RebindOp(oldVuin, newVuin) => oldVuin == v && newVuin != v
  }

  lemma StepKeepsMapping(cfg: Config, b: Buckets, op: Op, next: Buckets, key: string, v: int)
    requires key in b.forward && b.forward[key] == v && Step(cfg, b, op, next) && !Remaps(cfg, op, key, v)
    ensures key in next.forward && next.forward[key] == v
  {
    if next != b {
      match op
      case StoreOp(raw) =>
        StoreKeepsVuins(cfg, b, raw, next);
      case BindOp(raw, vuin) =>
      case RebindOp(o, n) =>
        var r :| Binds(cfg, b, o, n, r, next);
    }
  }

  /** A mapping, however it came about, lasts until a bind of this identity or a rebinding of
      its vUIN: the lookup of any input with the same key goes on giving it. */
  lemma {:induction false} MappingLasts(cfg: Config, states: seq<Buckets>, ops: seq<Op>, i: nat, j: nat, key: string,
      v: int)
    requires IsRun(cfg, states, ops) && i <= j <= |ops|
    requires key in states[i].forward && states[i].forward[key] == v
    requires forall n {:trigger ops[n]} :: i <= n < j ==> !Remaps(cfg, ops[n], key, v)
    ensures key in states[j].forward && states[j].forward[key] == v
    decreases j
  {
    if i < j {
      MappingLasts(cfg, states, ops, i, j - 1, key, v);
      StepKeepsMapping(cfg, states[j - 1], ops[j - 1], states[j], key, v);
    }
  }
}
