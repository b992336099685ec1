/** The buckets of the two-way ID store (idmap/map_service.go) as values, and what keeps
    them in agreement. */
module IdBuckets {
  import opened Strings
  import opened Decimals
  import opened Identities

  /** forward: identity key to vUIN; reverse: "<vuin>:<key>" to raw form; lastSeen:
      "default:<vuin>" to raw form; counter: the last vUIN handed out, 0 at the start. */
  datatype Buckets = Buckets(forward: map<string, int>, reverse: map<string, string>, lastSeen: map<string, string>,
      counter: int)

  function VuinPrefix(vuin: int): string {
    Decimal(vuin) + ":"
  }

  function VuinIdentityKey(vuin: int, key: string): string {
    VuinPrefix(vuin) + key
  }

  function LastSeenKey(vuin: int): string {
    "default:" + Decimal(vuin)
  }

  lemma VuinKeyCut(vuin: int, key: string)
    ensures Cut(VuinIdentityKey(vuin, key), ':') == Some((Decimal(vuin), key))
  {
    assert VuinIdentityKey(vuin, key) == Decimal(vuin) + [':'] + key;
    CutUnique(Decimal(vuin), ':', key);
  }

  lemma VuinKeyInjective(v: int, k: string, w: int, j: string)
    requires VuinIdentityKey(v, k) == VuinIdentityKey(w, j)
    ensures v == w && k == j
  {
    VuinKeyCut(v, k);
    VuinKeyCut(w, j);
    DecimalInjective(v, w);
  }

  lemma VuinKeysDiffer(v: int, k: string, w: int, j: string)
    requires k != j
    ensures VuinIdentityKey(v, k) != VuinIdentityKey(w, j)
  {
    VuinKeyCut(v, k);
    VuinKeyCut(w, j);
  }

  /** The prefix of a vUIN belongs to its own reverse keys only. */
  lemma PrefixTellsVuin(v: int, w: int, key: string)
    ensures VuinPrefix(v) <= VuinIdentityKey(w, key) <==> v == w
  {
    if VuinPrefix(v) <= VuinIdentityKey(w, key) {
      var rest := VuinIdentityKey(w, key)[|VuinPrefix(v)|..];
      assert VuinIdentityKey(w, key) == VuinIdentityKey(v, rest);
      VuinKeyInjective(v, rest, w, key);
    }
  }

  lemma LastSeenKeyInjective(v: int, w: int)
    requires LastSeenKey(v) == LastSeenKey(w)
    ensures v == w
  {
    assert Decimal(v) == LastSeenKey(v)[8..];
    assert Decimal(w) == LastSeenKey(w)[8..];
    DecimalInjective(v, w);
  }

  // ---- agreement

  /** Key of the identity that a reverse entry belongs to. */
  function KeyPart(s: string): string {
    match Cut(s, ':') case Some(parts) => parts.1 case None => ""
  }

  /** s is the reverse key of an identity, under the vUIN that the forward bucket gives it. */
  predicate IsReverseKey(forward: map<string, int>, s: string) {
    KeyPart(s) in forward && s == VuinIdentityKey(forward[KeyPart(s)], KeyPart(s))
  }

  /** raw is the raw form of some input that normalises to this key. */
  ghost predicate Spells(cfg: Config, raw: string, key: string) {
    exists input :: Normalize(cfg, input).Key == key && Normalize(cfg, input).Raw == raw
  }

  ghost predicate Agree(cfg: Config, b: Buckets) {
    && (forall s {:trigger IsReverseKey(b.forward, s)} :: s in b.reverse <==> IsReverseKey(b.forward, s))
    && (forall s {:trigger b.reverse[s]} :: s in b.reverse ==> Spells(cfg, b.reverse[s], KeyPart(s)))
    && (forall k :: k in b.forward ==> IsInt64(b.forward[k]))
  }

  /** The reverse entry (v, k) exists exactly when k is mapped to v. */
  lemma ReverseIffForward(cfg: Config, b: Buckets, v: int, k: string)
    requires Agree(cfg, b)
    ensures VuinIdentityKey(v, k) in b.reverse <==> k in b.forward && b.forward[k] == v
  {
    VuinKeyCut(v, k);
    assert VuinIdentityKey(v, k) in b.reverse <==> IsReverseKey(b.forward, VuinIdentityKey(v, k));
    if k in b.forward && VuinIdentityKey(v, k) == VuinIdentityKey(b.forward[k], k) {
      VuinKeyInjective(v, k, b.forward[k], k);
    }
  }

  ghost function Holders(b: Buckets, vuin: int): set<string> {
    set k | k in b.forward && b.forward[k] == vuin
  }

  /** The reverse entries with a vUIN's prefix are exactly those of its identities. */
  lemma PrefixedAreHolders(cfg: Config, b: Buckets, v: int, s: string)
    requires Agree(cfg, b)
    ensures s in b.reverse && VuinPrefix(v) <= s <==> KeyPart(s) in Holders(b, v) && s == VuinIdentityKey(v, KeyPart(s))
  {
    assert s in b.reverse <==> IsReverseKey(b.forward, s);
    if s in b.reverse {
      PrefixTellsVuin(v, b.forward[KeyPart(s)], KeyPart(s));
    }
  }

  // ---- one mapping written

  function PutMapping(b: Buckets, identity: Identity, vuin: int): Buckets {
    var cleared := if identity.Key in b.forward && b.forward[identity.Key] != vuin
                   then b.reverse - {VuinIdentityKey(b.forward[identity.Key], identity.Key)}
                   else b.reverse;
    b.(forward := b.forward[identity.Key := vuin],
       reverse := cleared[VuinIdentityKey(vuin, identity.Key) := identity.Raw],
       lastSeen := b.lastSeen[LastSeenKey(vuin) := identity.Raw])
  }

  lemma PutElsewhere(b: Buckets, identity: Identity, vuin: int, s: string)
    requires KeyPart(s) != identity.Key
    ensures s in PutMapping(b, identity, vuin).reverse <==> s in b.reverse
  {
    VuinKeyCut(vuin, identity.Key);
    if identity.Key in b.forward {
      VuinKeyCut(b.forward[identity.Key], identity.Key);
    }
  }

  lemma PutHere(b: Buckets, identity: Identity, vuin: int, s: string)
    requires KeyPart(s) == identity.Key && (s in b.reverse <==> IsReverseKey(b.forward, s))
    ensures s in PutMapping(b, identity, vuin).reverse <==> s == VuinIdentityKey(vuin, identity.Key)
  {
  }

  lemma PutKeepsKeys(cfg: Config, b: Buckets, identity: Identity, vuin: int, s: string)
    requires Agree(cfg, b)
    ensures var next := PutMapping(b, identity, vuin);
            s in next.reverse <==> IsReverseKey(next.forward, s)
  {
    assert s in b.reverse <==> IsReverseKey(b.forward, s);
    VuinKeyCut(vuin, identity.Key);
    if KeyPart(s) != identity.Key {
      PutElsewhere(b, identity, vuin, s);
    } else {
      PutHere(b, identity, vuin, s);
    }
  }

  lemma PutKeepsAgreement(cfg: Config, b: Buckets, identity: Identity, vuin: int)
    requires Agree(cfg, b) && IsInt64(vuin) && Spells(cfg, identity.Raw, identity.Key)
    ensures Agree(cfg, PutMapping(b, identity, vuin))
  {
    var next, key := PutMapping(b, identity, vuin), identity.Key;
    forall s ensures s in next.reverse <==> IsReverseKey(next.forward, s) {
      PutKeepsKeys(cfg, b, identity, vuin, s);
    }
    forall s | s in next.reverse ensures Spells(cfg, next.reverse[s], KeyPart(s)) {
      if s == VuinIdentityKey(vuin, key) {
        VuinKeyCut(vuin, key);
      } else {
        assert s in b.reverse && next.reverse[s] == b.reverse[s];
      }
    }
  }

  // ---- rebinding one vUIN to another

  function Rebound(forward: map<string, int>, oldVuin: int, newVuin: int): map<string, int> {
    map k | k in forward :: if forward[k] == oldVuin then newVuin else forward[k]
  }

  /** One turn of the loop in bindVuin: drop the reverse entry, then write the new mapping. */
  function MoveOne(b: Buckets, oldVuin: int, newVuin: int, key: string, raw: string): Buckets {
    PutMapping(b.(reverse := b.reverse - {VuinIdentityKey(oldVuin, key)}), Identity(key, raw, "", ""), newVuin)
  }

  /** Moving an identity that is mapped to the old vUIN is writing its new mapping. */
  lemma MoveIsPut(b: Buckets, oldVuin: int, newVuin: int, key: string, raw: string)
    requires key in b.forward && b.forward[key] == oldVuin && oldVuin != newVuin
    ensures MoveOne(b, oldVuin, newVuin, key, raw) == PutMapping(b, Identity(key, raw, "", ""), newVuin)
  {
    var cut := b.reverse - {VuinIdentityKey(oldVuin, key)};
    assert cut - {VuinIdentityKey(oldVuin, key)} == cut;
  }

  function MoveAll(b: Buckets, oldVuin: int, newVuin: int, moved: seq<Identity>): Buckets {
    if moved == [] then b
    else
      var n := |moved| - 1;
      MoveOne(MoveAll(b, oldVuin, newVuin, moved[..n]), oldVuin, newVuin, moved[n].Key, moved[n].Raw)
  }

  /** The raw form stored with an identity; "" when there is none. */
  ghost function RawOf(b: Buckets, key: string): string {
    if key in b.forward && VuinIdentityKey(b.forward[key], key) in b.reverse
    then b.reverse[VuinIdentityKey(b.forward[key], key)] else ""
  }

  ghost predicate Among(moved: seq<Identity>, k: string) {
    exists j :: 0 <= j < |moved| && moved[j].Key == k
  }

  lemma AmongOneMore(moved: seq<Identity>, m: Identity, k: string)
    ensures Among(moved + [m], k) <==> Among(moved, k) || k == m.Key
  {
    if Among(moved, k) {
      var j :| 0 <= j < |moved| && moved[j].Key == k;
      assert (moved + [m])[j].Key == k;
    }
    if k == m.Key {
      assert (moved + [m])[|moved|].Key == k;
    }
  }

  /** moved lists identities of a vUIN, each once and with its raw form. */
  ghost predicate ListsSome(b: Buckets, vuin: int, moved: seq<Identity>) {
    && (forall j :: 0 <= j < |moved| ==> moved[j].Key in Holders(b, vuin) && moved[j].Raw == RawOf(b, moved[j].Key))
    && (forall i, j :: 0 <= i < j < |moved| ==> moved[i].Key != moved[j].Key)
  }

  /** r is b with the identities in `moved` mapped to newVuin and nothing else changed but hints. */
  ghost predicate MovedTo(cfg: Config, b: Buckets, r: Buckets, newVuin: int, moved: seq<Identity>) {
    && Agree(cfg, r) && r.counter == b.counter && r.forward.Keys == b.forward.Keys
    && (forall k {:trigger r.forward[k]} {:trigger b.forward[k]} :: k in b.forward ==>
          r.forward[k] == if Among(moved, k) then newVuin else b.forward[k])
    && (forall k {:trigger RawOf(r, k)} :: k in b.forward ==> RawOf(r, k) == RawOf(b, k))
  }

  lemma RawAfterPut(cfg: Config, b: Buckets, identity: Identity, vuin: int, k: string)
    requires Agree(cfg, b) && k in b.forward
    ensures RawOf(PutMapping(b, identity, vuin), k) == if k == identity.Key then identity.Raw else RawOf(b, k)
  {
    var next := PutMapping(b, identity, vuin);
    if k == identity.Key {
      assert next.forward[k] == vuin;
    } else {
      var entry := VuinIdentityKey(b.forward[k], k);
      ReverseIffForward(cfg, b, b.forward[k], k);
      VuinKeysDiffer(b.forward[k], k, vuin, identity.Key);
      if identity.Key in b.forward {
        VuinKeysDiffer(b.forward[k], k, b.forward[identity.Key], identity.Key);
      }
      assert next.forward[k] == b.forward[k];
      assert entry in next.reverse && next.reverse[entry] == b.reverse[entry];
    }
  }

  lemma RawIsSpelling(cfg: Config, b: Buckets, k: string)
    requires Agree(cfg, b) && k in b.forward
    ensures Spells(cfg, RawOf(b, k), k)
  {
    ReverseIffForward(cfg, b, b.forward[k], k);
    VuinKeyCut(b.forward[k], k);
  }

  lemma MoveStepAt(cfg: Config, b: Buckets, mid: Buckets, newVuin: int, moved: seq<Identity>, m: Identity, k: string)
    requires MovedTo(cfg, b, mid, newVuin, moved) && m.Key in b.forward && m.Raw == RawOf(b, m.Key) && k in b.forward
    ensures var r := PutMapping(mid, Identity(m.Key, m.Raw, "", ""), newVuin);
            && r.forward[k] == (if Among(moved + [m], k) then newVuin else b.forward[k]) && RawOf(r, k) == RawOf(b, k)
  {
    AmongOneMore(moved, m, k);
    RawAfterPut(cfg, mid, Identity(m.Key, m.Raw, "", ""), newVuin, k);
    assert RawOf(mid, k) == RawOf(b, k);
  }

  lemma PutMoves(cfg: Config, b: Buckets, mid: Buckets, newVuin: int, moved: seq<Identity>, m: Identity)
    requires MovedTo(cfg, b, mid, newVuin, moved) && m.Key in b.forward && m.Raw == RawOf(b, m.Key)
    requires Agree(cfg, PutMapping(mid, Identity(m.Key, m.Raw, "", ""), newVuin))
    ensures MovedTo(cfg, b, PutMapping(mid, Identity(m.Key, m.Raw, "", ""), newVuin), newVuin, moved + [m])
  {
    forall k | k in b.forward
      ensures var r := PutMapping(mid, Identity(m.Key, m.Raw, "", ""), newVuin);
              && r.forward[k] == (if Among(moved + [m], k) then newVuin else b.forward[k]) && RawOf(r, k) == RawOf(b, k)
    {
      MoveStepAt(cfg, b, mid, newVuin, moved, m, k);
    }
  }

  lemma MoveStep(cfg: Config, b: Buckets, mid: Buckets, oldVuin: int, newVuin: int, moved: seq<Identity>, m: Identity)
    requires MovedTo(cfg, b, mid, newVuin, moved) && IsInt64(newVuin) && oldVuin != newVuin
    requires m.Key in Holders(b, oldVuin) && m.Raw == RawOf(b, m.Key) && !Among(moved, m.Key)
    ensures MovedTo(cfg, b, MoveOne(mid, oldVuin, newVuin, m.Key, m.Raw), newVuin, moved + [m])
  {
    assert mid.forward[m.Key] == oldVuin;
    assert RawOf(mid, m.Key) == m.Raw;
    RawIsSpelling(cfg, mid, m.Key);
    PutKeepsAgreement(cfg, mid, Identity(m.Key, m.Raw, "", ""), newVuin);
    PutMoves(cfg, b, mid, newVuin, moved, m);
    MoveIsPut(mid, oldVuin, newVuin, m.Key, m.Raw);
  }

  lemma SplitLast(s: seq<Identity>)
    requires s != []
    ensures s[..|s| - 1] + [s[|s| - 1]] == s
  {
  }

  lemma {:induction false} MoveAllEffect(cfg: Config, b: Buckets, oldVuin: int, newVuin: int, moved: seq<Identity>)
    requires Agree(cfg, b) && oldVuin != newVuin && IsInt64(newVuin) && ListsSome(b, oldVuin, moved)
    ensures MovedTo(cfg, b, MoveAll(b, oldVuin, newVuin, moved), newVuin, moved)
  {
    if moved != [] {
      var n := |moved| - 1;
      SplitLast(moved);
      MoveAllEffect(cfg, b, oldVuin, newVuin, moved[..n]);
      MoveStep(cfg, b, MoveAll(b, oldVuin, newVuin, moved[..n]), oldVuin, newVuin, moved[..n], moved[n]);
    }
  }

  lemma {:induction false} MoveAllHints(b: Buckets, oldVuin: int, newVuin: int, moved: seq<Identity>)
    requires moved != []
    ensures MoveAll(b, oldVuin, newVuin, moved).lastSeen == b.lastSeen[LastSeenKey(newVuin) := moved[|moved| - 1].Raw]
  {
    if |moved| > 1 {
      MoveAllHints(b, oldVuin, newVuin, moved[..|moved| - 1]);
    }
  }

  /** The state after a successful bindVuin: same identities with the same raw forms, those
      of the old vUIN now under the new one, the old hint gone. */
  ghost predicate IsRebind(cfg: Config, b: Buckets, oldVuin: int, newVuin: int, r: Buckets) {
    && Agree(cfg, r) && r.counter == b.counter
    && r.forward == Rebound(b.forward, oldVuin, newVuin)
    && (forall k {:trigger RawOf(r, k)} :: k in b.forward ==> RawOf(r, k) == RawOf(b, k))
    && LastSeenKey(newVuin) in r.lastSeen
    && (exists k :: k in Holders(b, oldVuin) && r.lastSeen[LastSeenKey(newVuin)] == RawOf(b, k))
    && r.lastSeen.Keys == b.lastSeen.Keys - {LastSeenKey(oldVuin)} + {LastSeenKey(newVuin)}
    && (forall h :: h in r.lastSeen && h != LastSeenKey(newVuin) ==> r.lastSeen[h] == b.lastSeen[h])
  }

  lemma MovedForward(cfg: Config, b: Buckets, oldVuin: int, newVuin: int, moved: seq<Identity>, r: Buckets)
    requires MovedTo(cfg, b, r, newVuin, moved) && ListsSome(b, oldVuin, moved)
    requires forall k :: k in Holders(b, oldVuin) ==> Among(moved, k)
    ensures r.forward == Rebound(b.forward, oldVuin, newVuin)
  {
    forall k | k in b.forward ensures r.forward[k] == Rebound(b.forward, oldVuin, newVuin)[k] {
      assert Among(moved, k) ==> k in Holders(b, oldVuin);
    }
  }

  lemma MoveAllIsRebind(cfg: Config, b: Buckets, oldVuin: int, newVuin: int, moved: seq<Identity>)
    requires Agree(cfg, b) && oldVuin != newVuin && IsInt64(newVuin) && ListsSome(b, oldVuin, moved) && moved != []
    requires forall k :: k in Holders(b, oldVuin) ==> Among(moved, k)
    ensures var r := MoveAll(b, oldVuin, newVuin, moved);
            IsRebind(cfg, b, oldVuin, newVuin, r.(lastSeen := r.lastSeen - {LastSeenKey(oldVuin)}))
  {
    var r, last := MoveAll(b, oldVuin, newVuin, moved), moved[|moved| - 1];
    var done := r.(lastSeen := r.lastSeen - {LastSeenKey(oldVuin)});
    MoveAllEffect(cfg, b, oldVuin, newVuin, moved);
    MoveAllHints(b, oldVuin, newVuin, moved);
    MovedForward(cfg, b, oldVuin, newVuin, moved, r);
    if LastSeenKey(oldVuin) == LastSeenKey(newVuin) {
      LastSeenKeyInjective(oldVuin, newVuin);
    }
    assert done.lastSeen[LastSeenKey(newVuin)] == last.Raw;
    assert last.Key in Holders(b, oldVuin) && last.Raw == RawOf(b, last.Key);
    OnlyHintsDiffer(cfg, b, r, done);
  }

  lemma OnlyHintsDiffer(cfg: Config, b: Buckets, r: Buckets, done: Buckets)
    requires Agree(cfg, r) && done == r.(lastSeen := done.lastSeen)
    requires forall k {:trigger RawOf(r, k)} :: k in b.forward ==> RawOf(r, k) == RawOf(b, k)
    ensures Agree(cfg, done)
    ensures forall k {:trigger RawOf(done, k)} :: k in b.forward ==> RawOf(done, k) == RawOf(b, k)
  {
    forall k | k in b.forward ensures RawOf(done, k) == RawOf(b, k) {
      assert RawOf(r, k) == RawOf(b, k);
    }
  }

  /** Rebinding leaves the old vUIN empty, gives the new one both sets, touches no other
      vUIN and loses no identity. */
  lemma RebindEffect(cfg: Config, b: Buckets, oldVuin: int, newVuin: int, r: Buckets)
    requires IsRebind(cfg, b, oldVuin, newVuin, r) && oldVuin != newVuin
    ensures Holders(r, oldVuin) == {}
    ensures Holders(r, newVuin) == Holders(b, oldVuin) + Holders(b, newVuin)
    ensures forall v :: v != oldVuin && v != newVuin ==> Holders(r, v) == Holders(b, v)
    ensures r.forward.Keys == b.forward.Keys && |r.forward| == |b.forward|
  {
    assert r.forward.Keys == b.forward.Keys;
    assert |r.forward.Keys| == |b.forward.Keys|;
  }
}
