/** The buckets of the message ID store (idmap/map_service.go) as values. */
module MsgBuckets {
  import opened Strings
  import opened Decimals
  import opened Probing

  /** forward: message ID to virtual ID; reverse and expires: decimal virtual ID to message
      ID and to expiry time; counter: the last virtual ID handed out. */
  datatype Messages = Messages(forward: map<string, int>, reverse: map<string, string>, expires: map<string, int>,
      counter: int)

  /** forward and reverse are inverse to each other and every virtual ID has an expiry. */
  ghost predicate Bijective(m: Messages) {
    && (forall r {:trigger m.forward[r]} :: r in m.forward ==>
          Decimal(m.forward[r]) in m.reverse && m.reverse[Decimal(m.forward[r])] == r)
    && (forall s {:trigger m.reverse[s]} :: s in m.reverse ==>
          m.reverse[s] in m.forward && s == Decimal(m.forward[m.reverse[s]]))
    && m.expires.Keys == m.reverse.Keys
  }

  /** Every virtual ID in use has been counted. */
  ghost predicate Counted(m: Messages) {
    forall r {:trigger m.forward[r]} :: r in m.forward ==> 0 < m.forward[r] <= m.counter
  }

  function ExpiryAt(now: int, ttl: int): int {
    var e := Wrap64(now + ttl);
    if e <= now then Wrap64(now + 3600) else e
  }

  predicate ExpiredAt(m: Messages, s: string, now: int) {
    s in m.expires && 0 < m.expires[s] < now
  }

  ghost predicate Allocates(m: Messages, v: int) {
    IsInt64(v) && FirstFree(m.forward, StartAfter(m.counter), v)
  }

  /** Storing a message: refresh the expiry of a known one, give a new one the next free
      virtual ID. An empty message ID is refused by the bucket and changes nothing. */
  ghost predicate Stores(m: Messages, realID: string, now: int, ttl: int, r: Result<int, ()>, next: Messages) {
    if realID == "" then r.Err? && next == m
    else if realID in m.forward then
      var v := m.forward[realID];
      r == Ok(v) && next ==
        m.(reverse := m.reverse[Decimal(v) := realID], expires := m.expires[Decimal(v) := ExpiryAt(now, ttl)])
    else
      r.Ok? && Allocates(m, r.value) &&
      next == Messages(m.forward[realID := r.value], m.reverse[Decimal(r.value) := realID],
                       m.expires[Decimal(r.value) := ExpiryAt(now, ttl)], r.value)
  }

  function Cleaned(m: Messages, now: int): Messages {
    Messages(
      map r | r in m.forward && !ExpiredAt(m, Decimal(m.forward[r]), now) :: m.forward[r],
      map s | s in m.reverse && !ExpiredAt(m, s, now) :: m.reverse[s],
      map s | s in m.expires && !ExpiredAt(m, s, now) :: m.expires[s],
      m.counter)
  }

  /** What a lookup of a virtual ID answers. */
  function Retrieved(m: Messages, virtualID: string, now: int): Option<string> {
    if ExpiredAt(m, virtualID, now) then None
    else if virtualID in m.reverse && m.reverse[virtualID] != "" then Some(m.reverse[virtualID])
    else None
  }

  lemma InUse(m: Messages, v: int)
    requires Bijective(m)
    ensures Decimal(v) in m.reverse <==> Taken(m.forward, v)
  {
    if Decimal(v) in m.reverse {
      DecimalInjective(v, m.forward[m.reverse[Decimal(v)]]);
    }
  }

  lemma StoreKeepsBijection(m: Messages, realID: string, now: int, ttl: int, r: Result<int, ()>, next: Messages)
    requires Bijective(m) && Stores(m, realID, now, ttl, r, next)
    ensures Bijective(next)
  {
    if realID != "" && realID !in m.forward {
      InUse(m, r.value);
    }
  }

  lemma CleanKeepsBijection(m: Messages, now: int)
    requires Bijective(m)
    ensures Bijective(Cleaned(m, now))
  {
    var c := Cleaned(m, now);
    forall s | s in c.reverse ensures c.reverse[s] in c.forward && s == Decimal(c.forward[c.reverse[s]]) {
      assert m.reverse[s] in m.forward;
    }
    assert forall r :: r in c.forward ==> m.forward[r] == c.forward[r];
  }

  /** As long as the counter has not run through all 64-bit numbers, a new message gets the
      counter's successor at once: the probing loop never turns. */
  lemma NewIdIsNext(m: Messages, v: int)
    requires Counted(m) && 0 <= m.counter < MAX_INT64 && Allocates(m, v)
    ensures v == m.counter + 1
  {
    var start := StartAfter(m.counter);
    assert start == m.counter + 1;
    assert !Taken(m.forward, start);
    assert Probe(start, 0) == start;
  }

  lemma StoreKeepsCounted(m: Messages, realID: string, now: int, ttl: int, r: Result<int, ()>, next: Messages)
    requires Counted(m) && 0 <= m.counter < MAX_INT64 && Stores(m, realID, now, ttl, r, next)
    ensures Counted(next) && m.counter <= next.counter
    ensures r.Ok? && realID !in m.forward ==> r.value == next.counter == m.counter + 1
  {
    if realID != "" && realID !in m.forward {
      NewIdIsNext(m, r.value);
    }
  }

  /** Cleaning up never changes the answer of a lookup made then or later. */
  lemma CleanKeepsLookups(m: Messages, clean: int, virtualID: string, now: int)
    requires clean <= now && m.expires.Keys == m.reverse.Keys
    ensures Retrieved(Cleaned(m, clean), virtualID, now) == Retrieved(m, virtualID, now)
  {
  }

  // ---- the latest message per group and user

  function LatestKey(group: string, user: string): string {
    group + ":" + user
  }

  /** Another pair that can be stored has the same slot for its latest message. */
  ghost predicate SlotShared(group: string, user: string) {
    exists g, u :: g != "" && u != "" && (g, u) != (group, user) && LatestKey(g, u) == LatestKey(group, user)
  }

  /** A colon from which on the key can be read differently, with something on both sides. */
  predicate SplitsElsewhere(group: string, user: string)
    requires group != "" && user != ""
  {
    ':' in group[1..] || ':' in user[..|user| - 1]
  }

  lemma KeyChars(group: string, user: string, n: nat)
    requires n < |LatestKey(group, user)|
    ensures LatestKey(group, user)[n] ==
            if n < |group| then group[n] else if n == |group| then ':' else user[n - |group| - 1]
  {
  }

  lemma OtherSplit(group: string, user: string, g: string, u: string)
    requires group != "" && user != "" && g != "" && u != ""
    requires (g, u) != (group, user) && LatestKey(g, u) == LatestKey(group, user)
    ensures SplitsElsewhere(group, user)
  {
    var key := LatestKey(group, user);
    KeyChars(group, user, |g|);
    assert key[..|g|] == g && key[|g| + 1..] == u && key[..|group|] == group && key[|group| + 1..] == user;
    assert key[|g|] == ':' && |g| + 1 + |u| == |key|;
    if |g| < |group| {
      assert group[1..][|g| - 1] == ':';
    } else if |g| > |group| {
      assert user[..|user| - 1][|g| - |group| - 1] == ':';
    }
  }

  lemma GroupSplits(group: string, user: string)
    requires group != "" && user != "" && ':' in group[1..]
    ensures SlotShared(group, user)
  {
    var (a, b) := Cut(group[1..], ':').value;
    var g, u := [group[0]] + a, b + ":" + user;
    assert group == g + ":" + b;
    assert LatestKey(g, u) == LatestKey(group, user);
  }

  lemma UserSplits(group: string, user: string)
    requires group != "" && user != "" && ':' in user[..|user| - 1]
    ensures SlotShared(group, user)
  {
    var (a, b) := Cut(user[..|user| - 1], ':').value;
    var g, u := group + ":" + a, b + [user[|user| - 1]];
    assert user == a + ":" + u;
    assert LatestKey(g, u) == LatestKey(group, user);
  }

  lemma SplitTwice(group: string, user: string)
    requires group != "" && user != "" && SplitsElsewhere(group, user)
    ensures SlotShared(group, user)
  {
    if ':' in group[1..] {
      GroupSplits(group, user);
    } else {
      UserSplits(group, user);
    }
  }

  /** A slot is shared exactly if the group has a colon behind its first character or the user
      one before its last. */
  lemma SlotSharedIff(group: string, user: string)
    requires group != "" && user != ""
    ensures SlotShared(group, user) <==> SplitsElsewhere(group, user)
  {
    if SplitsElsewhere(group, user) {
      SplitTwice(group, user);
    } else if SlotShared(group, user) {
      var g, u :| g != "" && u != "" && (g, u) != (group, user) && LatestKey(g, u) == LatestKey(group, user);
      OtherSplit(group, user, g, u);
    }
  }

  // ---- all slots

  /** The latest message per slot, and when it expires. */
  datatype Slots = Slots(latest: map<string, string>, expires: map<string, int>)

  function SlotStored(s: Slots, group: string, user: string, realID: string, now: int, ttl: int): Slots {
    if group == "" || user == "" || realID == "" then s
    else Slots(s.latest[LatestKey(group, user) := realID], s.expires[LatestKey(group, user) := Wrap64(now + ttl)])
  }

  function SlotsCleaned(s: Slots, now: int): Slots {
    var stale := set k | k in s.expires && 0 < s.expires[k] < now;
    Slots(s.latest - stale, s.expires - stale)
  }

  /** What a lookup of the latest message answers. */
  function SlotFound(s: Slots, group: string, user: string, now: int): Option<string> {
    var key := LatestKey(group, user);
    if key in s.expires && key in s.latest && s.expires[key] != 0 && now <= s.expires[key] && s.latest[key] != ""
    then Some(s.latest[key]) else None
  }
}
