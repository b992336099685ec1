/** The operations of the message ID store (idmap/map_service.go), each bbolt Update one
    atomic step; the clock and the configured lifetime are parameters. */
module MessageStore {
  import opened Strings
  import opened Decimals
  import Probing
  import opened MsgBuckets

  class MsgStore {
    var forward: map<string, int>
    var reverse: map<string, string>
    var expires: map<string, int>
    var counter: int
    var latest: map<string, string>
    var latestExpires: map<string, int>

    ghost function State(): Messages
      reads this
    {
      Messages(forward, reverse, expires, counter)
    }

    ghost function LatestSlots(): Slots
      reads `latest, `latestExpires
    {
      Slots(latest, latestExpires)
    }

    ghost predicate Valid()
      reads this
    {
      Bijective(State()) && latest.Keys == latestExpires.Keys
    }

    constructor ()
      ensures Valid() && State() == Messages(map[], map[], map[], 0) && latest == map[]
    {
      forward, reverse, expires, counter := map[], map[], map[], 0;
      latest, latestExpires := map[], map[];
    }

    method StoreMsgID(realID: string, now: int, ttl: int) returns (r: Result<int, ()>)
      requires Valid() && |forward| < TWO_64
      modifies this
      ensures Valid() && Stores(old(State()), realID, now, ttl, r, State())
      ensures r.Err? <==> realID == ""
      ensures latest == old(latest) && latestExpires == old(latestExpires)
    {
      ghost var m := State();
      var expiry := Wrap64(now + ttl);
      if expiry <= now {
        expiry := Wrap64(now + 3600);
      }
      if realID == "" {
        return Err(());
      }
      if realID in forward {
        var virtualID := forward[realID];
        expires := expires[Decimal(virtualID) := expiry];
        reverse := reverse[Decimal(virtualID) := realID];
        r := Ok(virtualID);
      } else {
        var next := AllocateMsgID();
        EnterMessage(realID, next, expiry);
        r := Ok(next);
      }
      StoreKeepsBijection(m, realID, now, ttl, r, State());
    }

    method EnterMessage(realID: string, v: int, expiry: int)
      modifies `counter, `forward, `reverse, `expires
      ensures counter == v && forward == old(forward)[realID := v]
      ensures reverse == old(reverse)[Decimal(v) := realID] && expires == old(expires)[Decimal(v) := expiry]
    {
      counter := v;
      forward := forward[realID := v];
      reverse := reverse[Decimal(v) := realID];
      expires := expires[Decimal(v) := expiry];
    }

    method AllocateMsgID() returns (next: int)
      requires Valid() && |forward| < TWO_64
      ensures Allocates(State(), next)
    {
      next := Wrap64(counter + 1);
      if next <= 0 {
        next := 1;
      }
      ghost var start, n: nat := Probing.StartAfter(counter), 0;
      var taken := VirtualIDTaken(next);
      while taken
        invariant next == Probing.Probe(start, n) && Probing.ProbedTaken(forward, start, n)
        invariant taken == Probing.Taken(forward, next)
        decreases |forward| - n + (if taken then 1 else 0)
      {
        Probing.OneMoreProbed(forward, start, n, next);
        n := n + 1;
        next := Wrap64(next + 1);
        taken := VirtualIDTaken(next);
      }
      Probing.FreeFound(forward, start, n, next);
    }

    method VirtualIDTaken(v: int) returns (taken: bool)
      requires Valid()
      ensures taken == Probing.Taken(forward, v)
    {
      InUse(State(), v);
      taken := Decimal(v) in reverse;
    }

    method RetrieveMsgID(virtualID: string, now: int) returns (r: Option<string>)
      ensures r == Retrieved(State(), virtualID, now)
    {
      var exp := if virtualID in expires then expires[virtualID] else 0;
      if exp > 0 && exp < now {
        return None;
      }
      if virtualID !in reverse {
        return None;
      }
      var realID := reverse[virtualID];
      r := if realID == "" then None else Some(realID);
    }

    method CleanExpired(now: int)
      requires Valid()
      modifies this
      ensures Valid() && State() == Cleaned(old(State()), now)
      ensures LatestSlots() == SlotsCleaned(old(LatestSlots()), now)
      ensures forall k :: k in latest <==> k in old(latest) && !(0 < old(latestExpires)[k] < now)
      ensures forall k :: k in latest ==> latest[k] == old(latest)[k] && latestExpires[k] == old(latestExpires)[k]
      ensures forall s :: s in reverse <==> s in old(reverse) && !(0 < old(expires)[s] < now)
      ensures forall s :: s in reverse ==> reverse[s] == old(reverse)[s] && expires[s] == old(expires)[s]
    {
      DropExpired(now);
      CleanKeepsBijection(old(State()), now);
      var stale := set k | k in latestExpires && 0 < latestExpires[k] < now;
      latest := latest - stale;
      latestExpires := latestExpires - stale;
    }

    /** The loop over the expired virtual IDs, in any order. */
    method DropExpired(now: int)
      requires Valid()
      modifies `forward, `reverse, `expires
      ensures State() == Cleaned(old(State()), now)
    {
      ghost var m, gone := State(), {};
      var expired := set s | s in expires && 0 < expires[s] < now;
      var pending := expired;
      while pending != {}
        invariant Splits(expired, pending, gone)
        invariant PartlyCleaned(m, State(), gone)
      {
        var virtualID :| virtualID in pending;
        SplitsOneMore(expired, pending, gone, virtualID);
        ghost var before := State();
        assert virtualID in m.reverse && virtualID in reverse;
        DropOne(virtualID);
        CleanOneMore(m, before, gone, virtualID, State());
        pending, gone := pending - {virtualID}, gone + {virtualID};
      }
      assert gone == expired;
      AllCleaned(m, State(), expired, now);
    }

    method DropOne(virtualID: string)
      modifies `forward, `reverse, `expires
      ensures forward == if virtualID in old(reverse) then old(forward) - {old(reverse)[virtualID]} else old(forward)
      ensures reverse == old(reverse) - {virtualID} && expires == old(expires) - {virtualID}
    {
      if virtualID in reverse {
        forward := forward - {reverse[virtualID]};
      }
      reverse := reverse - {virtualID};
      expires := expires - {virtualID};
    }

    method StoreLatestMsgID(group: string, user: string, realID: string, now: int, ttl: int)
      requires Valid()
      modifies `latest, `latestExpires
      ensures Valid()
      ensures LatestSlots() == SlotStored(old(LatestSlots()), group, user, realID, now, ttl)
      ensures group == "" || user == "" || realID == "" ==> LatestSlots() == old(LatestSlots())
    {
      if group == "" || user == "" || realID == "" {
        return;
      }
      var key := LatestKey(group, user);
      latest := latest[key := realID];
      latestExpires := latestExpires[key := Wrap64(now + ttl)];
    }

    method GetLatestMsgID(group: string, user: string, now: int) returns (r: Option<string>)
      ensures r == SlotFound(LatestSlots(), group, user, now)
    {
      var key := LatestKey(group, user);
      var exp := if key in latestExpires then latestExpires[key] else 0;
      if exp == 0 || exp < now {
        return None;
      }
      if key !in latest {
        return None;
      }
      r := if latest[key] == "" then None else Some(latest[key]);
    }
  }

  /** c is m without the entries of the virtual IDs in `gone`. */
  ghost predicate PartlyCleaned(m: Messages, c: Messages, gone: set<string>) {
    && c.counter == m.counter
    && c.reverse == m.reverse - gone
    && c.expires == m.expires - gone
    && c.forward == (map r | r in m.forward && Decimal(m.forward[r]) !in gone :: m.forward[r])
  }

  ghost predicate Splits(all: set<string>, pending: set<string>, gone: set<string>) {
    gone + pending == all && gone !! pending
  }

  lemma SplitsOneMore(all: set<string>, pending: set<string>, gone: set<string>, s: string)
    requires Splits(all, pending, gone) && s in pending
    ensures Splits(all, pending - {s}, gone + {s}) && s !in gone && s in all
  {
  }

  lemma OneLessForward(m: Messages, gone: set<string>, s: string, forward: map<string, int>)
    requires Bijective(m) && s !in gone && s in m.reverse
    requires forward == map r | r in m.forward && Decimal(m.forward[r]) !in gone :: m.forward[r]
    ensures forward - {m.reverse[s]} == map r | r in m.forward && Decimal(m.forward[r]) !in gone + {s} :: m.forward[r]
  {
    forall r | r in m.forward ensures Decimal(m.forward[r]) == s <==> r == m.reverse[s] {
      assert m.reverse[Decimal(m.forward[r])] == r;
    }
  }

  lemma OneLess<V>(m: map<string, V>, gone: set<string>, s: string)
    ensures (m - gone) - {s} == m - (gone + {s})
  {
  }

  lemma CleanOneMore(m: Messages, c: Messages, gone: set<string>, s: string, next: Messages)
    requires Bijective(m) && PartlyCleaned(m, c, gone) && s !in gone && s in m.reverse
    requires next == Messages(c.forward - {c.reverse[s]}, c.reverse - {s}, c.expires - {s}, c.counter)
    ensures PartlyCleaned(m, next, gone + {s})
  {
    OneLessForward(m, gone, s, c.forward);
    OneLess(m.reverse, gone, s);
    OneLess(m.expires, gone, s);
  }

  lemma AllCleaned(m: Messages, c: Messages, expired: set<string>, now: int)
    requires PartlyCleaned(m, c, expired)
    requires expired == set s | s in m.expires && 0 < m.expires[s] < now
    ensures c == Cleaned(m, now)
  {
    assert forall s :: s in expired <==> ExpiredAt(m, s, now);
  }
}
