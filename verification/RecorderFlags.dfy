/** The recorder in terms of what its callers pass and what is stored: which receptions are normal,
    and the texts of the flag (idmap/qq_group_receive_state.go). */
module RecorderFlags {
  import opened Strings
  import Wire
  import opened ReceiveWire
  import opened ReceiveState
  import opened Recorder
  import opened RecorderRuns

  // ---- one reception

  /** A reception that is not normal never answers with permission. */
  lemma OtherWithdraws(trim: string -> string, g: Group, id: Wire.Bytes, readFails: bool, writeFails: bool)
    ensures !RecordStep(trim, g, id, false, readFails, writeFails).1.permitted
  {
  }

  /** A normal one never withdraws permission. */
  lemma NormalKeeps(trim: string -> string, g: Group, id: Wire.Bytes, readFails: bool, writeFails: bool)
    requires g.loaded.Some? && g.loaded.value.Permitted
    ensures RecordStep(trim, g, id, true, readFails, writeFails).1.permitted
  {
  }

  /** The stored text changes only to "1" or "0", for the permission that is returned, and is one of
      them then; a failed write leaves it. */
  lemma StoredText(trim: string -> string, g: Group, id: Wire.Bytes, normal: bool, readFails: bool, writeFails: bool)
    ensures var (next, outcome) := RecordStep(trim, g, id, normal, readFails, writeFails);
            && (next.stored == g.stored || next.stored == Some(if outcome.permitted then "1" else "0"))
            && (outcome.error.Some? ==> next.stored == g.stored)
  {
  }

  /** What stored texts mean. */
  lemma FlagMeans(trim: string -> string, value: string)
    ensures FlagOf(trim, Some(value)) == Some(true) <==> trim(value) == "1" || trim(value) == "true"
    ensures FlagOf(trim, Some(value)) == Some(false) <==>
            trim(value) == "" || trim(value) == "0" || trim(value) == "false"
    ensures FlagOf(trim, None) == Some(false)
  {
  }

  // ---- the receptions taken in

  /** A message and whether it was received as a normal one. */
  datatype Taken = Taken(id: Wire.Bytes, normal: bool)

  /** The receptions taken in since the state was last loaded. */
  ghost function TakenSince(trim: string -> string, stored: Option<string>, events: seq<Event>): seq<Taken> {
    if events == [] then []
    else
      var before, e := events[..|events| - 1], events[|events| - 1];
      match e
      case Restarted => []
      case Received(id, normal, readFails, _) =>
        if Load(trim, After(trim, stored, before), readFails).Err? then []
        else TakenSince(trim, stored, before) + [Taken(id, normal)]
  }

  ghost predicate Comes(t: seq<Taken>, id: Wire.Bytes) {
    exists i :: 0 <= i < |t| && t[i].id == id
  }

  /** The last reception of each message. */
  ghost function LastOfEach(t: seq<Taken>): seq<Taken> {
    if t == [] then []
    else if Comes(t[1..], t[0].id) then LastOfEach(t[1..])
    else [t[0]] + LastOfEach(t[1..])
  }

  /** The last ten different messages were received as normal ones. */
  ghost predicate TenNormalLast(t: seq<Taken>) {
    var last := LastOfEach(t);
    |last| >= 10 && forall i :: |last| - 10 <= i < |last| ==> last[i].normal
  }

  ghost predicate AllNormalFrom(t: seq<Taken>, k: int) {
    forall n :: 0 <= k <= n < |t| ==> t[n].normal
  }

  ghost predicate EarnedBy(t: seq<Taken>, k: int) {
    0 < k <= |t| && TenNormalLast(t[..k]) && AllNormalFrom(t, k)
  }

  // ---- receptions and entries

  /** The entry of a reception. */
  ghost predicate Enters(t: Taken, e: Entry) {
    e.MessageID == t.id && (e.Event == CREATE_EVENT <==> t.normal)
  }

  ghost predicate EntersAll(t: seq<Taken>, h: seq<Entry>) {
    |t| == |h| && forall i :: 0 <= i < |t| ==> Enters(t[i], h[i])
  }

  lemma OneMoreEnters(t: seq<Taken>, h: seq<Entry>, id: Wire.Bytes, normal: bool)
    requires EntersAll(t, h)
    ensures EntersAll(t + [Taken(id, normal)], h + [Entry(id, EventOf(normal))])
  {
  }

  lemma {:induction false} HistoryEnters(trim: string -> string, stored: Option<string>, events: seq<Event>)
    ensures EntersAll(TakenSince(trim, stored, events), History(trim, stored, events))
  {
    if events != [] {
      var before, e := events[..|events| - 1], events[|events| - 1];
      HistoryEnters(trim, stored, before);
      if e.Received? {
        OneMoreEnters(TakenSince(trim, stored, before), History(trim, stored, before), e.id, e.normal);
      }
    }
  }

  lemma ComesIff(t: seq<Taken>, h: seq<Entry>, id: Wire.Bytes)
    requires EntersAll(t, h)
    ensures Comes(t, id) <==> Redelivered(h, id)
  {
    if Comes(t, id) {
      var i :| 0 <= i < |t| && t[i].id == id;
      assert Enters(t[i], h[i]);
    }
    if Redelivered(h, id) {
      var i :| 0 <= i < |h| && h[i].MessageID == id;
      assert Enters(t[i], h[i]);
    }
  }

  lemma {:induction false} LatestEnters(t: seq<Taken>, h: seq<Entry>)
    requires EntersAll(t, h)
    ensures EntersAll(LastOfEach(t), Latest(h))
  {
    if t != [] {
      assert Enters(t[0], h[0]);
      assert EntersAll(t[1..], h[1..]);
      LatestEnters(t[1..], h[1..]);
      ComesIff(t[1..], h[1..], t[0].id);
    }
  }

  lemma TenNormalIff(t: seq<Taken>, h: seq<Entry>)
    requires EntersAll(t, h) && Named(h)
    ensures TenNormalLast(t) <==> AllNormal(Window(h))
  {
    LatestEnters(t, h);
    WindowIsLastTen(h);
    LastTenNormalIff(LastOfEach(t), Latest(h));
  }

  lemma LastTenNormalIff(last: seq<Taken>, latest: seq<Entry>)
    requires EntersAll(last, latest)
    ensures AllNormal(LastTen(latest)) <==>
            |last| >= 10 && forall i :: |last| - 10 <= i < |last| ==> last[i].normal
  {
    var ten, cut := LastTen(latest), |latest| - 10;
    if |latest| >= 10 {
      assert ten == latest[cut..];
      forall i | 0 <= i < 10 ensures ten[i].Event == CREATE_EVENT <==> last[cut + i].normal {
        assert Enters(last[cut + i], latest[cut + i]) && ten[i] == latest[cut + i];
      }
      if AllNormal(ten) {
        forall i | |last| - 10 <= i < |last| ensures last[i].normal {
          assert ten[i - cut].Event == CREATE_EVENT;
        }
      }
    }
  }

  lemma NormalFromIff(t: seq<Taken>, h: seq<Entry>, k: int)
    requires EntersAll(t, h)
    ensures AllNormalFrom(t, k) <==> OnlyNormalFrom(h, k)
  {
    assert forall i :: 0 <= i < |t| ==> Enters(t[i], h[i]);
  }

  lemma EarnedIff(t: seq<Taken>, h: seq<Entry>, k: int)
    requires EntersAll(t, h) && Named(h)
    ensures EarnedBy(t, k) <==> EarnedAt(h, k)
  {
    if 0 < k <= |t| {
      assert EntersAll(t[..k], h[..k]);
      TenNormalIff(t[..k], h[..k]);
      NormalFromIff(t, h, k);
    }
  }

  /** After any run permission is there exactly if it was loaded and nothing but normal messages were
      received since, or if at some point the last ten different messages were normal and so were
      all since. */
  lemma PermissionByFlags(trim: string -> string, stored: Option<string>, events: seq<Event>)
    requires After(trim, stored, events).loaded.Some? && AllNamed(events)
    ensures var t := TakenSince(trim, stored, events);
            After(trim, stored, events).loaded.value.Permitted <==>
            (LoadedFlag(trim, stored, events) && AllNormalFrom(t, 0)) || exists k :: EarnedBy(t, k)
  {
    var t, h := TakenSince(trim, stored, events), History(trim, stored, events);
    PermissionAfterRun(trim, stored, events);
    HistoryEnters(trim, stored, events);
    HistoryNamed(trim, stored, events);
    NormalFromIff(t, h, 0);
    forall k ensures EarnedBy(t, k) <==> EarnedAt(h, k) {
      EarnedIff(t, h, k);
    }
  }

  // ---- ten normal receptions in a row

  /** Ten normal receptions of different messages. */
  ghost predicate TenNormalReceptions(ten: seq<Event>) {
    && |ten| == 10
    && (forall i :: 0 <= i < 10 ==> ten[i].Received? && ten[i].normal && ten[i].id != [])
    && (forall i, j :: 0 <= i < j < 10 ==> ten[i].id != ten[j].id)
  }

  ghost predicate DifferentIds(t: seq<Taken>) {
    forall i, j :: 0 <= i < j < |t| ==> t[i].id != t[j].id
  }

  lemma {:induction false} LastOfDifferent(t: seq<Taken>)
    requires DifferentIds(t)
    ensures LastOfEach(t) == t
  {
    if t != [] {
      assert !Comes(t[1..], t[0].id);
      LastOfDifferent(t[1..]);
    }
  }

  lemma {:induction false} LastOfEachEnds(a: seq<Taken>, t: seq<Taken>) returns (front: seq<Taken>)
    ensures LastOfEach(a + t) == front + LastOfEach(t)
  {
    if a == [] {
      front := [];
      assert a + t == t && front + LastOfEach(t) == LastOfEach(t);
    } else {
      assert (a + t)[1..] == a[1..] + t && (a + t)[0] == a[0];
      front := LastOfEachEnds(a[1..], t);
      if !Comes(a[1..] + t, a[0].id) {
        Associative([a[0]], front, LastOfEach(t));
        front := [a[0]] + front;
      }
    }
  }

  lemma TenAtEnd(before: seq<Taken>, ten: seq<Taken>)
    requires |ten| == 10 && DifferentIds(ten) && AllNormalFrom(ten, 0)
    ensures TenNormalLast(before + ten)
  {
    var front := LastOfEachEnds(before, ten);
    LastOfDifferent(ten);
    assert forall i :: |front| <= i < |front + ten| ==> (front + ten)[i] == ten[i - |front|];
  }

  ghost predicate AllReceived(run: seq<Event>) {
    forall i :: 0 <= i < |run| ==> run[i].Received?
  }

  ghost function TakenOf(run: seq<Event>): (t: seq<Taken>)
    requires AllReceived(run)
    ensures |t| == |run| && forall i :: 0 <= i < |t| ==> t[i] == Taken(run[i].id, run[i].normal)
  {
    seq(|run|, i requires 0 <= i < |run| => Taken(run[i].id, run[i].normal))
  }

  /** Once the state is loaded, receptions are taken in one after the other. */
  lemma NextTaken(trim: string -> string, stored: Option<string>, events: seq<Event>, e: Event)
    requires e.Received? && Load(trim, After(trim, stored, events), e.readFails).Ok?
    ensures After(trim, stored, events + [e]).loaded.Some?
    ensures TakenSince(trim, stored, events + [e]) == TakenSince(trim, stored, events) + [Taken(e.id, e.normal)]
  {
    assert (events + [e])[..|events|] == events;
  }

  lemma LastOfRun(events: seq<Event>, run: seq<Event>)
    requires AllReceived(run) && run != []
    ensures var early, last := run[..|run| - 1], run[|run| - 1];
            && AllReceived(early) && events + run == (events + early) + [last]
            && TakenOf(run) == TakenOf(early) + [Taken(last.id, last.normal)]
  {
  }

  lemma TakenStep(trim: string -> string, stored: Option<string>, events: seq<Event>, early: seq<Event>, last: Event)
    requires AllReceived(early) && last.Received?
    requires Load(trim, After(trim, stored, events + early), last.readFails).Ok?
    requires TakenSince(trim, stored, events + early) == TakenSince(trim, stored, events) + TakenOf(early)
    ensures After(trim, stored, events + early + [last]).loaded.Some?
    ensures TakenSince(trim, stored, events + early + [last]) ==
            TakenSince(trim, stored, events) + (TakenOf(early) + [Taken(last.id, last.normal)])
  {
    NextTaken(trim, stored, events + early, last);
    Associative(TakenSince(trim, stored, events), TakenOf(early), [Taken(last.id, last.normal)]);
  }

  lemma NothingTaken(trim: string -> string, stored: Option<string>, events: seq<Event>, run: seq<Event>)
    requires run == []
    ensures events + run == events && TakenOf(run) == []
    ensures TakenSince(trim, stored, events + run) == TakenSince(trim, stored, events) + TakenOf(run)
  {
    assert events + run == events && TakenOf(run) == [];
  }

  lemma {:induction false} RunTaken(trim: string -> string, stored: Option<string>, events: seq<Event>, run: seq<Event>)
    requires AllReceived(run) && run != []
    requires Load(trim, After(trim, stored, events), run[0].readFails).Ok?
    ensures After(trim, stored, events + run).loaded.Some?
    ensures TakenSince(trim, stored, events + run) == TakenSince(trim, stored, events) + TakenOf(run)
    decreases |run|
  {
    var early, last := run[..|run| - 1], run[|run| - 1];
    LastOfRun(events, run);
    if early == [] {
      NothingTaken(trim, stored, events, early);
    } else {
      RunTaken(trim, stored, events, early);
    }
    TakenStep(trim, stored, events, early, last);
  }

  lemma TakenTen(ten: seq<Event>)
    requires TenNormalReceptions(ten)
    ensures AllReceived(ten) && DifferentIds(TakenOf(ten)) && AllNormalFrom(TakenOf(ten), 0)
  {
  }

  /** Ten normal receptions of different messages, with nothing between them, end in permission,
      whatever came before and whether or not writes fail. */
  lemma TenNormalPermit(trim: string -> string, stored: Option<string>, events: seq<Event>, ten: seq<Event>)
    requires TenNormalReceptions(ten) && AllNamed(events)
    requires Load(trim, After(trim, stored, events), ten[0].readFails).Ok?
    ensures After(trim, stored, events + ten).loaded.Some?
    ensures After(trim, stored, events + ten).loaded.value.Permitted
  {
    TakenTen(ten);
    RunTaken(trim, stored, events, ten);
    TenAtEnd(TakenSince(trim, stored, events), TakenOf(ten));
    var t := TakenSince(trim, stored, events + ten);
    assert t[..|t|] == t;
    assert EarnedBy(t, |t|);
    assert AllNamed(events + ten);
    PermissionByFlags(trim, stored, events + ten);
  }

  /** And the last of them answers so. */
  lemma TenthAnswers(trim: string -> string, stored: Option<string>, events: seq<Event>, ten: seq<Event>)
    requires TenNormalReceptions(ten) && AllNamed(events)
    requires Load(trim, After(trim, stored, events), ten[0].readFails).Ok?
    ensures var last := ten[9];
            RecordStep(trim, After(trim, stored, events + ten[..9]), last.id, last.normal, last.readFails,
                       last.writeFails).1.permitted
  {
    TenNormalPermit(trim, stored, events, ten);
    assert events + ten == (events + ten[..9]) + [ten[9]];
    StateAnswers(trim, After(trim, stored, events + ten[..9]), ten[9]);
    StepAtEnd(trim, stored, events + ten[..9], ten[9]);
    TakenTen(ten);
    RunTaken(trim, stored, events, ten[..9]);
  }

  lemma StepAtEnd(trim: string -> string, stored: Option<string>, events: seq<Event>, e: Event)
    ensures After(trim, stored, events + [e]) == Step(trim, After(trim, stored, events), e)
  {
    assert (events + [e])[..|events|] == events;
  }

  /** A reception answers with the permission of the state it leaves. */
  lemma StateAnswers(trim: string -> string, g: Group, e: Event)
    requires e.Received?
    ensures var (next, outcome) := RecordStep(trim, g, e.id, e.normal, e.readFails, e.writeFails);
            Load(trim, g, e.readFails).Ok? ==> next.loaded.Some? && outcome.permitted == next.loaded.value.Permitted
  {
  }
}
