/** Runs of the recorder for one group: receptions, failing reads and writes, restarts. */
module RecorderRuns {
  import opened Strings
  import Wire
  import opened ReceiveWire
  import opened ReceiveState
  import opened Recorder

  datatype Event = Received(id: Wire.Bytes, normal: bool, readFails: bool, writeFails: bool) | Restarted

  function Step(trim: string -> string, g: Group, e: Event): Group {
    match e
    case Received(id, normal, readFails, writeFails) => RecordStep(trim, g, id, normal, readFails, writeFails).0
    case Restarted => Group(None, g.stored)
  }

  /** The group after a run that starts with a fresh process and some stored flag. */
  function After(trim: string -> string, stored: Option<string>, events: seq<Event>): Group {
    if events == [] then Group(None, stored)
    else Step(trim, After(trim, stored, events[..|events| - 1]), events[|events| - 1])
  }

  /** Trimming leaves the two written flag values alone. */
  predicate TrimsFlags(trim: string -> string) {
    trim("0") == "0" && trim("1") == "1"
  }

  /** The flag in memory is the stored one. */
  predicate FlagsAgree(trim: string -> string, g: Group) {
    g.loaded.Some? ==> FlagOf(trim, g.stored) == Some(g.loaded.value.PersistedPermitted)
  }

  lemma StepKeepsFlags(trim: string -> string, g: Group, e: Event)
    requires TrimsFlags(trim) && FlagsAgree(trim, g)
    ensures FlagsAgree(trim, Step(trim, g, e))
  {
  }

  /** Under any mix of events, failures and restarts, the persisted flag in memory equals
      the stored flag once the state is loaded. */
  lemma {:induction false} RunKeepsFlags(trim: string -> string, stored: Option<string>, events: seq<Event>)
    requires TrimsFlags(trim)
    ensures FlagsAgree(trim, After(trim, stored, events))
  {
    if events != [] {
      var before := events[..|events| - 1];
      RunKeepsFlags(trim, stored, before);
      StepKeepsFlags(trim, After(trim, stored, before), events[|events| - 1]);
    }
  }

  /** A call without an error leaves the stored flag equal to the returned permission. */
  lemma SuccessIsPersisted(trim: string -> string, stored: Option<string>, events: seq<Event>, id: Wire.Bytes,
      normal: bool, readFails: bool, writeFails: bool)
    requires TrimsFlags(trim)
    ensures var (g, outcome) := RecordStep(trim, After(trim, stored, events), id, normal, readFails, writeFails);
            outcome.error.None? ==>
              && FlagOf(trim, g.stored) == Some(outcome.permitted)
              && g.loaded.Some? && g.loaded.value.Permitted == g.loaded.value.PersistedPermitted == outcome.permitted
  {
    RunKeepsFlags(trim, stored, events);
  }

  // ---- what the state remembers

  /** The events taken in since the state was last loaded. */
  ghost function History(trim: string -> string, stored: Option<string>, events: seq<Event>): seq<Entry> {
    if events == [] then []
    else
      var before, e := events[..|events| - 1], events[|events| - 1];
      match e
      case Restarted => []
      case Received(id, normal, readFails, _) =>
        if Load(trim, After(trim, stored, before), readFails).Err? then []
        else History(trim, stored, before) + [Entry(id, EventOf(normal))]
  }

  /** The flag with which the state was last loaded. */
  ghost function LoadedFlag(trim: string -> string, stored: Option<string>, events: seq<Event>): bool {
    if events == [] then false
    else
      var before, e := events[..|events| - 1], events[|events| - 1];
      var g := After(trim, stored, before);
      if e.Received? && g.loaded.None? && Load(trim, g, e.readFails).Ok? then FlagOf(trim, g.stored) == Some(true)
        else LoadedFlag(trim, stored, before)
  }

  /** s remembers what replaying h from the loaded flag p gives. */
  ghost predicate Remembers(s: State, p: bool, h: seq<Entry>) {
    s.Recent == Replay(p, h).Recent && s.Permitted == Replay(p, h).Permitted
  }

  lemma AdvanceRemembers(s: State, p: bool, h: seq<Entry>, e: Entry)
    requires Remembers(s, p, h)
    ensures Remembers(Advance(s, e), p, h + [e])
  {
    assert (h + [e])[..|h|] == h;
  }

  lemma ReceptionRemembers(trim: string -> string, g: Group, e: Event, p: bool, h: seq<Entry>)
    requires e.Received? && Load(trim, g, e.readFails).Ok? && Remembers(Load(trim, g, e.readFails).value, p, h)
    ensures var next := Step(trim, g, e);
            next.loaded.Some? && Remembers(next.loaded.value, p, h + [Entry(e.id, EventOf(e.normal))])
  {
    AdvanceRemembers(Load(trim, g, e.readFails).value, p, h, Entry(e.id, EventOf(e.normal)));
  }

  /** A loaded state remembers the history, and without one there is no history. */
  ghost predicate GroupRemembers(g: Group, p: bool, h: seq<Entry>) {
    if g.loaded.Some? then Remembers(g.loaded.value, p, h) else h == []
  }

  lemma LoadRemembers(trim: string -> string, g: Group, readFails: bool, p: bool, h: seq<Entry>)
    requires GroupRemembers(g, p, h) && Load(trim, g, readFails).Ok?
    ensures Remembers(Load(trim, g, readFails).value, if g.loaded.Some? then p
      else FlagOf(trim, g.stored) == Some(true), h)
  {
  }

  lemma {:induction false} StateIsReplay(trim: string -> string, stored: Option<string>, events: seq<Event>)
    ensures GroupRemembers(After(trim, stored, events), LoadedFlag(trim, stored, events), History(trim, stored, events))
  {
    if events != [] {
      var before, e := events[..|events| - 1], events[|events| - 1];
      StateIsReplay(trim, stored, before);
      var g := After(trim, stored, before);
      if e.Received? && Load(trim, g, e.readFails).Ok? {
        LoadRemembers(trim, g, e.readFails, LoadedFlag(trim, stored, before), History(trim, stored, before));
        ReceptionRemembers(trim, g, e, LoadedFlag(trim, stored, events), History(trim, stored, before));
      }
    }
  }

  /** After any run, the window is the last ten latest events since loading, and permission
      means that it was loaded and never withdrawn or was earned since. */
  lemma PermissionAfterRun(trim: string -> string, stored: Option<string>, events: seq<Event>)
    requires After(trim, stored, events).loaded.Some?
    requires forall i :: 0 <= i < |events| && events[i].Received? ==> events[i].id != []
    ensures var s, h := After(trim, stored, events).loaded.value, History(trim, stored, events);
            && s.Recent == LastTen(Latest(h)) && Distinct(s.Recent)
            && (s.Permitted <==> (LoadedFlag(trim, stored, events) && OnlyNormalFrom(h, 0)) || Earned(h))
  {
    var h, p := History(trim, stored, events), LoadedFlag(trim, stored, events);
    StateIsReplay(trim, stored, events);
    HistoryNamed(trim, stored, events);
    ReplayWindow(p, h);
    WindowIsLastTen(h);
    PermittedIff(p, h);
  }

  lemma {:induction false} HistoryNamed(trim: string -> string, stored: Option<string>, events: seq<Event>)
    requires forall i :: 0 <= i < |events| && events[i].Received? ==> events[i].id != []
    ensures Named(History(trim, stored, events))
  {
    if events != [] {
      HistoryNamed(trim, stored, events[..|events| - 1]);
    }
  }

  // ---- failed writes over runs

  /** Receptions whose write fails, if one is attempted. */
  ghost predicate WritesFail(fails: seq<Event>) {
    forall i :: 0 <= i < |fails| ==> fails[i].Received? && fails[i].writeFails
  }

  ghost function EntriesOf(fails: seq<Event>): (entries: seq<Entry>)
    requires WritesFail(fails)
    ensures |entries| == |fails|
  {
    seq(|fails|, i requires 0 <= i < |fails| => Entry(fails[i].id, EventOf(fails[i].normal)))
  }

  /** A reception whose write fails is taken in, and nothing is stored. */
  lemma FailedReception(trim: string -> string, stored: Option<string>, events: seq<Event>, e: Event)
    requires After(trim, stored, events).loaded.Some? && e.Received? && e.writeFails
    ensures var g, next := After(trim, stored, events), After(trim, stored, events + [e]);
            && next.loaded.Some? && next.stored == g.stored
            && next.loaded.value.PersistedPermitted == g.loaded.value.PersistedPermitted
    ensures History(trim, stored, events + [e]) == History(trim, stored, events) + [Entry(e.id, EventOf(e.normal))]
    ensures LoadedFlag(trim, stored, events + [e]) == LoadedFlag(trim, stored, events)
  {
    assert (events + [e])[..|events|] == events;
  }

  /** From events to run only these entries were taken in, and nothing was stored. */
  ghost predicate TakenIn(trim: string -> string, stored: Option<string>, events: seq<Event>, run: seq<Event>,
      entries: seq<Entry>) {
    var g, next := After(trim, stored, events), After(trim, stored, run);
    && g.loaded.Some? && next.loaded.Some? && next.stored == g.stored
    && next.loaded.value.PersistedPermitted == g.loaded.value.PersistedPermitted
    && History(trim, stored, run) == History(trim, stored, events) + entries
    && LoadedFlag(trim, stored, run) == LoadedFlag(trim, stored, events)
  }

  lemma TakenInOneMore(trim: string -> string, stored: Option<string>, events: seq<Event>, run: seq<Event>,
      entries: seq<Entry>, e: Event)
    requires TakenIn(trim, stored, events, run, entries) && e.Received? && e.writeFails
    ensures TakenIn(trim, stored, events, run + [e], entries + [Entry(e.id, EventOf(e.normal))])
  {
    FailedReception(trim, stored, run, e);
    Associative(History(trim, stored, events), entries, [Entry(e.id, EventOf(e.normal))]);
  }

  lemma SplitLast(events: seq<Event>, fails: seq<Event>)
    requires fails != [] && WritesFail(fails)
    ensures var n := |fails| - 1;
            && events + fails == (events + fails[..n]) + [fails[n]] && WritesFail(fails[..n])
            && EntriesOf(fails) == EntriesOf(fails[..n]) + [Entry(fails[n].id, EventOf(fails[n].normal))]
  {
  }

  lemma {:induction false} FailedReceptions(trim: string -> string, stored: Option<string>, events: seq<Event>,
      fails: seq<Event>)
    requires After(trim, stored, events).loaded.Some? && WritesFail(fails)
    ensures TakenIn(trim, stored, events, events + fails, EntriesOf(fails))
    decreases |fails|
  {
    if fails == [] {
      assert events + fails == events;
      assert History(trim, stored, events) + [] == History(trim, stored, events);
    } else {
      var n := |fails| - 1;
      SplitLast(events, fails);
      FailedReceptions(trim, stored, events, fails[..n]);
      TakenInOneMore(trim, stored, events, events + fails[..n], EntriesOf(fails[..n]), fails[n]);
    }
  }

  ghost predicate AllNamed(events: seq<Event>) {
    forall i :: 0 <= i < |events| && events[i].Received? ==> events[i].id != []
  }

  lemma NextReception(trim: string -> string, stored: Option<string>, run: seq<Event>, e: Event)
    requires After(trim, stored, run).loaded.Some? && e.Received?
    ensures After(trim, stored, run + [e]) ==
            RecordStep(trim, After(trim, stored, run), e.id, e.normal, e.readFails, e.writeFails).0
    ensures History(trim, stored, run + [e]) == History(trim, stored, run) + [Entry(e.id, EventOf(e.normal))]
    ensures LoadedFlag(trim, stored, run + [e]) == LoadedFlag(trim, stored, run)
  {
    assert (run + [e])[..|run|] == run;
  }

  /** What the state holds after any run, in one statement. */
  lemma StateOfHistory(trim: string -> string, stored: Option<string>, run: seq<Event>)
    requires After(trim, stored, run).loaded.Some? && AllNamed(run)
    ensures var s, h := After(trim, stored, run).loaded.value, History(trim, stored, run);
            s.Recent == LastTen(Latest(h)) && s.Permitted == Replay(LoadedFlag(trim, stored, run), h).Permitted
  {
    PermissionAfterRun(trim, stored, run);
    StateIsReplay(trim, stored, run);
  }

  /** After any number of failed writes in a row nothing of the window is lost, and the stored
      flag is still the old one. */
  lemma FailedWritesLoseNothing(trim: string -> string, stored: Option<string>, events: seq<Event>, fails: seq<Event>)
    requires After(trim, stored, events).loaded.Some? && WritesFail(fails) && AllNamed(events) && AllNamed(fails)
    ensures After(trim, stored, events + fails).loaded.Some?
    ensures var g, h := After(trim, stored, events + fails), History(trim, stored, events) + EntriesOf(fails);
            && g.stored == After(trim, stored, events).stored
            && g.loaded.value.Recent == LastTen(Latest(h))
            && g.loaded.value.Permitted == Replay(LoadedFlag(trim, stored, events), h).Permitted
  {
    FailedReceptions(trim, stored, events, fails);
    assert AllNamed(events + fails);
    StateOfHistory(trim, stored, events + fails);
  }

  /** A reception of a loaded group whose write does not fail has no error, returns the
      permission that the whole history gives, and leaves the stored flag equal to it. */
  lemma GoodWrite(trim: string -> string, stored: Option<string>, run: seq<Event>, e: Event, outcome: Outcome)
    requires TrimsFlags(trim) && After(trim, stored, run).loaded.Some? && AllNamed(run + [e]) && e.Received? &&
      !e.writeFails
    requires outcome == RecordStep(trim, After(trim, stored, run), e.id, e.normal, e.readFails, e.writeFails).1
    ensures outcome.error.None? && FlagOf(trim, After(trim, stored, run + [e]).stored) == Some(outcome.permitted)
    ensures outcome.permitted ==
            Replay(LoadedFlag(trim, stored, run),
              History(trim, stored, run) + [Entry(e.id, EventOf(e.normal))]).Permitted
  {
    NextReception(trim, stored, run, e);
    SuccessIsPersisted(trim, stored, run, e.id, e.normal, e.readFails, e.writeFails);
    StateOfHistory(trim, stored, run + [e]);
  }

  /** So the first good write after any number of failed ones makes up for all of them. */
  lemma FailedWritesAreRetried(trim: string -> string, stored: Option<string>, events: seq<Event>, fails: seq<Event>,
      e: Event, outcome: Outcome)
    requires TrimsFlags(trim) && After(trim, stored, events).loaded.Some? && WritesFail(fails)
    requires AllNamed(events) && AllNamed(fails) && e.Received? && e.id != [] && !e.writeFails
    requires outcome ==
      RecordStep(trim, After(trim, stored, events + fails), e.id, e.normal, e.readFails, e.writeFails).1
    ensures outcome.error.None?
    ensures FlagOf(trim, After(trim, stored, events + fails + [e]).stored) == Some(outcome.permitted)
    ensures outcome.permitted ==
            Replay(LoadedFlag(trim, stored, events),
                   History(trim, stored, events) + EntriesOf(fails) + [Entry(e.id, EventOf(e.normal))]).Permitted
  {
    FailedReceptions(trim, stored, events, fails);
    assert AllNamed(events + fails + [e]);
    GoodWrite(trim, stored, events + fails, e, outcome);
  }
}
