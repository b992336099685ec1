/** The recorder of message receptions (idmap/qq_group_receive_state.go): state per group
    kept in TLV form, a flag persisted when it changes, failing reads and writes, restarts. */
module Recorder {
  import opened Strings
  import opened Wire
  import opened ReceiveWire
  import opened ReceiveState

  datatype RecordError = EmptyInput | ReadFailed | InvalidFlag(value: string) | WriteFailed

  /** The two results of a call: the permission, and an error if there is one. */
  datatype Outcome = Outcome(permitted: bool, error: Option<RecordError>)

  /** What is known about one group: its state once loaded, and the stored flag. */
  datatype Group = Group(loaded: Option<State>, stored: Option<string>)

  function FlagText(permitted: bool): string {
    if permitted then "1" else "0"
  }

  /** The meaning of a stored flag; trim stands for strings.TrimSpace. */
  function FlagOf(trim: string -> string, stored: Option<string>): Option<bool> {
    match stored
    case None => Some(false)
    case Some(value) =>
      var t := trim(value);
      if t == "" || t == "0" || t == "false" then Some(false)
      else if t == "1" || t == "true" then Some(true)
      else None
  }

  function EventOf(normal: bool): nat {
    if normal then CREATE_EVENT else AT_EVENT
  }

  /** The state a call starts from, or the error of loading it. */
  function Load(trim: string -> string, g: Group, readFails: bool): Result<State, RecordError> {
    match g.loaded
    case Some(s) => Ok(s)
    case None =>
      if readFails then Err(ReadFailed)
      else match FlagOf(trim, g.stored)
        case None => Err(InvalidFlag(g.stored.value))
        case Some(flag) => Ok(State([], flag, flag))
  }

  /** Recording one reception, with its identifier already trimmed. */
  function RecordStep(trim: string -> string, g: Group, id: Bytes, normal: bool, readFails: bool,
      writeFails: bool): (Group, Outcome) {
    match Load(trim, g, readFails)
    case Err(e) => (g, Outcome(false, Some(e)))
    case Ok(start) =>
      var s := Advance(start, Entry(id, EventOf(normal)));
      if s.Permitted == s.PersistedPermitted then (g.(loaded := Some(s)), Outcome(s.Permitted, None))
      else if writeFails then (g.(loaded := Some(s)), Outcome(s.Permitted, Some(WriteFailed)))
      else (Group(Some(s.(PersistedPermitted := s.Permitted)), Some(FlagText(s.Permitted))), Outcome(s.Permitted, None))
  }

  // ---- the recorder

  /** Identifiers that fit in memory: far shorter than 2^63 bytes. */
  predicate IdFits(id: Bytes) {
    |id| < 0x1000_0000_0000_0000
  }

  class GroupTracker {
    var loaded: bool
    var wireTLV: Bytes

    constructor ()
      ensures !loaded && wireTLV == []
    {
      loaded, wireTLV := false, [];
    }

    ghost function View(): Option<State>
      reads this
    {
      if loaded && ParseState(EMPTY, wireTLV).Ok? then Some(ParseState(EMPTY, wireTLV).value) else None
    }

    ghost predicate Holds(s: State)
      reads this
    {
      loaded && Fits(s) && wireTLV == StateWire(s)
    }

    /** A loaded tracker holds the encoding of a state, so decoding it cannot fail. */
    ghost predicate Valid()
      reads this
    {
      loaded ==> exists s :: Holds(s)
    }

    lemma ViewOfHeld(s: State)
      requires Holds(s)
      ensures View() == Some(s) && ParseState(EMPTY, wireTLV) == Ok(s)
    {
      StateRoundTrip(s);
    }

    /** Keep a state in TLV form. */
    method Save(state: State)
      requires loaded && Fits(state)
      modifies `wireTLV
      ensures Holds(state) && View() == Some(state)
    {
      wireTLV := MarshalState(state);
      ViewOfHeld(state);
    }

    /** Read the stored flag once per group. */
    method EnsureLoaded(trim: string -> string, stored: Option<string>, readFails: bool)
      returns (error: Option<RecordError>)
      requires Valid()
      modifies this
      ensures Valid()
      ensures var start := Load(trim, Group(old(View()), stored), readFails);
              if start.Ok? then error.None? && Holds(start.value)
              else error == Some(start.error) && View() == old(View())
    {
      if loaded {
        ghost var s :| Holds(s);
        ViewOfHeld(s);
        return None;
      }
      var persisted := ReadPersisted(trim, stored, readFails);
      if persisted.Err? {
        return Some(persisted.error);
      }
      loaded := true;
      Save(State([], persisted.value, persisted.value));
      error := None;
    }

    /** Decode the TLV form; bytes that cannot be decoded are thrown away. */
    method DecodeOrReset() returns (r: Result<State, DecodeError>)
      modifies this
      ensures r == ParseState(EMPTY, old(wireTLV))
      ensures if r.Ok? then loaded == old(loaded) && wireTLV == old(wireTLV) else !loaded && wireTLV == []
    {
      r := UnmarshalState(wireTLV);
      if r.Err? {
        loaded, wireTLV := false, [];
      }
    }

    /** The locked part of a call: load if needed, decode, advance, encode, persist on change. */
    method Record(trim: string -> string, stored: Option<string>, id: Bytes, normal: bool, readFails: bool,
        writeFails: bool)
      returns (outcome: Outcome, written: Option<string>)
      requires Valid() && IdFits(id)
      modifies this
      ensures Valid()
      ensures RecordStep(trim, Group(old(View()), stored), id, normal, readFails, writeFails) ==
        (Group(View(), written), outcome)
    {
      written := stored;
      var loadError := EnsureLoaded(trim, stored, readFails);
      if loadError.Some? {
        return Outcome(false, loadError), stored;
      }
      ghost var start := Load(trim, Group(old(View()), stored), readFails).value;
      ViewOfHeld(start);
      var decoded := DecodeOrReset();
      // The error return after a failed decoding is never taken.
      assert decoded.Ok?;
      var eventType := AT_EVENT;
      if normal {
        eventType := CREATE_EVENT;
      }
      var state := AdvanceState(decoded.value, id, eventType);
      AdvanceFits(start, Entry(id, eventType));
      Save(state);
      if state.Permitted == state.PersistedPermitted {
        return Outcome(state.Permitted, None), stored;
      }
      var flagValue := "0";
      if state.Permitted {
        flagValue := "1";
      }
      if writeFails {
        return Outcome(state.Permitted, Some(WriteFailed)), stored;
      }
      written := Some(flagValue);
      state := state.(PersistedPermitted := state.Permitted);
      Save(state);
      outcome := Outcome(state.Permitted, None);
    }
  }

  method ReadPersisted(trim: string -> string, stored: Option<string>, readFails: bool)
    returns (r: Result<bool, RecordError>)
    ensures r == if readFails then Err(ReadFailed)
                 else match FlagOf(trim, stored) case None => Err(InvalidFlag(stored.value)) case Some(flag) => Ok(flag)
    ensures r == Ok(true) <==> !readFails && stored.Some? && (trim(stored.value) == "1" || trim(stored.value) == "true")
    ensures r == Ok(false) <==> !readFails && (stored.None? || trim(stored.value) == "" ||
                                               trim(stored.value) == "0" || trim(stored.value) == "false")
  {
    if readFails {
      return Err(ReadFailed);
    }
    if stored.None? {
      return Ok(false);
    }
    var value := trim(stored.value);
    if value == "" || value == "0" || value == "false" {
      return Ok(false);
    }
    if value == "1" || value == "true" {
      return Ok(true);
    }
    r := Err(InvalidFlag(stored.value));
  }

  lemma {:induction false} VarintLength(v: nat, i: nat)
    requires i <= 9 && v < Room(i)
    ensures |Varint(v)| <= 10 - i
    decreases 9 - i
  {
    if v >= 128 {
      VarintLength(v / 128, i + 1);
    }
  }

  lemma ShortIdFits(id: Bytes, event: nat)
    requires IdFits(id) && (event == CREATE_EVENT || event == AT_EVENT)
    ensures EntryFits(Entry(id, event))
  {
    RoomIs64Bits();
    VarintLength(|id|, 0);
    VarintLength(1 * 8 + BYTES, 0);
    VarintLength(2 * 8 + VARINT, 0);
    VarintLength(event, 0);
  }

  lemma {:induction false} WithoutFits(recent: seq<Entry>, id: Bytes)
    requires forall i :: 0 <= i < |recent| ==> EntryFits(recent[i])
    ensures forall i :: 0 <= i < |Without(recent, id)| ==> EntryFits(Without(recent, id)[i])
  {
    if recent != [] {
      WithoutFits(recent[..|recent| - 1], id);
    }
  }

  lemma AdvanceFits(s: State, e: Entry)
    requires Fits(s) && IdFits(e.MessageID) && (e.Event == CREATE_EVENT || e.Event == AT_EVENT)
    ensures Fits(Advance(s, e))
  {
    ShortIdFits(e.MessageID, e.Event);
    WithoutFits(s.Recent, e.MessageID);
  }

  // ---- several groups

  class Recorder {
    const trim: string -> string
    const trimId: Bytes -> Bytes
    var trackers: map<string, GroupTracker>
    // The flag of each group in the configuration bucket; it outlives a restart.
    var permits: map<string, string>

    /** Each group has its own tracker. */
    ghost predicate Valid()
      reads this, trackers.Values
    {
      && (forall g {:trigger trackers[g]} :: g in trackers ==> trackers[g].Valid())
      && (forall g, k :: g in trackers && k in trackers && trackers[g] == trackers[k] ==> g == k)
    }

    ghost function GroupOf(g: string): Group
      reads this, trackers.Values
    {
      Group(if g in trackers then trackers[g].View() else None, if g in permits then Some(permits[g]) else None)
    }

    constructor (trim: string -> string, trimId: Bytes -> Bytes)
      ensures Valid() && trackers == map[] && permits == map[]
    {
      this.trim, this.trimId, trackers, permits := trim, trimId, map[], map[];
    }

    /** The tracker of a group, a new one if there is none yet. */
    method TrackerFor(group: string) returns (tracker: GroupTracker)
      requires Valid()
      modifies `trackers
      ensures Valid() && group in trackers && trackers[group] == tracker
      ensures tracker in old(trackers.Values) || fresh(tracker)
      ensures forall g :: GroupOf(g) == old(GroupOf(g))
    {
      if group in trackers {
        tracker := trackers[group];
      } else {
        tracker := new GroupTracker();
        trackers := trackers[group := tracker];
      }
    }

    method RecordReception(groupOpenID: string, messageID: Bytes, normal: bool, readFails: bool, writeFails: bool)
      returns (outcome: Outcome)
      requires Valid() && IdFits(trimId(messageID))
      modifies this, trackers.Values
      ensures Valid()
      ensures trim(groupOpenID) == "" || trimId(messageID) == [] ==>
                outcome == Outcome(false, Some(EmptyInput)) && trackers == old(trackers) && permits == old(permits)
                && forall g :: GroupOf(g) == old(GroupOf(g))
      ensures trim(groupOpenID) != "" && trimId(messageID) != [] ==>
                RecordStep(trim, old(GroupOf(trim(groupOpenID))), trimId(messageID), normal, readFails, writeFails)
                == (GroupOf(trim(groupOpenID)), outcome)
      ensures forall g :: g != trim(groupOpenID) ==> GroupOf(g) == old(GroupOf(g))
    {
      var group, id := trim(groupOpenID), trimId(messageID);
      if group == "" || id == [] {
        return Outcome(false, Some(EmptyInput));
      }
      var tracker := TrackerFor(group);
      outcome := RecordIn(tracker, group, id, normal, readFails, writeFails);
    }

    /** The part that holds the tracker's lock. */
    method RecordIn(tracker: GroupTracker, group: string, id: Bytes, normal: bool, readFails: bool, writeFails: bool)
      returns (outcome: Outcome)
      requires Valid() && IdFits(id) && group in trackers && trackers[group] == tracker
      modifies `permits, tracker
      ensures Valid()
      ensures RecordStep(trim, old(GroupOf(group)), id, normal, readFails, writeFails) == (GroupOf(group), outcome)
      ensures forall g :: g != group ==> GroupOf(g) == old(GroupOf(g))
    {
      var stored := if group in permits then Some(permits[group]) else None;
      var written;
      outcome, written := tracker.Record(trim, stored, id, normal, readFails, writeFails);
      if written.Some? {
        permits := permits[group := written.value];
      }
    }

    /** The process ends and starts again: all trackers are gone, the flags are not. */
    method Restart()
      modifies this
      ensures Valid() && permits == old(permits)
      ensures forall g :: GroupOf(g) == Group(None, old(GroupOf(g)).stored)
    {
      trackers := map[];
    }
  }
}
