/** The TLV form of the receive-all detection state (idmap/qq_group_receive_state.go). */
module ReceiveWire {
  import opened Strings
  import opened Wire

  datatype Entry = Entry(MessageID: Bytes, Event: nat)

  datatype State = State(Recent: seq<Entry>, Permitted: bool, PersistedPermitted: bool)

  datatype DecodeError = WireProblem(error: WireError) | WrongType(field: nat, wireType: nat)

  const EMPTY := State([], false, false)
  const NO_ENTRY := Entry([], 0)

  /** What a Go value of these types can hold: 64-bit events, and texts whose encoding has a
      64-bit length. */
  predicate EntryFits(e: Entry) {
    e.Event < 0x1_0000_0000_0000_0000 && |EntryWire(e)| < 0x1_0000_0000_0000_0000
  }

  predicate Fits(s: State) {
    forall i :: 0 <= i < |s.Recent| ==> EntryFits(s.Recent[i])
  }

  // ---- writing

  function EntryWire(e: Entry): Bytes {
    Tag(1, BYTES) + LengthDelimited(e.MessageID) + (Tag(2, VARINT) + Varint(e.Event))
  }

  function RecentWire(recent: seq<Entry>): Bytes {
    if recent == [] then []
    else RecentWire(recent[..|recent| - 1]) + (Tag(1, BYTES) + LengthDelimited(EntryWire(recent[|recent| - 1])))
  }

  function FlagWire(number: nat, flag: bool): Bytes {
    if flag then Tag(number, VARINT) + Varint(1) else []
  }

  function StateWire(s: State): Bytes {
    RecentWire(s.Recent) + FlagWire(2, s.Permitted) + FlagWire(3, s.PersistedPermitted)
  }

  method MarshalState(state: State) returns (wire: Bytes)
    ensures wire == StateWire(state)
  {
    wire := [];
    for i := 0 to |state.Recent|
      invariant wire == RecentWire(state.Recent[..i])
    {
      var entry := state.Recent[i];
      var entryWire: Bytes := Tag(1, BYTES);
      entryWire := entryWire + LengthDelimited(entry.MessageID);
      entryWire := entryWire + (Tag(2, VARINT) + Varint(entry.Event));
      assert state.Recent[..i + 1][..i] == state.Recent[..i];
      wire := wire + (Tag(1, BYTES) + LengthDelimited(entryWire));
    }
    assert state.Recent[..|state.Recent|] == state.Recent;
    if state.Permitted {
      wire := wire + (Tag(2, VARINT) + Varint(1));
    }
    if state.PersistedPermitted {
      wire := wire + (Tag(3, VARINT) + Varint(1));
    }
  }

  // ---- reading

  /** Read the value of an entry's field after its tag: the entry with that field set, and
      the bytes left. */
  function EntryValue(entry: Entry, tag: TagOf, wire: Bytes): (r: Result<(Entry, Bytes), DecodeError>)
    ensures r.Ok? ==> |r.value.1| <= |wire|
  {
    if tag.number == 1 then
      if tag.wireType != BYTES then Err(WrongType(1, tag.wireType))
      else
        match ConsumeBytes(wire)
        case Bad(e) => Err(WireProblem(e))
        case Got(value, n) => Ok((entry.(MessageID := value), wire[n..]))
    else if tag.number == 2 then
      if tag.wireType != VARINT then Err(WrongType(2, tag.wireType))
      else
        match ConsumeVarint(wire)
        case Bad(e) => Err(WireProblem(e))
        case Got(value, n) => Ok((entry.(Event := value), wire[n..]))
    else
      match SkipValue(tag.number, tag.wireType, wire, RECURSION_LIMIT)
      case Bad(e) => Err(WireProblem(e))
      case Got(_, n) => Ok((entry, wire[n..]))
  }

  function EntryField(entry: Entry, wire: Bytes): (r: Result<(Entry, Bytes), DecodeError>)
    ensures r.Ok? ==> |r.value.1| < |wire|
  {
    match ConsumeTag(wire)
    case Bad(e) => Err(WireProblem(e))
    case Got(tag, n) => EntryValue(entry, tag, wire[n..])
  }

  function ParseEntry(entry: Entry, wire: Bytes): Result<Entry, DecodeError>
    decreases |wire|
  {
    if wire == [] then Ok(entry)
    else
      match EntryField(entry, wire)
      case Err(e) => Err(e)
      case Ok((next, rest)) => ParseEntry(next, rest)
  }

  method UnmarshalEntry(input: Bytes) returns (r: Result<Entry, DecodeError>)
    ensures r == ParseEntry(NO_ENTRY, input)
  {
    var wire, entry := input, NO_ENTRY;
    while |wire| > 0
      invariant ParseEntry(entry, wire) == ParseEntry(NO_ENTRY, input)
      decreases |wire|
    {
      var tag := ConsumeTag(wire);
      if tag.Bad? {
        return Err(WireProblem(tag.error));
      }
      ghost var was := EntryField(entry, wire);
      wire := wire[tag.length..];
      var number, wireType := tag.value.number, tag.value.wireType;
      match number {
        case 1 =>
          if wireType != BYTES {
            return Err(WrongType(1, wireType));
          }
          var value := ConsumeBytes(wire);
          if value.Bad? {
            return Err(WireProblem(value.error));
          }
          entry := entry.(MessageID := value.value);
          wire := wire[value.length..];
        case 2 =>
          if wireType != VARINT {
            return Err(WrongType(2, wireType));
          }
          var value := ConsumeVarint(wire);
          if value.Bad? {
            return Err(WireProblem(value.error));
          }
          entry := entry.(Event := value.value);
          wire := wire[value.length..];
        case _ =>
          var skipped := SkipValue(number, wireType, wire, RECURSION_LIMIT);
          if skipped.Bad? {
            return Err(WireProblem(skipped.error));
          }
          wire := wire[skipped.length..];
      }
      assert was == Ok((entry, wire));
    }
    r := Ok(entry);
  }

  function StateValue(state: State, tag: TagOf, wire: Bytes): (r: Result<(State, Bytes), DecodeError>)
    ensures r.Ok? ==> |r.value.1| <= |wire|
  {
    if tag.number == 1 then
      if tag.wireType != BYTES then Err(WrongType(1, tag.wireType))
      else
        match ConsumeBytes(wire)
        case Bad(e) => Err(WireProblem(e))
        case Got(entryWire, n) =>
          match ParseEntry(NO_ENTRY, entryWire)
          case Err(e) => Err(e)
          case Ok(entry) => Ok((state.(Recent := state.Recent + [entry]), wire[n..]))
    else if tag.number == 2 || tag.number == 3 then
      if tag.wireType != VARINT then Err(WrongType(tag.number, tag.wireType))
      else
        match ConsumeVarint(wire)
        case Bad(e) => Err(WireProblem(e))
        case Got(value, n) =>
          Ok((if tag.number == 2 then state.(Permitted := value != 0)
            else state.(PersistedPermitted := value != 0), wire[n..]))
    else
      match SkipValue(tag.number, tag.wireType, wire, RECURSION_LIMIT)
      case Bad(e) => Err(WireProblem(e))
      case Got(_, n) => Ok((state, wire[n..]))
  }

  function StateField(state: State, wire: Bytes): (r: Result<(State, Bytes), DecodeError>)
    ensures r.Ok? ==> |r.value.1| < |wire|
  {
    match ConsumeTag(wire)
    case Bad(e) => Err(WireProblem(e))
    case Got(tag, n) => StateValue(state, tag, wire[n..])
  }

  function ParseState(state: State, wire: Bytes): Result<State, DecodeError>
    decreases |wire|
  {
    if wire == [] then Ok(state)
    else
      match StateField(state, wire)
      case Err(e) => Err(e)
      case Ok((next, rest)) => ParseState(next, rest)
  }

  method UnmarshalState(input: Bytes) returns (r: Result<State, DecodeError>)
    ensures r == ParseState(EMPTY, input)
  {
    var wire, state := input, EMPTY;
    while |wire| > 0
      invariant ParseState(state, wire) == ParseState(EMPTY, input)
      decreases |wire|
    {
      var tag := ConsumeTag(wire);
      if tag.Bad? {
        return Err(WireProblem(tag.error));
      }
      ghost var was := StateField(state, wire);
      wire := wire[tag.length..];
      var number, wireType := tag.value.number, tag.value.wireType;
      if number == 1 {
        if wireType != BYTES {
          return Err(WrongType(1, wireType));
        }
        var entryWire := ConsumeBytes(wire);
        if entryWire.Bad? {
          return Err(WireProblem(entryWire.error));
        }
        var entry := UnmarshalEntry(entryWire.value);
        if entry.Err? {
          return Err(entry.error);
        }
        state := state.(Recent := state.Recent + [entry.value]);
        wire := wire[entryWire.length..];
      } else if number == 2 || number == 3 {
        if wireType != VARINT {
          return Err(WrongType(number, wireType));
        }
        var value := ConsumeVarint(wire);
        if value.Bad? {
          return Err(WireProblem(value.error));
        }
        if number == 2 {
          state := state.(Permitted := value.value != 0);
        } else {
          state := state.(PersistedPermitted := value.value != 0);
        }
        wire := wire[value.length..];
      } else {
        var skipped := SkipValue(number, wireType, wire, RECURSION_LIMIT);
        if skipped.Bad? {
          return Err(WireProblem(skipped.error));
        }
        wire := wire[skipped.length..];
      }
      assert was == Ok((state, wire));
    }
    r := Ok(state);
  }

  // ---- what follows a field does not change how it is read

  lemma EntryValueStable(entry: Entry, tag: TagOf, a: Bytes, b: Bytes)
    requires EntryValue(entry, tag, a).Ok?
    ensures EntryValue(entry, tag, a + b) ==
      Ok((EntryValue(entry, tag, a).value.0, EntryValue(entry, tag, a).value.1 + b))
  {
    if tag.number == 1 {
      BytesStable(a, b);
      DropConcat(a, b, ConsumeBytes(a).length);
    } else if tag.number == 2 {
      VarintStable(a, b);
      DropConcat(a, b, ConsumeVarint(a).length);
    } else {
      SkipValueStable(tag.number, tag.wireType, a, b, RECURSION_LIMIT);
      DropConcat(a, b, SkipValue(tag.number, tag.wireType, a, RECURSION_LIMIT).length);
    }
  }

  lemma EntryFieldStable(entry: Entry, a: Bytes, b: Bytes)
    requires EntryField(entry, a).Ok?
    ensures EntryField(entry, a + b) == Ok((EntryField(entry, a).value.0, EntryField(entry, a).value.1 + b))
  {
    TagStable(a, b);
    DropConcat(a, b, ConsumeTag(a).length);
    EntryValueStable(entry, ConsumeTag(a).value, a[ConsumeTag(a).length..], b);
  }

  lemma StateValueStable(state: State, tag: TagOf, a: Bytes, b: Bytes)
    requires StateValue(state, tag, a).Ok?
    ensures StateValue(state, tag, a + b) ==
      Ok((StateValue(state, tag, a).value.0, StateValue(state, tag, a).value.1 + b))
  {
    if tag.number == 1 {
      BytesStable(a, b);
      DropConcat(a, b, ConsumeBytes(a).length);
    } else if tag.number == 2 || tag.number == 3 {
      VarintStable(a, b);
      DropConcat(a, b, ConsumeVarint(a).length);
    } else {
      SkipValueStable(tag.number, tag.wireType, a, b, RECURSION_LIMIT);
      DropConcat(a, b, SkipValue(tag.number, tag.wireType, a, RECURSION_LIMIT).length);
    }
  }

  lemma StateFieldStable(state: State, a: Bytes, b: Bytes)
    requires StateField(state, a).Ok?
    ensures StateField(state, a + b) == Ok((StateField(state, a).value.0, StateField(state, a).value.1 + b))
  {
    TagStable(a, b);
    DropConcat(a, b, ConsumeTag(a).length);
    StateValueStable(state, ConsumeTag(a).value, a[ConsumeTag(a).length..], b);
  }

  lemma {:induction false} ParseEntryConcat(entry: Entry, a: Bytes, b: Bytes)
    requires ParseEntry(entry, a).Ok?
    ensures ParseEntry(entry, a + b) == ParseEntry(ParseEntry(entry, a).value, b)
    decreases |a|
  {
    if a == [] {
      assert a + b == b;
    } else {
      EntryFieldStable(entry, a, b);
      var (next, rest) := EntryField(entry, a).value;
      ParseEntryConcat(next, rest, b);
    }
  }

  /** Parsing a concatenation goes on from what the first part gave. */
  lemma {:induction false} ParseStateConcat(state: State, a: Bytes, b: Bytes)
    requires ParseState(state, a).Ok?
    ensures ParseState(state, a + b) == ParseState(ParseState(state, a).value, b)
    decreases |a|
  {
    if a == [] {
      assert a + b == b;
    } else {
      StateFieldStable(state, a, b);
      var (next, rest) := StateField(state, a).value;
      ParseStateConcat(next, rest, b);
    }
  }

  // ---- round trip

  lemma MessageIdField(entry: Entry, id: Bytes)
    requires |id| < 0x1_0000_0000_0000_0000
    ensures ParseEntry(entry, Tag(1, BYTES) + LengthDelimited(id)) == Ok(entry.(MessageID := id))
  {
    var rest := LengthDelimited(id);
    TagRoundTrip(1, BYTES, rest);
    DropConcat(Tag(1, BYTES), rest, |Tag(1, BYTES)|);
    BytesRoundTrip(id, []);
    assert rest + [] == rest;
  }

  lemma EventField(entry: Entry, event: nat)
    requires event < 0x1_0000_0000_0000_0000
    ensures ParseEntry(entry, Tag(2, VARINT) + Varint(event)) == Ok(entry.(Event := event))
  {
    TagRoundTrip(2, VARINT, Varint(event));
    DropConcat(Tag(2, VARINT), Varint(event), |Tag(2, VARINT)|);
    VarintRoundTrip(event, []);
    assert Varint(event) + [] == Varint(event);
  }

  lemma EntryRoundTrip(e: Entry)
    requires EntryFits(e)
    ensures ParseEntry(NO_ENTRY, EntryWire(e)) == Ok(e)
  {
    MessageIdField(NO_ENTRY, e.MessageID);
    EventField(Entry(e.MessageID, 0), e.Event);
    ParseEntryConcat(NO_ENTRY, Tag(1, BYTES) + LengthDelimited(e.MessageID), Tag(2, VARINT) + Varint(e.Event));
  }

  lemma RecentField(state: State, e: Entry)
    requires EntryFits(e)
    ensures ParseState(state, Tag(1, BYTES) + LengthDelimited(EntryWire(e))) == Ok(state.(Recent := state.Recent + [e]))
  {
    var rest := LengthDelimited(EntryWire(e));
    TagRoundTrip(1, BYTES, rest);
    DropConcat(Tag(1, BYTES), rest, |Tag(1, BYTES)|);
    BytesRoundTrip(EntryWire(e), []);
    assert rest + [] == rest;
    EntryRoundTrip(e);
  }

  lemma FlagField(state: State, number: nat, flag: bool)
    requires number == 2 || number == 3
    ensures ParseState(state, FlagWire(number, flag)) ==
            Ok(if !flag then state else if number == 2 then state.(Permitted := true)
              else state.(PersistedPermitted := true))
  {
    if flag {
      TagRoundTrip(number, VARINT, Varint(1));
      DropConcat(Tag(number, VARINT), Varint(1), |Tag(number, VARINT)|);
      VarintRoundTrip(1, []);
      assert Varint(1) + [] == Varint(1);
    }
  }

  lemma OneMoreEntry(wire: Bytes, before: seq<Entry>, e: Entry, longer: Bytes, entries: seq<Entry>)
    requires ParseState(EMPTY, wire) == Ok(State(before, false, false)) && EntryFits(e)
    requires longer == wire + (Tag(1, BYTES) + LengthDelimited(EntryWire(e))) && entries == before + [e]
    ensures ParseState(EMPTY, longer) == Ok(State(entries, false, false))
  {
    RecentField(State(before, false, false), e);
    ParseStateConcat(EMPTY, wire, Tag(1, BYTES) + LengthDelimited(EntryWire(e)));
  }

  lemma LastEntry(recent: seq<Entry>)
    requires recent != []
    ensures recent == recent[..|recent| - 1] + [recent[|recent| - 1]]
  {
  }

  lemma WireOfLast(recent: seq<Entry>)
    requires recent != []
    ensures RecentWire(recent) ==
      RecentWire(recent[..|recent| - 1]) + (Tag(1, BYTES) + LengthDelimited(EntryWire(recent[|recent| - 1])))
  {
  }

  lemma {:induction false} RecentRoundTrip(recent: seq<Entry>)
    requires forall i :: 0 <= i < |recent| ==> EntryFits(recent[i])
    ensures ParseState(EMPTY, RecentWire(recent)) == Ok(State(recent, false, false))
  {
    if recent != [] {
      var n := |recent| - 1;
      RecentRoundTrip(recent[..n]);
      LastEntry(recent);
      WireOfLast(recent);
      OneMoreEntry(RecentWire(recent[..n]), recent[..n], recent[n], RecentWire(recent), recent);
    }
  }

  /** Every state is read back from its TLV form. */
  lemma StateRoundTrip(s: State)
    requires Fits(s)
    ensures ParseState(EMPTY, StateWire(s)) == Ok(s)
  {
    RecentRoundTrip(s.Recent);
    FlagField(State(s.Recent, false, false), 2, s.Permitted);
    FlagField(State(s.Recent, s.Permitted, false), 3, s.PersistedPermitted);
    ParseStateConcat(EMPTY, RecentWire(s.Recent), FlagWire(2, s.Permitted));
    ParseStateConcat(EMPTY, RecentWire(s.Recent) + FlagWire(2, s.Permitted), FlagWire(3, s.PersistedPermitted));
  }

  /** A well-formed field with an unknown number changes nothing, wherever it stands. */
  lemma UnknownFieldIgnored(state: State, number: nat, wireType: nat, value: Bytes, rest: Bytes)
    requires 3 < number <= MAX_INT32 && wireType < 8
    requires SkipValue(number, wireType, value, RECURSION_LIMIT) == Got((), |value|)
    ensures ParseState(state, Tag(number, wireType) + value + rest) == ParseState(state, rest)
  {
    var field := Tag(number, wireType) + value;
    TagRoundTrip(number, wireType, value);
    DropConcat(Tag(number, wireType), value, |Tag(number, wireType)|);
    assert ParseState(state, field) == Ok(state);
    ParseStateConcat(state, field, rest);
  }

  /** The same inside an entry. */
  lemma UnknownEntryFieldIgnored(entry: Entry, number: nat, wireType: nat, value: Bytes, rest: Bytes)
    requires 2 < number <= MAX_INT32 && wireType < 8
    requires SkipValue(number, wireType, value, RECURSION_LIMIT) == Got((), |value|)
    ensures ParseEntry(entry, Tag(number, wireType) + value + rest) == ParseEntry(entry, rest)
  {
    var field := Tag(number, wireType) + value;
    TagRoundTrip(number, wireType, value);
    DropConcat(Tag(number, wireType), value, |Tag(number, wireType)|);
    assert ParseEntry(entry, field) == Ok(entry);
    ParseEntryConcat(entry, field, rest);
  }

  lemma EntryOverwrites(entry: Entry, e: Entry)
    requires EntryFits(e)
    ensures ParseEntry(entry, EntryWire(e)) == Ok(e)
  {
    MessageIdField(entry, e.MessageID);
    EventField(entry.(MessageID := e.MessageID), e.Event);
    ParseEntryConcat(entry, Tag(1, BYTES) + LengthDelimited(e.MessageID), Tag(2, VARINT) + Varint(e.Event));
  }

  /** Inside an entry the last occurrence of a field wins: whatever stands before, unknown fields
      included, an encoded entry behind it is what is read. */
  lemma LastEntryFieldsWin(entry: Entry, wire: Bytes, e: Entry)
    requires ParseEntry(entry, wire).Ok? && EntryFits(e)
    ensures ParseEntry(entry, wire + EntryWire(e)) == Ok(e)
  {
    ParseEntryConcat(entry, wire, EntryWire(e));
    EntryOverwrites(ParseEntry(entry, wire).value, e);
  }

  // ---- a concatenation of two encoded states

  /** A top-level field with this number occurs in the encoding. */
  ghost predicate Mentions(wire: Bytes, number: nat)
    decreases |wire|
  {
    && StateField(EMPTY, wire).Ok?
    && (ConsumeTag(wire).value.number == number || Mentions(StateField(EMPTY, wire).value.1, number))
  }

  /** r is what reading `wire` makes of s, given that it reads the entries es and leaves the
      booleans of t. */
  ghost predicate Overlaid(wire: Bytes, s: State, es: seq<Entry>, t: State, r: State) {
    && r.Recent == s.Recent + es
    && r.Permitted == (if Mentions(wire, 2) then t.Permitted else s.Permitted)
    && r.PersistedPermitted == (if Mentions(wire, 3) then t.PersistedPermitted else s.PersistedPermitted)
  }

  lemma {:induction false} ParseOverlays(s: State, wire: Bytes) returns (es: seq<Entry>)
    requires ParseState(EMPTY, wire).Ok?
    ensures ParseState(EMPTY, wire).value.Recent == es
    ensures ParseState(s, wire).Ok? && Overlaid(wire, s, es, ParseState(EMPTY, wire).value, ParseState(s, wire).value)
    decreases |wire|
  {
    var t;
    es, t := ParseOverlaysBoth(s, EMPTY, wire);
  }

  lemma {:induction false} ParseOverlaysBoth(s: State, u: State, wire: Bytes) returns (es: seq<Entry>, t: State)
    requires ParseState(u, wire).Ok?
    ensures ParseState(s, wire).Ok?
    ensures t == ParseState(u, wire).value
    ensures Overlaid(wire, s, es, t, ParseState(s, wire).value) && Overlaid(wire, u, es, t, t)
    decreases |wire|
  {
    if wire == [] {
      es, t := [], u;
    } else {
      var (un, rest) := StateField(u, wire).value;
      var added := FieldOverlays(s, u, wire);
      var (sn, _) := StateField(s, wire).value;
      var tail;
      tail, t := ParseOverlaysBoth(sn, un, rest);
      es := added + tail;
      OverlayStep(wire, rest, s, sn, un, added, tail, t, ParseState(sn, rest).value);
      OverlayStep(wire, rest, u, un, un, added, tail, t, t);
    }
  }

  lemma MentionsStep(wire: Bytes, rest: Bytes, number: nat)
    requires StateField(EMPTY, wire).Ok? && StateField(EMPTY, wire).value.1 == rest
    ensures Mentions(wire, number) <==> ConsumeTag(wire).value.number == number || Mentions(rest, number)
  {
  }

  lemma OverlayStep(wire: Bytes, rest: Bytes, s: State, sn: State, un: State, added: seq<Entry>, tail: seq<Entry>,
      t: State, r: State)
    requires StateField(EMPTY, wire).Ok? && StateField(EMPTY, wire).value.1 == rest
    requires sn.Recent == s.Recent + added
    requires var number := ConsumeTag(wire).value.number;
             && (if number == 2 then sn.Permitted == un.Permitted else sn.Permitted == s.Permitted)
             && (if number == 3 then sn.PersistedPermitted == un.PersistedPermitted
               else sn.PersistedPermitted == s.PersistedPermitted)
    requires Overlaid(rest, sn, tail, t, r)
    requires (!Mentions(rest, 2) ==> t.Permitted == un.Permitted) &&
      (!Mentions(rest, 3) ==> t.PersistedPermitted == un.PersistedPermitted)
    ensures Overlaid(wire, s, added + tail, t, r)
  {
    MentionsStep(wire, rest, 2);
    MentionsStep(wire, rest, 3);
    Associative(s.Recent, added, tail);
  }

  /** One field read into two states: the same entries, the same boolean, the same rest. */
  lemma FieldOverlays(s: State, u: State, wire: Bytes) returns (added: seq<Entry>)
    requires StateField(u, wire).Ok?
    ensures StateField(EMPTY, wire).Ok? && StateField(EMPTY, wire).value.1 == StateField(u, wire).value.1
    ensures StateField(s, wire).Ok? && StateField(s, wire).value.1 == StateField(u, wire).value.1
    ensures var (sn, un) := (StateField(s, wire).value.0, StateField(u, wire).value.0);
            var number := ConsumeTag(wire).value.number;
            && sn.Recent == s.Recent + added && un.Recent == u.Recent + added
            && (if number == 2 then sn.Permitted == un.Permitted
                else sn.Permitted == s.Permitted && un.Permitted == u.Permitted)
            && (if number == 3 then sn.PersistedPermitted == un.PersistedPermitted
                else sn.PersistedPermitted == s.PersistedPermitted && un.PersistedPermitted == u.PersistedPermitted)
  {
    var tag, rest := ConsumeTag(wire).value, wire[ConsumeTag(wire).length..];
    added := [];
    if tag.number == 1 {
      added := [ParseEntry(NO_ENTRY, ConsumeBytes(rest).value).value];
    }
  }

  /** Reading two encodings in a row appends their entries and lets the later boolean win. */
  lemma ConcatenationMerges(a: Bytes, b: Bytes, x: State, y: State)
    requires ParseState(EMPTY, a) == Ok(x) && ParseState(EMPTY, b) == Ok(y)
    ensures ParseState(EMPTY, a + b) ==
            Ok(State(x.Recent + y.Recent,
                     if Mentions(b, 2) then y.Permitted else x.Permitted,
                     if Mentions(b, 3) then y.PersistedPermitted else x.PersistedPermitted))
  {
    ParseStateConcat(EMPTY, a, b);
    var es := ParseOverlays(x, b);
  }
}
