/** What the bytes of the wire format are (Protocol Buffers Encoding, sections "Base 128 Varints" and
    "Message Structure"), and what is skipped or refused. */
module WireBytes {
  import opened Strings
  import opened Wire
  import opened ReceiveWire

  // ---- varints

  /** Groups of seven bits, the least significant first. */
  function Weighted(b: Bytes): nat {
    if b == [] then 0 else b[0] % 128 + 128 * Weighted(b[1..])
  }

  /** All bytes but the last have the continuation bit. */
  predicate IsVarint(b: Bytes) {
    b != [] && b[|b| - 1] < 128 && forall i :: 0 <= i < |b| - 1 ==> b[i] >= 128
  }

  /** A number is written as the shortest varint of its groups. */
  lemma {:induction false} VarintForm(v: nat)
    ensures IsVarint(Varint(v)) && Weighted(Varint(v)) == v
    ensures |Varint(v)| > 1 ==> Varint(v)[|Varint(v)| - 1] != 0
  {
    if v >= 128 {
      VarintForm(v / 128);
    }
  }

  lemma PrefixStep(b: Bytes, n: nat)
    requires 1 < n <= |b|
    ensures IsVarint(b[..n]) <==> b[0] >= 128 && IsVarint(b[1..][..n - 1])
    ensures Weighted(b[..n]) == b[0] % 128 + 128 * Weighted(b[1..][..n - 1])
  {
    var p, q := b[..n], b[1..][..n - 1];
    assert p[1..] == q && p[0] == b[0];
    assert forall i :: 0 <= i < n - 1 ==> q[i] == p[i + 1];
    if IsVarint(q) && b[0] >= 128 {
      forall i | 0 <= i < n - 1 ensures p[i] >= 128 {
        assert i > 0 ==> p[i] == q[i - 1];
      }
    }
  }

  lemma PrefixOfOne(b: Bytes)
    requires b != []
    ensures IsVarint(b[..1]) <==> b[0] < 128
    ensures Weighted(b[..1]) == b[0] % 128
  {
    assert b[..1] == [b[0]] && b[..1][1..] == [];
  }

  lemma {:induction false} GroupsSound(b: Bytes, i: nat)
    requires i <= 9 && ConsumeGroups(b, i).Got?
    ensures var n := ConsumeGroups(b, i).length;
            && IsVarint(b[..n]) && ConsumeGroups(b, i).value == Weighted(b[..n]) && (n == 10 - i ==> b[n - 1] < 2)
    decreases 9 - i
  {
    PrefixOfOne(b);
    if i < 9 && b[0] >= 128 {
      GroupsSound(b[1..], i + 1);
      PrefixStep(b, ConsumeGroups(b, i).length);
    }
  }

  lemma {:induction false} GroupsComplete(b: Bytes, i: nat, n: nat)
    requires i <= 9 && 0 < n <= |b| && n <= 10 - i && IsVarint(b[..n]) && (n == 10 - i ==> b[n - 1] < 2)
    ensures ConsumeGroups(b, i) == Got(Weighted(b[..n]), n)
    decreases n
  {
    if n == 1 {
      PrefixOfOne(b);
    } else {
      PrefixStep(b, n);
      GroupsComplete(b[1..], i + 1, n - 1);
    }
  }

  /** What is read as a number: at most ten bytes, the value of their groups, and no more than 64
      bits of it. */
  lemma ConsumeVarintIff(b: Bytes, v: nat, n: nat)
    ensures ConsumeVarint(b) == Got(v, n) <==>
            0 < n <= |b| && n <= 10 && IsVarint(b[..n]) && v == Weighted(b[..n]) && (n == 10 ==> b[9] < 2)
  {
    if ConsumeVarint(b).Got? {
      GroupsSound(b, 0);
    }
    if 0 < n <= |b| && n <= 10 && IsVarint(b[..n]) && (n == 10 ==> b[9] < 2) {
      GroupsComplete(b, 0, n);
    }
  }

  lemma {:induction false} GroupsRefused(b: Bytes, i: nat)
    requires i <= 9
    requires forall k :: 0 <= k < |b| && k < 10 - i ==> b[k] >= 128
    ensures ConsumeGroups(b, i) == Bad(if |b| < 10 - i then Truncated else Overflow)
    decreases 9 - i
  {
    if b != [] && i < 9 {
      assert forall k :: 0 <= k < |b[1..]| && k < 9 - i ==> b[1..][k] == b[k + 1];
      GroupsRefused(b[1..], i + 1);
    }
  }

  /** Bytes that do not end, or not within ten bytes, are refused. */
  lemma EndlessVarint(b: Bytes)
    requires forall k :: 0 <= k < |b| && k < 10 ==> b[k] >= 128
    ensures ConsumeVarint(b) == Bad(if |b| < 10 then Truncated else Overflow)
  {
    GroupsRefused(b, 0);
  }

  // ---- tags

  /** A tag is the varint of its field number, followed by three bits for the type. */
  lemma TagForm(number: nat, wireType: nat)
    requires wireType < 8
    ensures IsVarint(Tag(number, wireType)) && Weighted(Tag(number, wireType)) == 8 * number + wireType
  {
    VarintForm(number * 8 + wireType);
  }

  /** Message ID "a" as a normal event, in a permitted state that is not stored yet, byte by byte. */
  lemma StateBytes()
    ensures StateWire(State([Entry([0x61], 1)], true, false)) == [0x0A, 5, 0x0A, 1, 0x61, 0x10, 1, 0x10, 1]
    ensures StateWire(State([], false, true)) == [0x18, 1]
  {
    var e := Entry([0x61], 1);
    assert EntryWire(e) == [0x0A, 1, 0x61, 0x10, 1];
    assert RecentWire([]) == [] && [e][..0] == [];
    assert RecentWire([e]) == [] + (Tag(1, BYTES) + LengthDelimited(EntryWire(e))) == [0x0A, 5, 0x0A, 1, 0x61, 0x10, 1];
    assert RecentWire([]) + FlagWire(2, false) + FlagWire(3, true) == [0x18, 1];
  }

  // ---- known fields

  /** A known field of another type is refused, in a state as in an entry. */
  lemma WrongTypeRefused(state: State, entry: Entry, number: nat, wireType: nat, rest: Bytes)
    requires 1 <= number <= 3 && wireType < 8
    ensures wireType != (if number == 1 then 2 else 0) ==>
      ParseState(state, Tag(number, wireType) + rest) == Err(WrongType(number, wireType))
    ensures number < 3 && wireType != (if number == 1 then 2 else 0) ==>
      ParseEntry(entry, Tag(number, wireType) + rest) == Err(WrongType(number, wireType))
  {
    TagRoundTrip(number, wireType, rest);
  }

  /** A boolean field may have any number: all but zero are true. */
  lemma BooleanField(state: State, v: nat, rest: Bytes)
    requires v < 0x1_0000_0000_0000_0000
    ensures ParseState(state, Tag(2, VARINT) + Varint(v) + rest) == ParseState(state.(Permitted := v != 0), rest)
    ensures ParseState(state, Tag(3, VARINT) + Varint(v) + rest) ==
            ParseState(state.(PersistedPermitted := v != 0), rest)
  {
    BooleanOf(state, 2, v, rest);
    BooleanOf(state, 3, v, rest);
  }

  lemma BooleanOf(state: State, number: nat, v: nat, rest: Bytes)
    requires v < 0x1_0000_0000_0000_0000 && 2 <= number <= 3
    ensures ParseState(state, Tag(number, VARINT) + Varint(v) + rest) ==
            ParseState(if number == 2 then state.(Permitted := v != 0) else state.(PersistedPermitted := v != 0), rest)
  {
    var t := Tag(number, VARINT);
    Associative(t, Varint(v), rest);
    TagRoundTrip(number, VARINT, Varint(v) + rest);
    DropConcat(t, Varint(v) + rest, |t|);
    VarintRoundTrip(v, rest);
    DropConcat(Varint(v), rest, |Varint(v)|);
  }

  // ---- values of fields that are not known

  datatype Value =
    | Number(v: nat)
    | Four(bytes: Bytes)
    | Eight(bytes: Bytes)
    | Text(bytes: Bytes)
    | Group(fields: Fields)

  datatype Fields = End | More(number: nat, value: Value, rest: Fields)

  function TypeOf(value: Value): (t: nat)
    ensures t < 8 && t != END_GROUP
  {
    match value
    case Number(_) => 0
    case Eight(_) => 1
    case Text(_) => 2
    case Group(_) => 3
    case Four(_) => 5
  }

  /** The bytes of a value behind its tag; a group ends with its own end tag. */
  function ValueWire(number: nat, value: Value): Bytes
    decreases value
  {
    match value
    case Number(v) => Varint(v)
    case Four(bytes) => bytes
    case Eight(bytes) => bytes
    case Text(bytes) => Varint(|bytes|) + bytes
    case Group(fields) => FieldsWire(fields) + Tag(number, 4)
  }

  function FieldsWire(fields: Fields): Bytes
    decreases fields
  {
    match fields
    case End => []
    case More(number, value, rest) =>
      (Tag(number, TypeOf(value)) + ValueWire(number, value)) + FieldsWire(rest)
  }

  predicate WellFormed(value: Value) {
    match value
    case Number(v) => v < 0x1_0000_0000_0000_0000
    case Four(bytes) => |bytes| == 4
    case Eight(bytes) => |bytes| == 8
    case Text(bytes) => |bytes| < 0x1_0000_0000_0000_0000
    case Group(fields) => WellFormedFields(fields)
  }

  predicate WellFormedFields(fields: Fields) {
    match fields
    case End => true
    case More(number, value, rest) => 1 <= number <= MAX_INT32 && WellFormed(value) && WellFormedFields(rest)
  }

  /** How deep groups are nested. */
  function Nesting(value: Value): nat {
    match value
    case Group(fields) => 1 + FieldsNesting(fields)
    case _ => 0
  }

  function FieldsNesting(fields: Fields): nat {
    match fields
    case End => 0
    case More(_, value, rest) =>
      if Nesting(value) > FieldsNesting(rest) then Nesting(value) else FieldsNesting(rest)
  }

  lemma SkipText(number: nat, bytes: Bytes, rest: Bytes, depth: int)
    requires |bytes| < 0x1_0000_0000_0000_0000
    ensures SkipValue(number, 2, Varint(|bytes|) + bytes + rest, depth) == Got((), |Varint(|bytes|) + bytes|)
  {
    BytesRoundTrip(bytes, rest);
  }

  /** A well-formed value is skipped as a whole if its groups are not nested too deeply, and refused
      otherwise. */
  lemma {:induction false} ValueSkipped(number: nat, value: Value, rest: Bytes, depth: int)
    requires 1 <= number <= MAX_INT32 && WellFormed(value) && depth >= -1
    ensures SkipValue(number, TypeOf(value), ValueWire(number, value) + rest, depth) ==
            if Nesting(value) <= depth + 1 then Got((), |ValueWire(number, value)|) else Bad(RecursionDepth)
    decreases value, 1
  {
    match value
    case Number(v) =>
      VarintRoundTrip(v, rest);
    case Four(bytes) =>
    case Eight(bytes) =>
    case Text(bytes) =>
      SkipText(number, bytes, rest, depth);
    case Group(fields) =>
      if depth >= 0 {
        Associative(FieldsWire(fields), Tag(number, 4), rest);
        FieldsSkipped(number, fields, rest, depth);
      }
  }

  lemma {:induction false} FieldsSkipped(number: nat, fields: Fields, rest: Bytes, depth: int)
    requires 1 <= number <= MAX_INT32 && WellFormedFields(fields) && depth >= 0
    ensures SkipGroup(number, FieldsWire(fields) + (Tag(number, 4) + rest), depth) ==
            if FieldsNesting(fields) <= depth then Got((), |FieldsWire(fields)| + |Tag(number, 4)|)
            else Bad(RecursionDepth)
    decreases fields, 0
  {
    match fields
    case End =>
      TagRoundTrip(number, 4, rest);
      assert [] + (Tag(number, 4) + rest) == Tag(number, 4) + rest;
    case More(n, value, later) =>
      var behind := FieldsWire(later) + (Tag(number, 4) + rest);
      ValueSkipped(n, value, behind, depth - 1);
      FieldsSkipped(number, later, rest, depth);
      FieldStep(number, n, value, behind, depth);
      Associative(Tag(n, TypeOf(value)) + ValueWire(n, value), FieldsWire(later), Tag(number, 4) + rest);
  }

  lemma FieldStep(number: nat, n: nat, value: Value, behind: Bytes, depth: int)
    requires 1 <= n <= MAX_INT32
    ensures var skipped := SkipValue(n, TypeOf(value), ValueWire(n, value) + behind, depth - 1);
            var all := Tag(n, TypeOf(value)) + ValueWire(n, value) + behind;
            && (skipped.Bad? ==> SkipGroup(number, all, depth) == Bad(skipped.error))
            && (skipped == Got((), |ValueWire(n, value)|) ==>
                  SkipGroup(number, all, depth) ==
                  match SkipGroup(number, behind, depth)
                  case Bad(e) => Bad(e)
                  case Got(_, l) => Got((), |Tag(n, TypeOf(value))| + |ValueWire(n, value)| + l))
  {
    GroupOfField(number, n, TypeOf(value), ValueWire(n, value), behind, depth);
  }

  lemma DropTwo(t: Bytes, w: Bytes, behind: Bytes)
    ensures t + w + behind == t + (w + behind)
    ensures (t + w + behind)[|t|..] == w + behind && (w + behind)[|w|..] == behind
  {
  }

  lemma GroupOfField(number: nat, n: nat, wireType: nat, w: Bytes, behind: Bytes, depth: int)
    requires 1 <= n <= MAX_INT32 && wireType < 8 && wireType != END_GROUP
    ensures var skipped, all := SkipValue(n, wireType, w + behind, depth - 1), Tag(n, wireType) + w + behind;
            && (skipped.Bad? ==> SkipGroup(number, all, depth) == Bad(skipped.error))
            && (skipped == Got((), |w|) ==>
                  SkipGroup(number, all, depth) ==
                  match SkipGroup(number, behind, depth)
                  case Bad(e) => Bad(e)
                  case Got(_, l) => Got((), |Tag(n, wireType)| + |w| + l))
  {
    DropTwo(Tag(n, wireType), w, behind);
    TagRoundTrip(n, wireType, w + behind);
  }

  /** So a well-formed field that is not known changes nothing, unless its groups are nested more
      than ten thousand deep and one. */
  lemma UnknownValueIgnored(state: State, number: nat, value: Value, rest: Bytes)
    requires 3 < number <= MAX_INT32 && WellFormed(value) && Nesting(value) <= 10001
    ensures ParseState(state, Tag(number, TypeOf(value)) + ValueWire(number, value) + rest) == ParseState(state, rest)
  {
    ValueSkipped(number, value, [], RECURSION_LIMIT);
    assert ValueWire(number, value) + [] == ValueWire(number, value);
    UnknownFieldIgnored(state, number, TypeOf(value), ValueWire(number, value), rest);
  }

  lemma UnknownEntryValueIgnored(entry: Entry, number: nat, value: Value, rest: Bytes)
    requires 2 < number <= MAX_INT32 && WellFormed(value) && Nesting(value) <= 10001
    ensures ParseEntry(entry, Tag(number, TypeOf(value)) + ValueWire(number, value) + rest) == ParseEntry(entry, rest)
  {
    ValueSkipped(number, value, [], RECURSION_LIMIT);
    assert ValueWire(number, value) + [] == ValueWire(number, value);
    UnknownEntryFieldIgnored(entry, number, TypeOf(value), ValueWire(number, value), rest);
  }
}
