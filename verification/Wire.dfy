/** The protobuf wire format as the protowire package writes and reads it (Protocol Buffers
    Encoding, sections "Base 128 Varints" and "Message Structure"). */
module Wire {

  type Byte = x: int | 0 <= x < 256 witness 0
  type Bytes = seq<Byte>

  datatype WireError = Truncated | Overflow | FieldNumber | RecursionDepth | EndGroup | Reserved

  /** A consumed value and how many bytes it took. */
  datatype Parsed<+T> = Got(value: T, length: nat) | Bad(error: WireError)

  const VARINT := 0
  const FIXED64 := 1
  const BYTES := 2
  const START_GROUP := 3
  const END_GROUP := 4
  const FIXED32 := 5
  const MAX_INT32: nat := 0x7fff_ffff
  const RECURSION_LIMIT := 10000

  // ---- varints

  function Varint(v: nat): (b: Bytes)
    ensures b != []
  {
    if v < 128 then [v] else [v % 128 + 128] + Varint(v / 128)
  }

  /** Values that fit when i bytes of the at most ten have been read. */
  function Room(i: nat): (r: nat)
    requires i <= 9
    ensures r >= 2
    decreases 9 - i
  {
    if i == 9 then 2 else 128 * Room(i + 1)
  }

  /** Read the groups of a varint from its i-th byte on. */
  function ConsumeGroups(b: Bytes, i: nat): (r: Parsed<nat>)
    requires i <= 9
    ensures r.Got? ==> 0 < r.length <= |b| && r.length <= 10 - i && r.value < Room(i)
    decreases 9 - i
  {
    if b == [] then Bad(Truncated)
    else if i == 9 then (if b[0] < 2 then Got(b[0], 1) else Bad(Overflow))
    else if b[0] < 128 then Got(b[0], 1)
    else
      match ConsumeGroups(b[1..], i + 1)
      case Bad(e) => Bad(e)
      case Got(v, n) => Got(b[0] - 128 + 128 * v, n + 1)
  }

  function ConsumeVarint(b: Bytes): (r: Parsed<nat>)
    ensures r.Got? ==> 0 < r.length <= |b| && r.length <= 10 && r.value < 0x1_0000_0000_0000_0000
  {
    RoomIs64Bits();
    ConsumeGroups(b, 0)
  }

  lemma RoomIs64Bits()
    ensures Room(0) == 0x1_0000_0000_0000_0000
  {
    assert Room(7) == 32768;
    assert Room(5) == 16384 * Room(7);
    assert Room(3) == 16384 * Room(5);
    assert Room(1) == 16384 * Room(3);
  }

  lemma VarintTail(v: nat, rest: Bytes)
    requires v >= 128
    ensures (Varint(v) + rest)[0] == v % 128 + 128 && (Varint(v) + rest)[1..] == Varint(v / 128) + rest
    ensures |Varint(v)| == 1 + |Varint(v / 128)|
  {
  }

  lemma {:induction false} GroupsRoundTrip(v: nat, rest: Bytes, i: nat)
    requires i <= 9 && v < Room(i)
    ensures ConsumeGroups(Varint(v) + rest, i) == Got(v, |Varint(v)|)
    decreases 9 - i
  {
    if v >= 128 {
      GroupsRoundTrip(v / 128, rest, i + 1);
      VarintTail(v, rest);
    }
  }

  /** Every 64-bit value is read back, whatever follows it. */
  lemma VarintRoundTrip(v: nat, rest: Bytes)
    requires v < 0x1_0000_0000_0000_0000
    ensures ConsumeVarint(Varint(v) + rest) == Got(v, |Varint(v)|)
  {
    RoomIs64Bits();
    GroupsRoundTrip(v, rest, 0);
  }

  lemma {:induction false} GroupsStable(a: Bytes, b: Bytes, i: nat)
    requires i <= 9 && ConsumeGroups(a, i).Got?
    ensures ConsumeGroups(a + b, i) == ConsumeGroups(a, i)
    decreases 9 - i
  {
    if i < 9 && a[0] >= 128 {
      assert (a + b)[1..] == a[1..] + b;
      GroupsStable(a[1..], b, i + 1);
    }
  }

  lemma VarintStable(a: Bytes, b: Bytes)
    requires ConsumeVarint(a).Got?
    ensures ConsumeVarint(a + b) == ConsumeVarint(a)
  {
    GroupsStable(a, b, 0);
  }

  // ---- tags

  datatype TagOf = TagOf(number: nat, wireType: nat)

  function Tag(number: nat, wireType: nat): Bytes
    requires wireType < 8
  {
    Varint(number * 8 + wireType)
  }

  function ConsumeTag(b: Bytes): (r: Parsed<TagOf>)
    ensures r.Got? ==> 0 < r.length <= |b|
  {
    match ConsumeVarint(b)
    case Bad(e) => Bad(e)
    case Got(x, n) =>
      if 1 <= x / 8 <= MAX_INT32 then Got(TagOf(x / 8, x % 8), n) else Bad(FieldNumber)
  }

  lemma TagRoundTrip(number: nat, wireType: nat, rest: Bytes)
    requires 1 <= number <= MAX_INT32 && wireType < 8
    ensures ConsumeTag(Tag(number, wireType) + rest) == Got(TagOf(number, wireType), |Tag(number, wireType)|)
  {
    VarintRoundTrip(number * 8 + wireType, rest);
  }

  lemma TagStable(a: Bytes, b: Bytes)
    requires ConsumeTag(a).Got?
    ensures ConsumeTag(a + b) == ConsumeTag(a)
  {
    VarintStable(a, b);
  }

  // ---- length-delimited values

  function LengthDelimited(value: Bytes): Bytes {
    Varint(|value|) + value
  }

  function ConsumeBytes(b: Bytes): (r: Parsed<Bytes>)
    ensures r.Got? ==> 0 < r.length <= |b|
  {
    match ConsumeVarint(b)
    case Bad(e) => Bad(e)
    case Got(m, n) => if m > |b| - n then Bad(Truncated) else Got(b[n..n + m], n + m)
  }

  lemma BytesRoundTrip(value: Bytes, rest: Bytes)
    requires |value| < 0x1_0000_0000_0000_0000
    ensures ConsumeBytes(LengthDelimited(value) + rest) == Got(value, |LengthDelimited(value)|)
  {
    var b, n := LengthDelimited(value) + rest, |Varint(|value|)|;
    assert b == Varint(|value|) + (value + rest);
    VarintRoundTrip(|value|, value + rest);
    assert b[n..n + |value|] == value;
  }

  lemma BytesStable(a: Bytes, b: Bytes)
    requires ConsumeBytes(a).Got?
    ensures ConsumeBytes(a + b) == ConsumeBytes(a)
  {
    VarintStable(a, b);
    var n, m := ConsumeVarint(a).length, ConsumeVarint(a).value;
    assert (a + b)[n..n + m] == a[n..n + m];
  }

  // ---- values of any type, to be skipped

  function SkipFixed(b: Bytes, n: nat): (r: Parsed<()>)
    ensures r.Got? ==> r.length <= |b|
  {
    if |b| < n then Bad(Truncated) else Got((), n)
  }

  function SkipValue(number: nat, wireType: nat, b: Bytes, depth: int): (r: Parsed<()>)
    ensures r.Got? ==> r.length <= |b|
    decreases |b|, 1
  {
    if wireType == VARINT then (match ConsumeVarint(b) case Bad(e) => Bad(e) case Got(_, n) => Got((), n))
    else if wireType == FIXED32 then SkipFixed(b, 4)
    else if wireType == FIXED64 then SkipFixed(b, 8)
    else if wireType == BYTES then (match ConsumeBytes(b) case Bad(e) => Bad(e) case Got(_, n) => Got((), n))
    else if wireType == START_GROUP then (if depth < 0 then Bad(RecursionDepth) else SkipGroup(number, b, depth))
    else if wireType == END_GROUP then Bad(EndGroup)
    else Bad(Reserved)
  }

  /** Skip the fields of a group up to and including its end tag. */
  function SkipGroup(number: nat, b: Bytes, depth: int): (r: Parsed<()>)
    ensures r.Got? ==> r.length <= |b|
    decreases |b|, 0
  {
    match ConsumeTag(b)
    case Bad(e) => Bad(e)
    case Got(tag, n) =>
      if tag.wireType == END_GROUP then (if tag.number == number then Got((), n) else Bad(EndGroup))
      else
        match SkipValue(tag.number, tag.wireType, b[n..], depth - 1)
        case Bad(e) => Bad(e)
        case Got(_, k) =>
          match SkipGroup(number, b[n..][k..], depth)
          case Bad(e) => Bad(e)
          case Got(_, l) => Got((), n + k + l)
  }

  lemma DropConcat(a: Bytes, b: Bytes, n: nat)
    requires n <= |a|
    ensures (a + b)[n..] == a[n..] + b
  {
  }

  lemma {:induction false} SkipValueStable(number: nat, wireType: nat, a: Bytes, b: Bytes, depth: int)
    requires SkipValue(number, wireType, a, depth).Got?
    ensures SkipValue(number, wireType, a + b, depth) == SkipValue(number, wireType, a, depth)
    decreases |a|, 1
  {
    if wireType == VARINT {
      VarintStable(a, b);
    } else if wireType == BYTES {
      BytesStable(a, b);
    } else if wireType == START_GROUP {
      SkipGroupStable(number, a, b, depth);
    }
  }

  lemma {:induction false} SkipGroupStable(number: nat, a: Bytes, b: Bytes, depth: int)
    requires SkipGroup(number, a, depth).Got?
    ensures SkipGroup(number, a + b, depth) == SkipGroup(number, a, depth)
    decreases |a|, 0
  {
    TagStable(a, b);
    var tag, n := ConsumeTag(a).value, ConsumeTag(a).length;
    if tag.wireType != END_GROUP {
      DropConcat(a, b, n);
      SkipValueStable(tag.number, tag.wireType, a[n..], b, depth - 1);
      var k := SkipValue(tag.number, tag.wireType, a[n..], depth - 1).length;
      DropConcat(a[n..], b, k);
      SkipGroupStable(number, a[n..][k..], b, depth);
    }
  }
}
