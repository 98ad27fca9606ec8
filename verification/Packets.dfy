/** SystemView packets: how the target lays them out and how a host takes a byte stream apart again. */
module Packets {
  import opened Bytes
  import opened Codec

  /** An event as it is handed to _SendPacket: its id and its encoded parameters. */
  datatype Event = Event(id: u32, payload: seq<byte>)

  /** A packet as the host sees it: an event and the time since the packet before. */
  datatype Packet = Packet(event: Event, delta: nat)

  // Parameters ----------------------------------------------------------------------------------

  datatype Field = Num(v: u32) | Text(text: seq<byte>, limit: nat)
  datatype Kind = NumKind | TextKind
  datatype Value = Number(v: nat) | Chars(text: seq<byte>)

  function KindOf(f: Field): Kind {
    if f.Num? then NumKind else TextKind
  }

  function EncodeField(f: Field): seq<byte> {
    match f
    case Num(v) => EncodeU32(v)
    case Text(text, limit) => EncodeStr(text, limit)
  }

  function EncodeFields(fields: seq<Field>): seq<byte> {
    if fields == [] then [] else EncodeField(fields[0]) + EncodeFields(fields[1..])
  }

  function Kinds(fields: seq<Field>): (r: seq<Kind>)
    ensures |r| == |fields|
  {
    if fields == [] then [] else [KindOf(fields[0])] + Kinds(fields[1..])
  }

  /** What the host should get to know about the parameters: strings are cut to their limit. */
  function ValueOf(f: Field): Value {
    match f
    case Num(v) => Number(v)
    case Text(text, limit) => Chars(text[..Min(|text|, limit)])
  }

  function Values(fields: seq<Field>): seq<Value> {
    if fields == [] then [] else [ValueOf(fields[0])] + Values(fields[1..])
  }

  function ParseField(kind: Kind, s: seq<byte>): Decoded<Value> {
    match kind
    case NumKind => (match DecodeU32(s) case Short => Short case Got(v, rest) => Got(Number(v), rest))
    case TextKind => (match DecodeStr(s) case Short => Short case Got(t, rest) => Got(Chars(t), rest))
  }

  function ParseFields(kinds: seq<Kind>, s: seq<byte>): Decoded<seq<Value>> {
    if kinds == [] then Got([], s)
    else match ParseField(kinds[0], s)
      case Short => Short
      case Got(v, rest) =>
        match ParseFields(kinds[1..], rest)
        case Short => Short
        case Got(vs, rest') => Got([v] + vs, rest')
  }

  predicate Readable(fields: seq<Field>) {
    forall f :: f in fields && f.Text? ==> Min(|f.text|, f.limit) <= 65535
  }

  lemma FieldRoundTrip(f: Field, rest: seq<byte>)
    requires f.Text? ==> Min(|f.text|, f.limit) <= 65535
    ensures ParseField(KindOf(f), EncodeField(f) + rest) == Got(ValueOf(f), rest)
  {
    match f {
      case Num(v) => U32RoundTrip(v, rest);
      case Text(text, limit) => StrRoundTripExactly(text, limit, rest);
    }
  }

  lemma {:induction false} FieldsRoundTrip(fields: seq<Field>, rest: seq<byte>)
    requires Readable(fields)
    ensures ParseFields(Kinds(fields), EncodeFields(fields) + rest) == Got(Values(fields), rest)
  {
    if fields == [] {
      assert EncodeFields(fields) + rest == rest;
    } else {
      var tail := EncodeFields(fields[1..]) + rest;
      assert EncodeFields(fields) + rest == EncodeField(fields[0]) + tail;
      FieldRoundTrip(fields[0], tail);
      hide EncodeField, ParseField;
      FieldsRoundTrip(fields[1..], rest);
    }
  }

  lemma {:induction false} ParseFieldsExtends(kinds: seq<Kind>, s: seq<byte>, more: seq<byte>)
    requires ParseFields(kinds, s).Got?
    ensures ParseFields(kinds, s + more) == Got(ParseFields(kinds, s).value, ParseFields(kinds, s).rest + more)
    ensures var rest := ParseFields(kinds, s).rest;
      |rest| <= |s| && s == s[..|s| - |rest|] + rest
  {
    hide DecodeU32, DecodeStr;
    if kinds != [] {
      match kinds[0] {
        case NumKind => DecodeU32Extends(s, more);
        case TextKind => DecodeStrExtends(s, more);
      }
      ParseFieldsExtends(kinds[1..], ParseField(kinds[0], s).rest, more);
    }
  }

  const MAX_PACKET_SIZE: nat := 227

  /** An upper bound on the encoded size of fields. */
  function Bound(fields: seq<Field>): nat {
    if fields == [] then 0
    else (match fields[0] case Num(_) => QUANTA_U32 case Text(_, limit) => limit + 3) + Bound(fields[1..])
  }

  lemma {:induction false} FieldsBound(fields: seq<Field>)
    ensures |EncodeFields(fields)| <= Bound(fields)
  {
    if fields != [] {
      if fields[0].Num? {
        U32Length(fields[0].v);
      }
      FieldsBound(fields[1..]);
    }
  }

  lemma {:induction false} NumbersBound(fields: seq<Field>)
    requires forall f :: f in fields ==> f.Num?
    ensures |EncodeFields(fields)| <= QUANTA_U32 * |fields|
  {
    if fields != [] {
      assert fields[0] in fields;
      U32Length(fields[0].v);
      NumbersBound(fields[1..]);
    }
  }

  /** Append one parameter to the payload being built in p. */
  method PutField(p: array<byte>, at: nat, f: Field) returns (next: nat)
    requires at + |EncodeField(f)| <= p.Length && at + QUANTA_U32 <= p.Length
    modifies p
    ensures next == at + |EncodeField(f)|
    ensures p[..next] == old(p[..at]) + EncodeField(f)
  {
    match f {
      case Num(v) => next := PutU32(p, at, v);
      case Text(text, limit) => next := PutStr(p, at, text, limit);
    }
  }

  lemma {:induction false} EncodeFieldsAppend(fields: seq<Field>, f: Field)
    ensures EncodeFields(fields + [f]) == EncodeFields(fields) + EncodeField(f)
  {
    if fields == [] {
      assert fields + [f] == [f];
    } else {
      assert (fields + [f])[1..] == fields[1..] + [f];
      EncodeFieldsAppend(fields[1..], f);
    }
  }

  lemma {:induction false} EncodeFieldsPrefix(fields: seq<Field>, k: nat)
    requires k < |fields|
    ensures EncodeFields(fields[..k + 1]) == EncodeFields(fields[..k]) + EncodeField(fields[k])
    ensures |EncodeFields(fields[..k])| + |EncodeField(fields[k])| <= |EncodeFields(fields)|
  {
    hide EncodeField, EncodeFields;
    assert fields[..k + 1] == fields[..k] + [fields[k]];
    EncodeFieldsAppend(fields[..k], fields[k]);
    EncodedPartIsShorter(fields[..k + 1], fields[k + 1..]);
    assert fields[..k + 1] + fields[k + 1..] == fields;
  }

  lemma {:induction false} EncodedPartIsShorter(a: seq<Field>, b: seq<Field>)
    ensures |EncodeFields(a)| <= |EncodeFields(a + b)|
  {
    if a != [] {
      assert (a + b)[1..] == a[1..] + b;
      EncodedPartIsShorter(a[1..], b);
    }
  }

  /** One call of a recording function: an event id and its parameters. */
  datatype AnyRecording = AnyRecording(id: u32, fields: seq<Field>)

  /** The calls whose packet fits the static packet buffer: 4 bytes in front for the header,
      5 bytes behind for the time. */
  type Recording = r: AnyRecording | 4 + |EncodeFields(r.fields)| + 5 <= MAX_PACKET_SIZE
    witness AnyRecording(0, [])

  function EventOf(r: AnyRecording): Event {
    Event(r.id, EncodeFields(r.fields))
  }

  // Packets -------------------------------------------------------------------------------------

  const FIRST_WITH_LENGTH: nat := 24
  const EVTID_OVERFLOW: u32 := 1

  /** Parameters of the events with a fixed layout. Id 0 is a dummy byte and id 23 is not used. */
  function Schema(id: nat): Option<seq<Kind>> {
    match id
    case 1 | 2 | 4 | 6 | 8 | 12 | 15 | 16 | 19 => Some([NumKind])
    case 3 | 5 | 10 | 11 | 17 | 18 | 20 => Some([])
    case 7 | 13 => Some([NumKind, NumKind])
    case 9 | 22 => Some([NumKind, NumKind, TextKind])
    case 14 => Some([TextKind])
    case 21 => Some([NumKind, NumKind, NumKind, NumKind])
    case _ => None
  }

  /** The events a host can take apart: fixed layouts are kept to, other ids and lengths have 14 bits. */
  predicate Conforms(e: Event) {
    if e.id < FIRST_WITH_LENGTH then
      Schema(e.id).Some? && var r := ParseFields(Schema(e.id).value, e.payload); r.Got? && r.rest == []
    else
      e.id < 0x4000 && |e.payload| < 0x4000
  }

  /** One number written backwards into the header reserve, in at most two bytes. */
  function Backfill(v: nat): (r: seq<byte>)
    ensures 1 <= |r| <= 2
  {
    if v > 127 then [v % 128 + 128, v / 128 % 256] else [v]
  }

  /** What is put in front of the payload. */
  function Header(id: nat, len: nat): (r: seq<byte>)
    ensures |r| <= 4
  {
    if id < FIRST_WITH_LENGTH then [id] else Backfill(id) + Backfill(len)
  }

  /** A packet as it is stored in the ring. */
  function PacketBytes(e: Event, delta: nat): (r: seq<byte>)
    ensures 2 <= |r|
  {
    Header(e.id, |e.payload|) + e.payload + EncodeU32(delta)
  }

  lemma BackfillExactly(v: nat)
    ensures Backfill(v) == EncodeU32(v) <==> v < 0x4000
    ensures 0x4000 <= v ==> |Backfill(v)| < |EncodeU32(v)|
  {
    if 127 < v {
      assert EncodeU32(v) == [v % 128 + 128] + EncodeU32(v / 128);
      if 0x4000 <= v {
        assert EncodeU32(v / 128) == [v / 128 % 128 + 128] + EncodeU32(v / 128 / 128);
      }
    }
  }

  /** The 4-byte reserve holds the id and the length a host can read back exactly within 14 bits. */
  lemma HeaderExactly(id: nat, len: nat)
    requires FIRST_WITH_LENGTH <= id
    ensures Header(id, len) == EncodeU32(id) + EncodeU32(len) <==> id < 0x4000 && len < 0x4000
  {
    BackfillExactly(id);
    BackfillExactly(len);
  }

  /** A packet is id and payload, with the length between them for ids from 24 on, and then the time since the
      packet before. */
  lemma PacketLayout(e: Event, delta: nat)
    ensures e.id < 24 ==> PacketBytes(e, delta) == [e.id] + e.payload + EncodeU32(delta)
    ensures 24 <= e.id < 0x4000 && |e.payload| < 0x4000 ==>
      PacketBytes(e, delta) == EncodeU32(e.id) + EncodeU32(|e.payload|) + e.payload + EncodeU32(delta)
  {
    if 24 <= e.id {
      HeaderExactly(e.id, |e.payload|);
    }
  }

  /** Ten zero bytes. */
  lemma SyncBytes()
    ensures |SYNC| == 10 && forall x :: x in SYNC ==> x == 0
  {
  }

  /** Something the host finds at the front of the stream. */
  datatype Item = Dummy | Whole(packet: Packet)

  function ParseItem(s: seq<byte>): Decoded<Item> {
    if s == [] then Short
    else if s[0] == 0 then Got(Dummy, s[1..])
    else match DecodeU32(s)
      case Short => Short
      case Got(id, r1) => ParseBody(id, r1)
  }

  function ParseBody(id: nat, r1: seq<byte>): Decoded<Item> {
    if id < FIRST_WITH_LENGTH then
      match Schema(id)
      case None => Short
      case Some(kinds) =>
        match ParseFields(kinds, r1)
        case Short => Short
        case Got(_, r2) => if |r1| < |r2| then Short else ParseDelta(id, r1[..|r1| - |r2|], r2)
    else if id >= TWO32 then Short
    else match DecodeU32(r1)
      case Short => Short
      case Got(len, r2) =>
        match Take(r2, len)
        case Short => Short
        case Got(payload, r3) => ParseDelta(id, payload, r3)
  }

  function ParseDelta(id: u32, payload: seq<byte>, s: seq<byte>): Decoded<Item> {
    match DecodeU32(s)
    case Short => Short
    case Got(delta, rest) => Got(Whole(Packet(Event(id, payload), delta)), rest)
  }

  lemma IdIsNotZero(e: Event)
    requires Conforms(e)
    ensures e.id != 0
  {
  }

  lemma ShortFormRoundTrip(e: Event, delta: nat, rest: seq<byte>)
    requires Conforms(e) && e.id < FIRST_WITH_LENGTH
    ensures ParseItem(PacketBytes(e, delta) + rest) == Got(Whole(Packet(e, delta)), rest)
  {
    hide Schema, EncodeU32;
    var tail := EncodeU32(delta) + rest;
    var s := PacketBytes(e, delta) + rest;
    assert s[0] == e.id && s[1..] == e.payload + tail;
    assert DecodeU32(s) == Got(e.id as int, e.payload + tail);
    hide DecodeU32;
    IdIsNotZero(e);
    var kinds := Schema(e.id).value;
    ParseFieldsExtends(kinds, e.payload, tail);
    assert [] + tail == tail;
    assert ParseFields(kinds, e.payload + tail).rest == tail;
    assert (e.payload + tail)[..|e.payload|] == e.payload;
    U32RoundTrip(delta, rest);
  }

  lemma LongFormRoundTrip(e: Event, delta: nat, rest: seq<byte>)
    requires Conforms(e) && FIRST_WITH_LENGTH <= e.id
    ensures ParseItem(PacketBytes(e, delta) + rest) == Got(Whole(Packet(e, delta)), rest)
  {
    var tail := EncodeU32(delta) + rest;
    var body := EncodeU32(|e.payload|) + (e.payload + tail);
    HeaderExactly(e.id, |e.payload|);
    assert EncodeU32(e.id)[0] != 0;
    hide EncodeU32, DecodeU32, Header;
    assert PacketBytes(e, delta) + rest == EncodeU32(e.id) + body;
    assert (EncodeU32(e.id) + body)[0] == EncodeU32(e.id)[0];
    U32RoundTrip(e.id, body);
    LongBodyRoundTrip(e, delta, rest);
  }

  lemma LongBodyRoundTrip(e: Event, delta: nat, rest: seq<byte>)
    requires Conforms(e) && FIRST_WITH_LENGTH <= e.id
    ensures ParseBody(e.id, EncodeU32(|e.payload|) + (e.payload + (EncodeU32(delta) + rest)))
      == Got(Whole(Packet(e, delta)), rest)
  {
    hide EncodeU32, DecodeU32;
    var tail := EncodeU32(delta) + rest;
    U32RoundTrip(|e.payload|, e.payload + tail);
    assert (e.payload + tail)[..|e.payload|] == e.payload && (e.payload + tail)[|e.payload|..] == tail;
    U32RoundTrip(delta, rest);
  }

  /** What the target lays out the host takes apart. */
  lemma PacketRoundTrip(e: Event, delta: nat, rest: seq<byte>)
    requires Conforms(e)
    ensures ParseItem(PacketBytes(e, delta) + rest) == Got(Whole(Packet(e, delta)), rest)
  {
    if e.id < FIRST_WITH_LENGTH {
      ShortFormRoundTrip(e, delta, rest);
    } else {
      LongFormRoundTrip(e, delta, rest);
    }
  }

  lemma ParseItemExtends(s: seq<byte>, more: seq<byte>)
    requires ParseItem(s).Got?
    ensures ParseItem(s + more) == Got(ParseItem(s).value, ParseItem(s).rest + more)
    ensures |ParseItem(s).rest| < |s|
  {
    assert (s + more)[1..] == s[1..] + more;
    if s[0] != 0 {
      DecodeU32Extends(s, more);
      ParseBodyExtends(DecodeU32(s).value, DecodeU32(s).rest, more);
    }
  }

  lemma ParseBodyExtends(id: nat, s: seq<byte>, more: seq<byte>)
    requires ParseBody(id, s).Got?
    ensures ParseBody(id, s + more) == Got(ParseBody(id, s).value, ParseBody(id, s).rest + more)
    ensures |ParseBody(id, s).rest| < |s|
  {
    hide Schema, DecodeU32, ParseFields;
    if id < FIRST_WITH_LENGTH {
      ParseFieldsExtends(Schema(id).value, s, more);
      var r2 := ParseFields(Schema(id).value, s).rest;
      assert (s + more)[..|s| - |r2|] == s[..|s| - |r2|];
      DecodeU32Extends(r2, more);
    } else {
      DecodeU32Extends(s, more);
      var len, r2 := DecodeU32(s).value, DecodeU32(s).rest;
      TakeExtends(r2, more, len);
      DecodeU32Extends(r2[len..], more);
    }
  }

  lemma ParseFieldShrinks(kind: Kind, a: seq<byte>, b: seq<byte>)
    requires ParseField(kind, a + b).Got? && |b| <= |ParseField(kind, a + b).rest|
    ensures var v, rest := ParseField(kind, a + b).value, ParseField(kind, a + b).rest;
      rest == rest[..|rest| - |b|] + b && ParseField(kind, a) == Got(v, rest[..|rest| - |b|])
  {
    match kind {
      case NumKind => DecodeU32Shrinks(a, b);
      case TextKind => DecodeStrShrinks(a, b);
    }
  }

  /** Parameters that are taken from the front of a stream are there without the rest of the stream. */
  lemma {:induction false} ParseFieldsShrinks(kinds: seq<Kind>, a: seq<byte>, b: seq<byte>)
    requires ParseFields(kinds, a + b).Got? && ParseFields(kinds, a + b).rest == b
    ensures ParseFields(kinds, a) == Got(ParseFields(kinds, a + b).value, [])
  {
    hide ParseField;
    if kinds == [] {
      assert |a + b| == |a| + |b|;
      assert a == [];
    } else {
      var first := ParseField(kinds[0], a + b);
      ParseFieldsExtends(kinds[1..], first.rest, []);
      ParseFieldShrinks(kinds[0], a, b);
      ParseFieldsShrinks(kinds[1..], first.rest[..|first.rest| - |b|], b);
    }
  }

  /** A packet with a short header that is taken apart follows its layout. */
  lemma ShortFormConforms(e: Event, delta: nat)
    requires e.id < FIRST_WITH_LENGTH && ParseItem(PacketBytes(e, delta)) == Got(Whole(Packet(e, delta)), [])
    ensures Conforms(e)
  {
    hide Schema, EncodeU32, ParseFields;
    var tail := EncodeU32(delta);
    var s, r1 := PacketBytes(e, delta), e.payload + tail;
    assert s[0] == e.id && s[1..] == r1;
    assert DecodeU32(s) == Got(e.id as int, r1);
    hide DecodeU32;
    var kinds := Schema(e.id).value;
    var r2 := ParseFields(kinds, r1).rest;
    ParseFieldsExtends(kinds, r1, []);
    assert |r1| - |r2| == |e.payload|;
    assert r2 == r1[|e.payload|..] == tail;
    ParseFieldsShrinks(kinds, e.payload, tail);
  }

  /** A packet with a length that is taken apart has an id and a length of 14 bits. */
  lemma LongFormConforms(e: Event, delta: nat)
    requires FIRST_WITH_LENGTH <= e.id && ParseItem(PacketBytes(e, delta)) == Got(Whole(Packet(e, delta)), [])
    ensures Conforms(e)
  {
    var s := PacketBytes(e, delta);
    BackfillExactly(e.id);
    BackfillExactly(|e.payload|);
    assert s[0] == Backfill(e.id)[0] != 0;
    assert |s| == |Backfill(e.id)| + |Backfill(|e.payload|)| + |e.payload| + |EncodeU32(delta)|;
    hide PacketBytes, Backfill;
    DecodedIsNotShorter(s);
    var r1 := DecodeU32(s).rest;
    DecodedIsNotShorter(r1);
    var r2 := DecodeU32(r1).rest;
    DecodedIsNotShorter(r2[|e.payload|..]);
  }

  /** A host takes a stored packet apart into what was recorded if and only if the event conforms. */
  lemma PacketRoundTripExactly(e: Event, delta: nat)
    ensures ParseItem(PacketBytes(e, delta)) == Got(Whole(Packet(e, delta)), []) <==> Conforms(e)
  {
    hide ParseItem, PacketBytes, Conforms;
    if Conforms(e) {
      PacketRoundTrip(e, delta, []);
      assert PacketBytes(e, delta) + [] == PacketBytes(e, delta);
    } else if ParseItem(PacketBytes(e, delta)) == Got(Whole(Packet(e, delta)), []) {
      if e.id < FIRST_WITH_LENGTH {
        ShortFormConforms(e, delta);
      } else {
        LongFormConforms(e, delta);
      }
    }
  }

  /** A part of a packet is never taken for a packet. */
  lemma PartialPacketIsShort(e: Event, delta: nat, n: nat)
    requires Conforms(e) && n < |PacketBytes(e, delta)|
    ensures ParseItem(PacketBytes(e, delta)[..n]).Short?
  {
    var all := PacketBytes(e, delta);
    var a, b := all[..n], all[n..];
    assert a + b == all == all + [];
    if ParseItem(a).Got? {
      PacketRoundTrip(e, delta, []);
      ParseItemExtends(a, b);
    }
  }

  // Streams -------------------------------------------------------------------------------------

  datatype Parsed = Parsed(packets: seq<Packet>, rest: seq<byte>)

  /** All packets at the front of s, and what follows them. */
  function ParseStream(s: seq<byte>): Parsed
    decreases |s|
  {
    match ParseItem(s)
    case Short => Parsed([], s)
    case Got(item, rest) =>
      if |s| <= |rest| then Parsed([], s)
      else
        Prepend(item, ParseStream(rest))
  }

  function Prepend(item: Item, tail: Parsed): Parsed {
    if item.Dummy? then tail else Parsed([item.packet] + tail.packets, tail.rest)
  }

  lemma ParseStreamStep(s: seq<byte>, item: Item, rest: seq<byte>)
    requires ParseItem(s) == Got(item, rest)
    ensures |rest| < |s| && ParseStream(s) == Prepend(item, ParseStream(rest))
  {
    ParseItemExtends(s, []);
  }

  /** Parsing what has arrived and going on with the remainder later is the same as parsing everything. */
  lemma {:induction false} ParseStreamResumes(a: seq<byte>, b: seq<byte>)
    ensures var p := ParseStream(a);
      var q := ParseStream(p.rest + b);
      ParseStream(a + b) == Parsed(p.packets + q.packets, q.rest)
    decreases |a|
  {
    match ParseItem(a)
    case Short =>
      assert ParseStream(a) == Parsed([], a);
    case Got(item, rest) =>
      ParseItemExtends(a, b);
      ParseStreamStep(a, item, rest);
      ParseStreamStep(a + b, item, rest + b);
      ParseStreamResumes(rest, b);
      var tail := ParseStream(rest);
      PrependFirst(item, tail, ParseStream(tail.rest + b));
  }

  lemma PrependFirst(item: Item, p: Parsed, q: Parsed)
    ensures Prepend(item, Parsed(p.packets + q.packets, q.rest)) == Parsed(Prepend(item, p).packets + q.packets, q.rest)
  {
    if item.Whole? {
      assert [item.packet] + (p.packets + q.packets) == [item.packet] + p.packets + q.packets;
    }
  }

  /** Ten zero bytes let a host find the start of a packet. */
  const SYNC: seq<byte> := [0, 0, 0, 0, 0, 0, 0, 0, 0, 0]

  lemma {:induction false} ZerosAreDummies(s: seq<byte>)
    requires forall i :: 0 <= i < |s| ==> s[i] == 0
    ensures ParseStream(s) == Parsed([], [])
    decreases |s|
  {
    if s != [] {
      ZerosAreDummies(s[1..]);
    }
  }

  lemma PacketParses(e: Event, delta: nat)
    requires Conforms(e)
    ensures ParseStream(PacketBytes(e, delta)) == Parsed([Packet(e, delta)], [])
  {
    PacketRoundTrip(e, delta, []);
    assert PacketBytes(e, delta) + [] == PacketBytes(e, delta);
    assert ParseStream([]) == Parsed([], []);
  }
}
