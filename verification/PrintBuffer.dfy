/** Text that is formatted on the target: characters are collected in the static packet buffer and sent
    as soon as it is full. */
module PrintBuffer {
  import opened Bytes
  import opened UpBuffer
  import opened DownBuffer
  import opened Codec
  import opened Packets
  import opened Trace
  import opened Sessions
  import Meanings
  import opened Modules
  import opened Recorder
  import opened Numbers

  const EVTID_PRINT_FORMATTED: u32 := 26
  const RESERVE: nat := 4

  /** A print event without arguments: the text, the options and the number 0. */
  function PrintFields(text: seq<byte>, options: u32): seq<Field> {
    [Text(text, MAX_STRING_LEN), Num(options), Num(0)]
  }

  function PrintActs(chunks: seq<seq<byte>>, options: u32): (r: seq<Act>)
    ensures |r| == |chunks|
  {
    seq(|chunks|, i requires 0 <= i < |chunks| => Ask(EVTID_PRINT_FORMATTED, PrintFields(chunks[i], options)))
  }

  function Flatten(chunks: seq<seq<byte>>): seq<byte> {
    if chunks == [] then [] else Flatten(chunks[..|chunks| - 1]) + chunks[|chunks| - 1]
  }

  predicate FullChunks(chunks: seq<seq<byte>>) {
    forall c :: c in chunks ==> |c| == MAX_STRING_LEN
  }

  /** text in pieces of which all but the last are full, and none is empty. */
  predicate Cut(chunks: seq<seq<byte>>, text: seq<byte>) {
    && Flatten(chunks) == text
    && (forall i :: 0 <= i < |chunks| ==> 0 < |chunks[i]| <= MAX_STRING_LEN)
    && (forall i :: 0 <= i < |chunks| - 1 ==> |chunks[i]| == MAX_STRING_LEN)
  }

  lemma OneMoreChunk(chunks: seq<seq<byte>>, text: seq<byte>, options: u32)
    ensures Flatten(chunks + [text]) == Flatten(chunks) + text
    ensures PrintActs(chunks + [text], options)
      == PrintActs(chunks, options) + [Ask(EVTID_PRINT_FORMATTED, PrintFields(text, options))]
  {
    assert (chunks + [text])[..|chunks|] == chunks;
  }

  /** The texts of packets are put together in order. */
  lemma {:induction false} FlattenConcat(a: seq<seq<byte>>, b: seq<seq<byte>>)
    ensures Flatten(a + b) == Flatten(a) + Flatten(b)
    ensures forall text :: Flatten([text]) == text
  {
    assert forall text: seq<byte> :: [text][..0] == [];
    if b == [] {
      assert a + b == a;
    } else {
      assert (a + b)[..|a + b| - 1] == a + b[..|b| - 1];
      FlattenConcat(a, b[..|b| - 1]);
    }
  }

  /** A print packet shows its text, with the options and no arguments. */
  lemma PrintTells(text: seq<byte>, options: u32)
    requires |text| <= MAX_STRING_LEN
    ensures Meanings.Tells(Ask(EVTID_PRINT_FORMATTED, PrintFields(text, options)), 26,
      [Chars(text), Number(options), Number(0)])
  {
    assert text[..|text|] == text;
    Meanings.AskTells(EVTID_PRINT_FORMATTED, PrintFields(text, options), [Chars(text), Number(options), Number(0)]);
  }

  lemma PrintPayload(text: seq<byte>, options: u32)
    requires |text| <= MAX_STRING_LEN
    ensures EncodeFields(PrintFields(text, options)) == [|text| as byte] + text + (EncodeU32(options) + EncodeU32(0))
  {
    var fields := PrintFields(text, options);
    assert fields[1..] == [Num(options), Num(0)] && fields[1..][1..] == [Num(0)] && fields[1..][1..][1..] == [];
    assert EncodeFields([Num(0)]) == EncodeU32(0) + [] == EncodeU32(0);
    assert EncodeFields([Num(options), Num(0)]) == EncodeU32(options) + EncodeU32(0);
    assert text[..|text|] == text;
    assert EncodeStr(text, MAX_STRING_LEN) == [|text| as byte] + text;
  }

  /** The length of the text and the text, the options and a 0, completed in place. */
  method CompletePayload(p: array<byte>, cnt: nat, options: u32) returns (end: nat)
    requires cnt <= MAX_STRING_LEN && p.Length == MAX_PACKET_SIZE
    modifies p
    ensures RESERVE <= end && end + QUANTA_U32 <= p.Length
    ensures p[RESERVE..end] == EncodeFields(PrintFields(old(p[RESERVE + 1..RESERVE + 1 + cnt]), options))
  {
    hide EncodeU32, EncodeFields, PrintFields;
    ghost var text := p[RESERVE + 1..RESERVE + 1 + cnt];
    PrintPayload(text, options);
    p[RESERVE] := cnt;
    assert p[RESERVE..RESERVE + 1 + cnt] == [cnt as byte] + text;
    end := PutTwo(p, RESERVE + 1 + cnt, options);
    assert p[RESERVE..end] == p[..end][RESERVE..];
    assert p[RESERVE..end] == [cnt as byte] + text + (EncodeU32(options) + EncodeU32(0));
  }

  method PutTwo(p: array<byte>, at: nat, options: u32) returns (end: nat)
    requires at + 2 * QUANTA_U32 <= p.Length
    modifies p
    ensures at <= end <= at + 2 * QUANTA_U32
    ensures p[..end] == old(p[..at]) + (EncodeU32(options) + EncodeU32(0))
  {
    end := PutU32(p, at, options);
    end := PutU32(p, end, 0);
  }

  class Printer {
    const rec: Recorder
    const options: u32
    var payload: nat
    var cnt: nat

    /** The texts sent so far, and where the recorder stood when printing began. */
    ghost var chunks: seq<seq<byte>>
    ghost const base: Snap

    ghost predicate Valid()
      reads this, rec, rec.up, rec.up.buf, rec.down, rec.down.buf, rec.registry, set m | m in rec.registry.list
    {
      && rec.Valid()
      && cnt < MAX_STRING_LEN && payload == RESERVE + 1 + cnt
      && Follows(base, rec.Snapshot(), PrintActs(chunks, options), rec.down.WholeSchedule())
      && FullChunks(chunks)
    }

    /** Everything printed so far, sent or waiting in the buffer. */
    ghost function Printed(): seq<byte>
      reads this, rec, rec.up, rec.up.buf, rec.down, rec.down.buf, rec.registry, rec.aPacket
      reads set m | m in rec.registry.list
      requires Valid()
    {
      Flatten(chunks) + rec.aPacket[RESERVE + 1..payload]
    }

    ghost function Frame(): set<object> {
      {this, rec, rec.up, rec.up.buf, rec.down, rec.down.buf, rec.aPacket}
    }

    constructor (rec: Recorder, options: u32)
      requires rec.Valid()
      ensures Valid() && Printed() == [] && this.rec == rec && this.options == options && base == rec.Snapshot()
    {
      this.rec, this.options, base := rec, options, rec.Snapshot();
      payload, cnt, chunks := RESERVE + 1, 0, [];
      new;
      FollowsNothing(base, rec.down.WholeSchedule());
    }

    /** Send what is in the buffer and start a new packet. */
    method Flush()
      requires rec.Valid() && 0 < cnt <= MAX_STRING_LEN && payload == RESERVE + 1 + cnt
      requires Follows(base, rec.Snapshot(), PrintActs(chunks, options), rec.down.WholeSchedule())
      modifies Frame()
      ensures rec.Valid() && cnt == 0 && payload == RESERVE + 1
      ensures chunks == old(chunks) + [old(rec.aPacket[RESERVE + 1..payload])]
      ensures Follows(base, rec.Snapshot(), PrintActs(chunks, options), rec.down.WholeSchedule())
      ensures Flatten(chunks) == Flatten(old(chunks)) + old(rec.aPacket[RESERVE + 1..payload])
    {
      hide UpBuffer.Valid, DownBuffer.Valid, Registry.Valid, Replay, StreamOf, Recorder.OnEvidence, Follows;
      hide ModuleInfos, EncodeFields, Flatten, PrintActs, PrintFields;
      ghost var text, whole := rec.aPacket[RESERVE + 1..payload], rec.down.WholeSchedule();
      ghost var b := rec.Snapshot();
      var end := CompletePayload(rec.aPacket, cnt, options);
      rec.SendOwn(end, EVTID_PRINT_FORMATTED);
      OneMoreChunk(chunks, text, options);
      ghost var act := Ask(EVTID_PRINT_FORMATTED, PrintFields(text, options));
      FollowsThen(base, b, rec.Snapshot(), PrintActs(chunks, options), [act], whole);
      chunks := chunks + [text];
      payload, cnt := RESERVE + 1, 0;
    }

    method StoreChar(c: byte)
      requires Valid()
      modifies Frame()
      ensures Valid() && Printed() == old(Printed()) + [c]
    {
      hide Replay, StreamOf, UpBuffer.Valid, DownBuffer.Valid, Registry.Valid, Follows, ModuleInfos, Flatten, PrintActs;
      ghost var waiting := rec.aPacket[RESERVE + 1..payload];
      if cnt + 1 <= MAX_STRING_LEN {
        rec.aPacket[payload] := c;
        payload := payload + 1;
        cnt := cnt + 1;
      }
      assert rec.aPacket[RESERVE + 1..payload] == waiting + [c];
      if cnt == MAX_STRING_LEN {
        Flush();
      }
    }

    /** The same character several times. */
    method StoreChars(c: byte, n: nat)
      requires Valid()
      modifies Frame()
      ensures Valid() && Printed() == old(Printed()) + Repeat(c, n)
    {
      hide Recorder.Valid, Follows, FullChunks;
      for i := 0 to n
        invariant Valid() && Printed() == old(Printed()) + Repeat(c, i)
      {
        StoreChar(c);
        assert Repeat(c, i) + [c] == Repeat(c, i + 1);
      }
    }

    /** Send the remaining characters, if any. */
    method Finish()
      requires Valid()
      modifies Frame()
      ensures rec.Valid() && Cut(chunks, old(Printed()))
      ensures Follows(base, rec.Snapshot(), PrintActs(chunks, options), rec.down.WholeSchedule())
    {
      hide UpBuffer.Valid, Registry.Valid, Follows, ModuleInfos, Flatten, PrintActs;
      if cnt != 0 {
        Flush();
      }
    }
  }
}
