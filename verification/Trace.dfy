/** The history of a recording: what became of every request, and what a host can tell from the bytes. */
module Trace {
  import opened Bytes
  import opened Codec
  import opened Packets

  const OFF: nat := 0
  const ON: nat := 1
  const DROPPING: nat := 2

  /** What became of one _SendPacket call. */
  datatype Outcome =
    | Stored(stamp: u32, delta: u32)
    | Filtered               // masked by DisabledEvents
    | Refused                // dropping, and the overflow packet did not fit either
    | Lost                   // did not fit; this is where dropping starts
    | Ignored                // recording is off

  datatype Entry =
    | Request(nested: bool, event: Event, outcome: Outcome)
    | Overflow(drops: u32, stamp: u32, delta: u32)
    | Sync(nested: bool, stored: bool)
    | Started(nested: bool)
    | Stopped(nested: bool)

  /** EnableState, DropCount and LastTxTimeStamp. */
  datatype State = State(enable: nat, drops: u32, last: u32)

  function Initial(t0: u32): State {
    State(OFF, 0, t0)
  }

  /** The state after one more entry, if the entry is possible at all. */
  function Step(s: State, e: Entry): Option<State> {
    match e
    case Request(_, _, Stored(stamp, delta)) =>
      if s.enable == ON && delta == Sub32(stamp, s.last) then Some(s.(last := stamp)) else None
    case Request(_, _, Filtered) => if s.enable == ON then Some(s) else None
    case Request(_, _, Refused) => if s.enable == DROPPING then Some(s.(drops := Add32(s.drops, 1))) else None
    case Request(_, _, Lost) => if s.enable == ON then Some(s.(enable := DROPPING)) else None
    case Request(_, _, Ignored) => if s.enable == OFF then Some(s) else None
    case Overflow(drops, stamp, delta) =>
      if s.enable == DROPPING && drops == s.drops && delta == Sub32(stamp, s.last)
      then Some(s.(enable := ON, last := stamp)) else None
    case Sync(_, _) => if s.enable == ON then Some(s) else None
    case Started(_) => if s.enable == OFF then Some(s.(enable := ON)) else None
    case Stopped(_) => Some(s.(enable := OFF))
  }

  function Replay(s: State, log: seq<Entry>): Option<State> {
    if log == [] then Some(s)
    else match Replay(s, log[..|log| - 1])
      case None => None
      case Some(s') => Step(s', log[|log| - 1])
  }

  /** log is the history of a recording that started at time t0 and has led to state s. */
  predicate Leads(t0: u32, log: seq<Entry>, s: State) {
    Replay(Initial(t0), log) == Some(s)
  }

  lemma {:induction false} ReplayConcat(s: State, a: seq<Entry>, b: seq<Entry>)
    ensures Replay(s, a + b) == match Replay(s, a) case None => None case Some(s') => Replay(s', b)
  {
    if b == [] {
      assert a + b == a;
    } else {
      assert (a + b)[..|a + b| - 1] == a + b[..|b| - 1];
      ReplayConcat(s, a, b[..|b| - 1]);
    }
  }

  lemma ReplayPrefix(t0: u32, log: seq<Entry>, n: nat)
    requires n <= |log| && Replay(Initial(t0), log).Some?
    ensures Replay(Initial(t0), log[..n]).Some?
    ensures n < |log| ==> Step(Replay(Initial(t0), log[..n]).value, log[n]).Some?
  {
    assert log == log[..n] + log[n..];
    ReplayConcat(Initial(t0), log[..n], log[n..]);
    if n < |log| {
      assert log == log[..n + 1] + log[n + 1..];
      ReplayConcat(Initial(t0), log[..n + 1], log[n + 1..]);
      assert log[..n + 1][..n] == log[..n] && log[..n + 1][n] == log[n];
    }
  }

  /** One more possible entry. */
  lemma LogGrows(t0: u32, log: seq<Entry>, s: State, e: Entry)
    requires Leads(t0, log, s) && Step(s, e).Some?
    ensures Leads(t0, log + [e], Step(s, e).value)
  {
    assert (log + [e])[..|log|] == log;
  }

  lemma StreamGrows(log: seq<Entry>, e: Entry)
    ensures StreamOf(log + [e]) == StreamOf(log) + EntryBytes(e)
  {
    assert (log + [e])[..|log|] == log;
  }

  // Packet by packet ----------------------------------------------------------------------------

  function OverflowEvent(drops: u32): Event {
    Event(EVTID_OVERFLOW, EncodeU32(drops))
  }

  /** What an entry has put into the ring. */
  function EntryBytes(e: Entry): seq<byte> {
    match e
    case Request(_, event, Stored(_, delta)) => PacketBytes(event, delta)
    case Overflow(drops, _, delta) => PacketBytes(OverflowEvent(drops), delta)
    case Sync(_, true) => SYNC
    case _ => []
  }

  function EntryPackets(e: Entry): seq<Packet> {
    match e
    case Request(_, event, Stored(_, delta)) => [Packet(event, delta)]
    case Overflow(drops, _, delta) => [Packet(OverflowEvent(drops), delta)]
    case _ => []
  }

  function EntryStamps(e: Entry): seq<u32> {
    match e
    case Request(_, _, Stored(stamp, _)) => [stamp]
    case Overflow(_, stamp, _) => [stamp]
    case _ => []
  }

  function StreamOf(log: seq<Entry>): seq<byte> {
    if log == [] then [] else StreamOf(log[..|log| - 1]) + EntryBytes(log[|log| - 1])
  }

  function PacketsOf(log: seq<Entry>): seq<Packet> {
    if log == [] then [] else PacketsOf(log[..|log| - 1]) + EntryPackets(log[|log| - 1])
  }

  /** The true times of the stored packets. */
  function StampsOf(log: seq<Entry>): (r: seq<u32>)
    ensures |r| == |PacketsOf(log)|
  {
    if log == [] then [] else StampsOf(log[..|log| - 1]) + EntryStamps(log[|log| - 1])
  }

  /** Every event that was stored can be taken apart by a host. */
  predicate AllConform(log: seq<Entry>) {
    forall e :: e in log && e.Request? && e.outcome.Stored? ==> Conforms(e.event)
  }

  lemma OverflowConforms(drops: u32)
    ensures Conforms(OverflowEvent(drops))
  {
    var fields := [Num(drops)];
    FieldsRoundTrip(fields, []);
    assert EncodeFields(fields[1..]) == [] && Kinds(fields) == [NumKind];
    assert EncodeFields(fields) + [] == EncodeU32(drops);
  }

  lemma EntryParses(e: Entry)
    requires AllConform([e])
    ensures ParseStream(EntryBytes(e)) == Parsed(EntryPackets(e), [])
  {
    match e
    case Request(_, event, Stored(_, delta)) =>
      assert e in [e];
      PacketParses(event, delta);
    case Overflow(drops, _, delta) =>
      OverflowConforms(drops);
      PacketParses(OverflowEvent(drops), delta);
    case Sync(_, true) => ZerosAreDummies(SYNC);
    case _ =>
  }

  /** The stream is exactly the stored packets, in order, nothing else and no part of a packet. */
  lemma {:induction false} StreamParses(log: seq<Entry>)
    requires AllConform(log)
    ensures ParseStream(StreamOf(log)) == Parsed(PacketsOf(log), [])
  {
    if log != [] {
      var front, last := log[..|log| - 1], log[|log| - 1];
      StreamParses(front);
      EntryParses(last);
      ParseStreamResumes(StreamOf(front), EntryBytes(last));
      assert [] + EntryBytes(last) == EntryBytes(last);
    }
  }

  /** The host's clock: deltas added up modulo 2^32 from the time of initialisation. */
  function Timeline(t0: u32, packets: seq<Packet>): (r: seq<u32>)
    ensures |r| == |packets|
  {
    if packets == [] then []
    else
      var front := Timeline(t0, packets[..|packets| - 1]);
      front + [U32(Now(t0, front) + packets[|packets| - 1].delta)]
  }

  function Now(t0: u32, times: seq<u32>): u32 {
    if times == [] then t0 else times[|times| - 1]
  }

  lemma TimelineOneMore(t0: u32, packets: seq<Packet>, p: Packet)
    ensures Timeline(t0, packets + [p]) == Timeline(t0, packets) + [U32(Now(t0, Timeline(t0, packets)) + p.delta)]
  {
    assert (packets + [p])[..|packets|] == packets;
  }

  /** One more entry advances the host's clock to the time of the target. */
  lemma ClockStep(s: State, e: Entry, t0: u32, packets: seq<Packet>)
    requires Step(s, e).Some? && s.last == Now(t0, Timeline(t0, packets))
    ensures Timeline(t0, packets + EntryPackets(e)) == Timeline(t0, packets) + EntryStamps(e)
    ensures Step(s, e).value.last == Now(t0, Timeline(t0, packets) + EntryStamps(e))
  {
    hide OverflowEvent, Timeline;
    if EntryPackets(e) == [] {
      assert packets + [] == packets && Timeline(t0, packets) + [] == Timeline(t0, packets);
    } else {
      TimelineOneMore(t0, packets, EntryPackets(e)[0]);
    }
  }

  /** However many packets were dropped or filtered in between, the deltas that were stored
      add up to the true time of every stored packet. */
  lemma {:induction false} TimelineIsTrue(t0: u32, log: seq<Entry>, s: State)
    requires Leads(t0, log, s)
    ensures Timeline(t0, PacketsOf(log)) == StampsOf(log)
    ensures s.last == Now(t0, StampsOf(log))
  {
    if log != [] {
      var front, last := log[..|log| - 1], log[|log| - 1];
      var s' := Replay(Initial(t0), front).value;
      TimelineIsTrue(t0, front, s');
      ClockStep(s', last, t0, PacketsOf(front));
    }
  }

  lemma {:induction false} TimelinePrefix(t0: u32, a: seq<Packet>, b: seq<Packet>)
    ensures Timeline(t0, a) <= Timeline(t0, a + b)
  {
    if b == [] {
      assert a + b == a;
    } else {
      assert (a + b)[..|a + b| - 1] == a + b[..|b| - 1];
      TimelinePrefix(t0, a, b[..|b| - 1]);
    }
  }

  /** A host that has received any number of bytes so far, in the middle of a packet or not, has recovered
      a prefix of the stored packets and of their true times; the bytes still to come complete them. */
  lemma HostReconstructs(t0: u32, log: seq<Entry>, s: State, received: seq<byte>, pending: seq<byte>)
    requires Leads(t0, log, s) && AllConform(log) && StreamOf(log) == received + pending
    ensures var now := ParseStream(received);
      var later := ParseStream(now.rest + pending);
      && now.packets + later.packets == PacketsOf(log) && later.rest == []
      && Timeline(t0, now.packets) <= StampsOf(log)
      && Timeline(t0, now.packets + later.packets) == StampsOf(log)
  {
    StreamParses(log);
    ParseStreamResumes(received, pending);
    TimelineIsTrue(t0, log, s);
    var now := ParseStream(received);
    TimelinePrefix(t0, now.packets, ParseStream(now.rest + pending).packets);
  }

  /** Of the packets received completely none is held back, and of the one received in part nothing is made up. */
  lemma WholePacketsAreSeen(log: seq<Entry>, e: Event, delta: nat, n: nat)
    requires AllConform(log) && Conforms(e) && n < |PacketBytes(e, delta)|
    ensures var part := PacketBytes(e, delta)[..n];
      ParseStream(StreamOf(log) + part) == Parsed(PacketsOf(log), part)
  {
    var part := PacketBytes(e, delta)[..n];
    StreamParses(log);
    ParseStreamResumes(StreamOf(log), part);
    PartialPacketIsShort(e, delta, n);
    assert [] + part == part;
  }

  // Losses --------------------------------------------------------------------------------------

  lemma {:induction false} EnableStates(t0: u32, log: seq<Entry>, s: State)
    requires Leads(t0, log, s)
    ensures s.enable in {OFF, ON, DROPPING}
  {
    if log != [] {
      EnableStates(t0, log[..|log| - 1], Replay(Initial(t0), log[..|log| - 1]).value);
    }
  }

  predicate Dropped(e: Entry) {
    e.Request? && (e.outcome.Lost? || e.outcome.Refused?)
  }

  /** Dropping is over: by an overflow packet, or because recording was stopped. */
  predicate EndsDropping(e: Entry) {
    e.Overflow? || e.Stopped?
  }

  lemma {:induction false} StillDropping(t0: u32, log: seq<Entry>, s: State, k: nat)
    requires Leads(t0, log, s) && k < |log| && Dropped(log[k])
    requires forall m :: k < m < |log| ==> !EndsDropping(log[m])
    ensures s.enable == DROPPING
  {
    var front := log[..|log| - 1];
    if k < |front| {
      StillDropping(t0, front, Replay(Initial(t0), front).value, k);
    }
  }

  /** Whenever a packet has been dropped and another one is stored later, an overflow packet lies between
      them in the stream, unless recording was stopped in the meantime. */
  lemma GapIsMarked(t0: u32, log: seq<Entry>, k: nat, j: nat)
    requires Replay(Initial(t0), log).Some?
    requires k < j < |log| && Dropped(log[k]) && log[j].Request? && log[j].outcome.Stored?
    requires forall m :: k < m < j ==> !log[m].Stopped?
    ensures exists m :: k < m < j && log[m].Overflow?
  {
    SomethingEnds(t0, log, k, j);
  }

  /** Behind entry k and before entry j an overflow packet comes before any stop. */
  predicate Marked(log: seq<Entry>, k: nat, j: nat)
    requires k < j <= |log|
  {
    exists m :: k < m < j && log[m].Overflow? && forall n :: k < n < m ==> !log[n].Stopped?
  }

  /** Behind entry k and before entry j a stop comes before any overflow packet. */
  predicate Hidden(log: seq<Entry>, k: nat, j: nat)
    requires k < j <= |log|
  {
    exists m :: k < m < j && log[m].Stopped? && forall n :: k < n < m ==> !log[n].Overflow?
  }

  lemma {:induction false} FirstEnd(log: seq<Entry>, k: nat, j: nat)
    requires k < j <= |log|
    ensures (forall n :: k < n < j ==> !EndsDropping(log[n]))
      || exists m :: k < m < j && EndsDropping(log[m]) && forall n :: k < n < m ==> !EndsDropping(log[n])
  {
    if k + 1 < j {
      FirstEnd(log, k, j - 1);
    }
  }

  /** A gap between a dropped packet and one that is stored later is marked by an overflow packet of its own
      exactly if no stop came first. */
  lemma GapExactly(t0: u32, log: seq<Entry>, k: nat, j: nat)
    requires Replay(Initial(t0), log).Some?
    requires k < j < |log| && Dropped(log[k]) && log[j].Request? && log[j].outcome.Stored?
    ensures Marked(log, k, j) <==> !Hidden(log, k, j)
  {
    FirstEnd(log, k, j);
    hide Replay;
    if forall n :: k < n < j ==> !EndsDropping(log[n]) {
      SomethingEnds(t0, log, k, j);
    } else {
      var m :| k < m < j && EndsDropping(log[m]) && forall n :: k < n < m ==> !EndsDropping(log[n]);
      FirstDecides(log, k, j, m);
    }
  }

  /** Behind entry k and before entry j recording was stopped while packets were still being dropped on
      account of entry k. */
  predicate StoppedWhileDropping(t0: u32, log: seq<Entry>, k: nat, j: nat)
    requires k < j <= |log|
  {
    exists m :: k < m < j && log[m].Stopped? && StateAt(t0, log, m) == DROPPING
      && forall n :: k < n < m ==> !EndsDropping(log[n])
  }

  /** EnableState before entry m. */
  function StateAt(t0: u32, log: seq<Entry>, m: nat): nat
    requires m <= |log|
  {
    match Replay(Initial(t0), log[..m]) case None => OFF case Some(s) => s.enable
  }

  /** The same by what a caller can see: the gap is marked exactly if nobody stopped the recording while it
      was dropping. */
  lemma GapByState(t0: u32, log: seq<Entry>, k: nat, j: nat)
    requires Replay(Initial(t0), log).Some?
    requires k < j < |log| && Dropped(log[k]) && log[j].Request? && log[j].outcome.Stored?
    ensures Marked(log, k, j) <==> !StoppedWhileDropping(t0, log, k, j)
  {
    SomethingEnds(t0, log, k, j);
    FirstEnd(log, k, j);
    var m :| k < m < j && EndsDropping(log[m]) && forall n :: k < n < m ==> !EndsDropping(log[n]);
    FirstDecides(log, k, j, m);
    ReplayPrefix(t0, log, m);
    StillDropping(t0, log[..m], Replay(Initial(t0), log[..m]).value, k);
    assert StateAt(t0, log, m) == DROPPING;
    hide Replay, StateAt, Marked, Hidden;
    if log[m].Overflow? {
      assert forall m' :: k < m' < j && log[m'].Stopped? ==> m < m';
    }
  }

  lemma SomethingEnds(t0: u32, log: seq<Entry>, k: nat, j: nat)
    requires Replay(Initial(t0), log).Some?
    requires k < j < |log| && Dropped(log[k]) && log[j].Request? && log[j].outcome.Stored?
    ensures exists n :: k < n < j && EndsDropping(log[n])
  {
    if forall n :: k < n < j ==> !EndsDropping(log[n]) {
      ReplayPrefix(t0, log, j);
      StillDropping(t0, log[..j], Replay(Initial(t0), log[..j]).value, k);
    }
  }

  lemma FirstDecides(log: seq<Entry>, k: nat, j: nat, m: nat)
    requires k < m < j <= |log| && EndsDropping(log[m]) && forall n :: k < n < m ==> !EndsDropping(log[n])
    ensures if log[m].Overflow? then Marked(log, k, j) && !Hidden(log, k, j)
            else Hidden(log, k, j) && !Marked(log, k, j)
  {
    assert forall n :: k < n < m ==> !log[n].Overflow? && !log[n].Stopped? by {
      assert forall n :: k < n < m ==> !EndsDropping(log[n]);
    }
  }

  datatype Totals = Totals(requests: nat, stored: nat, filtered: nat, refused: nat, lost: nat, overflows: nat,
                           unmarked: nat)

  /** How often what happened; unmarked counts the stops made while dropping. */
  function Count(t0: u32, log: seq<Entry>): Totals {
    if log == [] then Totals(0, 0, 0, 0, 0, 0, 0)
    else
      var t := Count(t0, log[..|log| - 1]);
      match log[|log| - 1]
      case Request(_, _, Stored(_, _)) => t.(requests := t.requests + 1, stored := t.stored + 1)
      case Request(_, _, Filtered) => t.(requests := t.requests + 1, filtered := t.filtered + 1)
      case Request(_, _, Refused) => t.(requests := t.requests + 1, refused := t.refused + 1)
      case Request(_, _, Lost) => t.(requests := t.requests + 1, lost := t.lost + 1)
      case Request(_, _, Ignored) => t
      case Overflow(_, _, _) => t.(overflows := t.overflows + 1)
      case Stopped(_) =>
        var s := Replay(Initial(t0), log[..|log| - 1]);
        if s.Some? && s.value.enable == DROPPING then t.(unmarked := t.unmarked + 1) else t
      case _ => t
  }

  lemma AddOne(n: nat)
    ensures Add32(U32(n), 1) == U32(n + 1)
  {
  }

  /** Every request made while recording is accounted for exactly once. DropCount is the number of refusals;
      the losses that start dropping are not in it, but each of them is followed by an overflow packet,
      or by a stop, or the recorder is still dropping. */
  lemma {:induction false} DropConservation(t0: u32, log: seq<Entry>, s: State)
    requires Leads(t0, log, s)
    ensures var t := Count(t0, log);
      && t.requests == t.stored + t.filtered + t.refused + t.lost
      && s.drops == U32(t.refused)
      && t.lost == t.overflows + t.unmarked + (if s.enable == DROPPING then 1 else 0)
      && |PacketsOf(log)| == t.stored + t.overflows
  {
    if log != [] {
      var front := log[..|log| - 1];
      DropConservation(t0, front, Replay(Initial(t0), front).value);
      EnableStates(t0, front, Replay(Initial(t0), front).value);
      AddOne(Count(t0, front).refused);
    }
  }

  lemma AddMany(n: nat, k: nat)
    ensures U32(U32(n) + k) == U32(n + k)
  {
  }

  /** The packet of an entry stands behind the packets of the entries before it. */
  lemma {:induction false} PacketAt(log: seq<Entry>, i: nat, p: Packet)
    requires i < |log| && EntryPackets(log[i]) == [p]
    ensures |PacketsOf(log[..i])| < |PacketsOf(log)| && PacketsOf(log)[|PacketsOf(log[..i])|] == p
  {
    hide EntryPackets;
    var n := |log| - 1;
    if i < n {
      PacketAt(log[..n], i, p);
      assert log[..n][..i] == log[..i];
    }
  }

  /** An overflow packet has id 1, and what a host reads in it is the number of drops. */
  lemma OverflowTells(drops: u32, stamp: u32, delta: u32)
    ensures EntryPackets(Overflow(drops, stamp, delta)) == [Packet(OverflowEvent(drops), delta)]
    ensures OverflowEvent(drops).id == 1 && DecodeU32(OverflowEvent(drops).payload) == Got(drops, [])
  {
    U32RoundTrip(drops, []);
    assert EncodeU32(drops) + [] == EncodeU32(drops);
  }

  /** From an overflow packet the host can tell how many packets are missing so far: the number it reads in the
      packet, plus one for every overflow packet up to and including this one, if nobody has stopped while
      dropping. */
  lemma OverflowReportsLosses(t0: u32, log: seq<Entry>, i: nat)
    requires Replay(Initial(t0), log).Some? && i < |log| && log[i].Overflow?
    ensures var t, k := Count(t0, log[..i]), |PacketsOf(log[..i])|;
      && k < |PacketsOf(log)| && PacketsOf(log)[k].event.id == 1
      && var told := DecodeU32(PacketsOf(log)[k].event.payload);
      && told.Got? && told.rest == []
      && U32(t.refused + t.lost) == U32(told.value + (t.overflows + 1) + t.unmarked)
  {
    var drops, delta := log[i].drops, log[i].delta;
    OverflowTells(drops, log[i].stamp, delta);
    PacketAt(log, i, Packet(OverflowEvent(drops), delta));
    LossesBefore(t0, log, i);
    hide Replay, Count, PacketsOf, OverflowEvent, DecodeU32;
  }

  /** The same with the number noted in the history. */
  lemma LossesBefore(t0: u32, log: seq<Entry>, i: nat)
    requires Replay(Initial(t0), log).Some? && i < |log| && log[i].Overflow?
    ensures var t := Count(t0, log[..i]);
      U32(t.refused + t.lost) == U32(log[i].drops + (t.overflows + 1) + t.unmarked)
  {
    ReplayPrefix(t0, log, i);
    var s, t := Replay(Initial(t0), log[..i]).value, Count(t0, log[..i]);
    DropConservation(t0, log[..i], s);
    assert s.enable == DROPPING && s.drops == log[i].drops;
    AddMany(t.refused, t.overflows + 1 + t.unmarked);
  }

  // One request ---------------------------------------------------------------------------------

  /** What _SendPacket adds to the history: masked says whether the event is disabled, t1 and t2 are the
      clock readings and room1 and room2 the free bytes in the ring at its first and second store. */
  function Attempt(s: State, nested: bool, event: Event, masked: bool,
                   t1: u32, t2: u32, room1: nat, room2: nat): seq<Entry> {
    if s.enable == OFF then [Request(nested, event, Ignored)]
    else if s.enable == DROPPING then
      var delta := Sub32(t1, s.last);
      if |PacketBytes(OverflowEvent(s.drops), delta)| > room1 then [Request(nested, event, Refused)]
      else [Overflow(s.drops, t1, delta), Request(nested, event, Try(t1, event, masked, t2, room2))]
    else [Request(nested, event, Try(s.last, event, masked, t1, room1))]
  }

  function Try(last: u32, event: Event, masked: bool, now: u32, room: nat): Outcome {
    if masked then Filtered
    else if |PacketBytes(event, Sub32(now, last))| > room then Lost
    else Stored(now, Sub32(now, last))
  }

  /** The history stays possible whatever the clock and the ring do. */
  lemma AttemptIsPossible(t0: u32, log: seq<Entry>, s: State, nested: bool, event: Event, masked: bool,
                          t1: u32, t2: u32, room1: nat, room2: nat)
    requires Leads(t0, log, s)
    ensures Replay(Initial(t0), log + Attempt(s, nested, event, masked, t1, t2, room1, room2)).Some?
  {
    EnableStates(t0, log, s);
    var own := Attempt(s, nested, event, masked, t1, t2, room1, room2);
    ReplayConcat(Initial(t0), log, own);
    assert own[..|own| - 1] == if |own| == 2 then [own[0]] else [];
    assert Replay(s, []) == Some(s);
    if |own| == 2 {
      assert [own[0]][..0] == [];
      assert Replay(s, [own[0]]) == Step(s, own[0]);
    }
  }

  // What calls leave behind ---------------------------------------------------------------------

  /** The parts of which the calls of an application consist: sending an event, turning recording on with
      room for so many bytes in the ring, and turning it off. */
  datatype Doing =
    | Sending(event: Event, masked: bool, t1: u32, t2: u32, room1: nat, room2: nat)
    | TurningOn(room: nat)
    | TurningOff

  function Entries(s: State, d: Doing): seq<Entry> {
    match d
    case Sending(event, masked, t1, t2, room1, room2) => Attempt(s, false, event, masked, t1, t2, room1, room2)
    case TurningOn(room) => if s.enable == OFF then [Started(false), Sync(false, |SYNC| <= room)] else []
    case TurningOff => [Stopped(false)]
  }

  /** The history after all of ds. */
  function Play(t0: u32, ds: seq<Doing>): seq<Entry> {
    if ds == [] then []
    else
      var front := Play(t0, ds[..|ds| - 1]);
      match Replay(Initial(t0), front)
      case None => front
      case Some(s) => front + Entries(s, ds[|ds| - 1])
  }

  lemma StartIsPossible(t0: u32, log: seq<Entry>, s: State, stored: bool)
    requires Leads(t0, log, s) && s.enable == OFF
    ensures Leads(t0, log + [Started(false), Sync(false, stored)], s.(enable := ON))
  {
    var on, sync := Started(false), Sync(false, stored);
    LogGrows(t0, log, s, on);
    LogGrows(t0, log + [on], s.(enable := ON), sync);
    assert log + [on, sync] == log + [on] + [sync];
  }

  lemma {:induction false} PlayIsPossible(t0: u32, ds: seq<Doing>)
    ensures Replay(Initial(t0), Play(t0, ds)).Some?
  {
    if ds != [] {
      PlayIsPossible(t0, ds[..|ds| - 1]);
      var front := Play(t0, ds[..|ds| - 1]);
      var s := Replay(Initial(t0), front).value;
      match ds[|ds| - 1] {
        case Sending(event, masked, t1, t2, room1, room2) =>
          AttemptIsPossible(t0, front, s, false, event, masked, t1, t2, room1, room2);
        case TurningOn(room) =>
          if s.enable == OFF {
            StartIsPossible(t0, front, s, |SYNC| <= room);
          } else {
            assert front + [] == front;
          }
        case TurningOff => LogGrows(t0, front, s, Stopped(false));
      }
    }
  }

  lemma PlayOn(t0: u32, ds: seq<Doing>, d: Doing, s: State)
    requires Leads(t0, Play(t0, ds), s)
    ensures Play(t0, ds + [d]) == Play(t0, ds) + Entries(s, d)
  {
    assert (ds + [d])[..|ds|] == ds;
  }
}
