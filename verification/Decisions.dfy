/** What the outcomes in a history were decided on: the room that the host's reading had left in the ring, and
    the clock. */
module Decisions {
  import opened Bytes
  import opened Codec
  import opened Packets
  import opened Trace

  /** How many bytes of the stream the host had read when an entry was made, and the number of the clock reading
      made for it, or of the next one. */
  datatype Evidence = Evidence(read: nat, tick: nat)

  /** The clock, the size of the ring, the size of the largest packet buffer, and whether the host empties the
      ring whenever it has its turn. */
  datatype Rules = Rules(t0: u32, clock: nat -> u32, size: nat, largest: nat, eager: bool)

  /** The clock is read for the entry. */
  predicate Timed(e: Entry) {
    e.Overflow? || (e.Request? && (e.outcome.Stored? || e.outcome.Lost? || e.outcome.Refused?))
  }

  /** It was tried to store something. */
  predicate UsesRing(e: Entry) {
    Timed(e) || e.Sync?
  }

  /** In state s, with the clock at now and so much room in the ring, the entry is the right one: bytes are
      stored exactly if they fit, and with the time of the clock. */
  predicate Right(s: State, e: Entry, now: u32, room: int) {
    match e
    case Request(_, event, Stored(stamp, delta)) => stamp == now && |PacketBytes(event, delta)| <= room
    case Request(_, event, Lost) => room < |PacketBytes(event, Sub32(now, s.last))|
    case Request(_, _, Refused) => room < |PacketBytes(OverflowEvent(s.drops), Sub32(now, s.last))|
    case Overflow(drops, stamp, delta) => stamp == now && |PacketBytes(OverflowEvent(drops), delta)| <= room
    case Sync(_, stored) => stored == (|SYNC| <= room)
    case _ => true
  }

  /** Whether size bytes are stored or not, the right one of two entries is made. */
  ghost predicate RightEitherWay(s: State, yes: Entry, no: Entry, size: nat, now: u32) {
    && (forall room: int :: size <= room ==> Right(s, yes, now, room))
    && (forall room: int :: room < size ==> Right(s, no, now, room))
  }

  lemma OverflowIsRight(s: State, nested: bool, event: Event, now: u32)
    ensures var delta := Sub32(now, s.last);
      RightEitherWay(s, Overflow(s.drops, now, delta), Request(nested, event, Refused),
        |PacketBytes(OverflowEvent(s.drops), delta)|, now)
  {
  }

  lemma PacketIsRight(s: State, nested: bool, event: Event, now: u32)
    ensures var delta := Sub32(now, s.last);
      RightEitherWay(s, Request(nested, event, Stored(now, delta)), Request(nested, event, Lost),
        |PacketBytes(event, delta)|, now)
  {
  }

  /** The free bytes of the ring after log, when the host has read so many bytes. */
  function Room(r: Rules, log: seq<Entry>, read: nat): int {
    r.size - 1 - (|StreamOf(log)| - read)
  }

  /** Behind front, entry e was made on evidence v. */
  ghost predicate Judged(r: Rules, front: seq<Entry>, e: Entry, v: Evidence) {
    var s := Replay(Initial(r.t0), front);
    && s.Some? && Right(s.value, e, r.clock(v.tick), Room(r, front, v.read))
    && v.read <= |StreamOf(front)| && (r.eager && UsesRing(e) ==> v.read == |StreamOf(front)|)
    && (e.Request? ==> 4 + |e.event.payload| + QUANTA_U32 <= r.largest)
  }

  /** Every entry was made on evidence of its own; the host has read so many bytes by now, and the clock has been
      read so many times. */
  ghost predicate Justified(r: Rules, log: seq<Entry>, evidence: seq<Evidence>, read: nat, ticks: nat) {
    |evidence| == |log| && (log != [] ==>
      var n := |log| - 1;
      var e, v := log[n], evidence[n];
      && v.read <= read && v.tick + (if Timed(e) then 1 else 0) <= ticks && Judged(r, log[..n], e, v)
      && Justified(r, log[..n], evidence[..n], v.read, v.tick))
  }

  lemma JustifiedLater(r: Rules, log: seq<Entry>, evidence: seq<Evidence>, read: nat, ticks: nat,
                       read': nat, ticks': nat)
    requires Justified(r, log, evidence, read, ticks) && read <= read' && ticks <= ticks'
    ensures Justified(r, log, evidence, read', ticks')
  {
  }

  lemma OneMoreJustified(r: Rules, log: seq<Entry>, evidence: seq<Evidence>, e: Entry, v: Evidence,
                         read: nat, ticks: nat)
    requires Justified(r, log, evidence, v.read, v.tick) && Judged(r, log, e, v)
    requires v.read <= read && v.tick + (if Timed(e) then 1 else 0) <= ticks
    ensures Justified(r, log + [e], evidence + [v], read, ticks)
  {
    hide Judged;
    assert (log + [e])[..|log|] == log && (evidence + [v])[..|log|] == evidence;
  }

  /** e was made on evidence v, and w is evidence of a later entry. */
  predicate Earlier(e: Entry, v: Evidence, w: Evidence) {
    v.read <= w.read && v.tick + (if Timed(e) then 1 else 0) <= w.tick
  }

  /** Each entry by itself, and each two of them: the host reads on, and no clock reading is used twice. */
  lemma {:induction false} JustifiedAt(r: Rules, log: seq<Entry>, evidence: seq<Evidence>, read: nat, ticks: nat,
                                       i: nat)
    requires Justified(r, log, evidence, read, ticks) && i < |log|
    ensures Judged(r, log[..i], log[i], evidence[i])
    ensures evidence[i].read <= read && evidence[i].tick + (if Timed(log[i]) then 1 else 0) <= ticks
    ensures forall j :: i < j < |log| ==> Earlier(log[i], evidence[i], evidence[j])
    decreases |log|
  {
    hide Judged;
    var n := |log| - 1;
    if i < n {
      var v := evidence[n];
      JustifiedAt(r, log[..n], evidence[..n], v.read, v.tick, i);
      assert log[..n][..i] == log[..i];
      forall j | i < j < |log|
        ensures Earlier(log[i], evidence[i], evidence[j])
      {
        assert j < n ==> evidence[j] == evidence[..n][j];
      }
    }
  }

  /** An event that was recorded, not masked, and not refused while dropping was stored if and only if its packet
      fitted into the room the host had left. */
  lemma StoredExactly(r: Rules, log: seq<Entry>, evidence: seq<Evidence>, read: nat, ticks: nat, i: nat)
    requires Justified(r, log, evidence, read, ticks) && i < |log|
    requires log[i].Request? && (log[i].outcome.Stored? || log[i].outcome.Lost?)
    requires Replay(Initial(r.t0), log).Some?
    ensures Replay(Initial(r.t0), log[..i]).Some?
    ensures var last, now := Replay(Initial(r.t0), log[..i]).value.last, r.clock(evidence[i].tick);
      && (log[i].outcome.Stored? <==>
          |PacketBytes(log[i].event, Sub32(now, last))| <= Room(r, log[..i], evidence[i].read))
      && (log[i].outcome.Stored? ==> log[i].outcome.stamp == now)
  {
    hide PacketBytes;
    JustifiedAt(r, log, evidence, read, ticks, i);
    ReplayPrefix(r.t0, log, i);
  }

  lemma PacketSize(e: Event, delta: u32)
    ensures |PacketBytes(e, delta)| <= 4 + |e.payload| + QUANTA_U32
  {
    U32Length(delta);
  }

  lemma OverflowSize(drops: u32, delta: u32)
    ensures |PacketBytes(OverflowEvent(drops), delta)| <= 11
  {
    U32Length(drops);
    U32Length(delta);
  }

  /** Nothing is dropped unless less room is left in the ring than the largest packet needs. */
  lemma DroppedForLackOfRoom(r: Rules, front: seq<Entry>, e: Entry, v: Evidence)
    requires Judged(r, front, e, v) && 11 <= r.largest
    requires Dropped(e) || (e.Sync? && !e.stored)
    ensures Room(r, front, v.read) < r.largest
  {
    hide PacketBytes, OverflowEvent, Replay;
    var s, now := Replay(Initial(r.t0), front).value, r.clock(v.tick);
    if e.Request? && e.outcome.Lost? {
      PacketSize(e.event, Sub32(now, s.last));
    } else if e.Request? {
      OverflowSize(s.drops, Sub32(now, s.last));
    }
  }

  /** Nothing was dropped, not even a sync block. */
  predicate Lossless(log: seq<Entry>) {
    forall i :: 0 <= i < |log| ==> !Dropped(log[i]) && (log[i].Sync? ==> log[i].stored)
  }

  /** A host that empties the ring at each of its turns loses nothing, if the ring holds the largest packet. */
  lemma EagerHostsLoseNothing(r: Rules, log: seq<Entry>, evidence: seq<Evidence>, read: nat, ticks: nat)
    requires Justified(r, log, evidence, read, ticks) && r.eager && 11 <= r.largest < r.size
    ensures Lossless(log)
  {
    hide Judged;
    forall i | 0 <= i < |log|
      ensures !Dropped(log[i]) && (log[i].Sync? ==> log[i].stored)
    {
      JustifiedAt(r, log, evidence, read, ticks, i);
      if Dropped(log[i]) || (log[i].Sync? && !log[i].stored) {
        DroppedForLackOfRoom(r, log[..i], log[i], evidence[i]);
        EverythingRead(r, log[..i], log[i], evidence[i]);
      }
    }
  }

  lemma EverythingRead(r: Rules, front: seq<Entry>, e: Entry, v: Evidence)
    requires Judged(r, front, e, v) && r.eager && UsesRing(e)
    ensures Room(r, front, v.read) == r.size - 1
  {
  }

  /** Whatever the host does, nothing is lost as long as all bytes of the stream leave room for another packet. */
  lemma NothingLostBeforeFull(r: Rules, log: seq<Entry>, evidence: seq<Evidence>, read: nat, ticks: nat)
    requires Justified(r, log, evidence, read, ticks) && 11 <= r.largest && |StreamOf(log)| + r.largest < r.size
    ensures Lossless(log)
  {
    hide Judged, StreamOf;
    forall i | 0 <= i < |log|
      ensures !Dropped(log[i]) && (log[i].Sync? ==> log[i].stored)
    {
      JustifiedAt(r, log, evidence, read, ticks, i);
      StreamPrefix(log, i);
      if Dropped(log[i]) || (log[i].Sync? && !log[i].stored) {
        DroppedForLackOfRoom(r, log[..i], log[i], evidence[i]);
      }
    }
  }

  lemma {:induction false} StreamPrefix(log: seq<Entry>, i: nat)
    requires i <= |log|
    ensures |StreamOf(log[..i])| <= |StreamOf(log)|
  {
    hide EntryBytes;
    if i < |log| {
      StreamPrefix(log[..|log| - 1], i);
      assert log[..|log| - 1][..i] == log[..i];
    } else {
      assert log[..i] == log;
    }
  }

  lemma {:induction false} LosslessCounts(t0: u32, log: seq<Entry>)
    requires Lossless(log)
    ensures Count(t0, log).lost == Count(t0, log).refused == 0
  {
    if log != [] {
      LosslessCounts(t0, log[..|log| - 1]);
      assert !Dropped(log[|log| - 1]);
    }
  }
}
