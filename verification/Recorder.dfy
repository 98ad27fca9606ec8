/** The SystemView recorder: packets are built in a static buffer, stored in a ring, and after every
    packet a command of the host may be executed, which records packets of its own. */
module Recorder {
  import opened Bytes
  import opened RingModel
  import opened UpBuffer
  import opened DownBuffer
  import opened Commands
  import opened Codec
  import opened Packets
  import opened Trace
  import opened Masks
  import opened Decisions
  import opened Sessions
  import opened Meanings
  import opened Modules

  const DOWN_BUFFER_SIZE: nat := 8
  const ID_BASE: u32 := 0x1000_0000

  /** The bytes between two positions of a packet buffer. */
  function Slice(p: array<byte>, from: nat, to: nat): seq<byte>
    requires from <= to <= p.Length
    reads p
  {
    p[from..to]
  }

  class Recorder {
    const up: UpBuffer
    const down: DownBuffer
    const aPacket: array<byte>
    const registry: Registry

    var enableState: nat
    var recursionCnt: nat
    var dropCount: u32
    var lastTxTimeStamp: u32
    var disabledEvents: bv32
    var sysFreq: u32
    var cpuFreq: u32
    var ramBase: u32

    /** What the callbacks of the OS and the application record when they are called. */
    var sysDesc: seq<Recording>
    var taskList: seq<Recording>

    /** The clock: what its i-th reading yields. The OS may or may not offer a time of its own. */
    const clock: nat -> u32
    var clockReads: nat
    const osTime: Option<nat -> nat>
    var osReads: nat

    ghost const t0: u32
    ghost var log: seq<Entry>
    ghost var evidence: seq<Evidence>
    ghost var executed: seq<Executed>

    /** A bound on the packet buffers that are ever used; the application's own may be larger than the static one. */
    ghost const largest: nat

    /** Initialisation: recording is off and the clock is read once. */
    constructor (upSize: nat, take: nat -> nat, publish: nat -> seq<byte>, clock: nat -> u32,
                 osTime: Option<nat -> nat>, sysFreq: u32, cpuFreq: u32,
                 sysDesc: seq<Recording>, taskList: seq<Recording>, ghost largest: nat)
      requires 2 <= upSize < TWO32 && MAX_PACKET_SIZE <= largest
      ensures Valid() && log == [] && executed == [] && t0 == clock(0) && recursionCnt == 0
      ensures Globals() == Initial(t0) && clockReads == 1 && osReads == 0 && disabledEvents == 0
      ensures registry.list == [] && Settings() == Config(sysFreq, cpuFreq, ID_BASE, sysDesc, taskList, 0, [],
        TimeSource(clock, osTime), 0)
      ensures up.take == take && down.publish == publish && this.clock == clock && this.osTime == osTime
      ensures up.buf.Length == upSize && this.largest == largest && down.sent == down.taken == []
      ensures fresh(up) && fresh(up.buf) && fresh(down) && fresh(down.buf) && fresh(aPacket) && fresh(registry)
      ensures Framed(Snapshot())
    {
      up := new UpBuffer(upSize, MODE_NO_BLOCK_SKIP, take);
      down := new DownBuffer(DOWN_BUFFER_SIZE, publish);
      aPacket := new byte[MAX_PACKET_SIZE];
      registry := new Registry();
      this.clock, this.osTime := clock, osTime;
      clockReads, osReads := 1, 0;
      enableState, recursionCnt, dropCount, lastTxTimeStamp := OFF, 0, 0, clock(0);
      disabledEvents := 0;
      this.sysFreq, this.cpuFreq, ramBase := sysFreq, cpuFreq, ID_BASE;
      this.sysDesc, this.taskList := sysDesc, taskList;
      t0, log, evidence, executed, this.largest := clock(0), [], [], [], largest;
    }

    ghost predicate Wired()
      reads this, registry, set m | m in registry.list
    {
      && aPacket.Length == MAX_PACKET_SIZE
      && up.buf != down.buf && aPacket != up.buf && aPacket != down.buf
      && registry.Valid()
      && recursionCnt <= 1
    }

    ghost function Globals(): State
      reads this
    {
      State(enableState, dropCount, lastTxTimeStamp)
    }

    /** The globals are what the history leads to, and everything ever published in the up ring
        is exactly the stored packets and sync blocks of the history. */
    ghost predicate Valid()
      reads this, up, up.buf, down, down.buf, registry, set m | m in registry.list
    {
      && Wired() && up.Valid() && down.Valid()
      && Leads(t0, log, Globals())
      && up.accepted == StreamOf(log)
      && MAX_PACKET_SIZE <= largest && OnEvidence()
    }

    ghost function Circumstances(): Rules
      reads this, up
    {
      Rules(t0, clock, up.buf.Length, largest, up.Eager())
    }

    /** All outcomes in the history were decided on the room and the time there were. */
    ghost predicate OnEvidence()
      reads this, up
    {
      Justified(Circumstances(), log, evidence, |up.consumed|, clockReads)
    }

    /** A host that empties the ring at each of its turns has just had one. */
    ghost predicate CaughtUp()
      reads this, up
    {
      up.Eager() ==> up.consumed == up.accepted
    }

    ghost function Settings(): Config
      reads this, registry, set m | m in registry.list
    {
      Config(sysFreq, cpuFreq, ramBase, sysDesc, taskList, registry.numModules, ModuleInfos(registry.list),
        TimeSource(clock, osTime), disabledEvents)
    }

    /** The size of the overflow packet that would be sent now. */
    ghost function OverflowSize(): nat
      reads this
    {
      |PacketBytes(OverflowEvent(dropCount), Sub32(clock(clockReads), lastTxTimeStamp))|
    }

    /** How often the source of the reported times has been read. */
    ghost function Readings(): nat
      reads this
    {
      if osTime.Some? then osReads else clockReads
    }

    ghost function Snapshot(): Snap
      reads this, down, registry, set m | m in registry.list
    {
      Snap(t0, log, executed, down.sent, down.taken, recursionCnt, Settings(), Readings())
    }

    ghost predicate OwnBuffer(p: array<byte>) {
      p != up.buf && p != down.buf && p.Length < TWO32 && p.Length <= largest
    }

    // Elementary steps --------------------------------------------------------------------------

    method ReadClock() returns (t: u32)
      modifies this`clockReads
      ensures t == clock(old(clockReads)) && clockReads == old(clockReads) + 1
    {
      t := clock(clockReads);
      clockReads := clockReads + 1;
    }

    /** The host has its turn on the ring it reads. */
    method HostReads()
      requires Valid()
      modifies up
      ensures Valid() && CaughtUp() && old(up.Free()) <= up.Free()
    {
      hide Replay, StreamOf, DownBuffer.Valid, Registry.Valid, Justified;
      ghost var read := |up.consumed|;
      up.HostTurn();
      JustifiedLater(Circumstances(), log, evidence, read, clockReads, |up.consumed|, clockReads);
    }

    /** The host has its turn on both rings. */
    method HostTurn()
      requires Valid()
      modifies up, down, down.buf
      ensures Valid() && CaughtUp() && old(up.Free()) <= up.Free()
      ensures Snapshot() == old(Snapshot()).(sent := down.sent) && old(down.sent) <= down.sent
      ensures old(down.Unread()) <= down.Unread() && (down.WholeSchedule() ==> Complete(down.sent))
    {
      hide Replay, StreamOf, UpBuffer.Valid, Registry.Valid, OnEvidence;
      HostReads();
      down.HostTurn();
    }

    /** An entry that is made without any attempt to store something. */
    method Note(ghost e: Entry)
      requires Valid() && Step(Globals(), e).Some? && !UsesRing(e)
      requires e.Request? ==> 4 + |e.event.payload| + QUANTA_U32 <= largest
      modifies this`log, this`evidence
      ensures log == old(log) + [e] && Leads(t0, log, Step(Globals(), e).value)
      ensures up.accepted == StreamOf(log) && OnEvidence()
    {
      hide Replay, StreamOf, DownBuffer.Valid, Registry.Valid, Justified, Contents;
      ghost var v := Evidence(|up.consumed|, clockReads);
      LogGrows(t0, log, Globals(), e);
      StreamGrows(log, e);
      assert |StreamOf(log)| >= |up.consumed|;
      OneMoreJustified(Circumstances(), log, evidence, e, v, v.read, v.tick);
      log, evidence := log + [e], evidence + [v];
    }

    // Sending a packet --------------------------------------------------------------------------

    /** Store bytes in the up ring if they fit, and note what has become of them; tick is the number of the clock
        reading made for it. */
    method StoreSkip(bytes: seq<byte>, ghost yes: Entry, ghost no: Entry, ghost tick: nat) returns (stored: bool)
      requires up.Valid() && up.accepted == StreamOf(log) && CaughtUp() && Leads(t0, log, Globals())
      requires Justified(Circumstances(), log, evidence, |up.consumed|, tick)
      requires bytes == EntryBytes(yes) && EntryBytes(no) == []
      requires forall e :: e == yes || e == no ==>
        && tick + (if Timed(e) then 1 else 0) <= clockReads
        && (e.Request? ==> 4 + |e.event.payload| + QUANTA_U32 <= largest)
      requires RightEitherWay(Globals(), yes, no, |bytes|, clock(tick))
      modifies this`log, this`evidence, up, up.buf
      ensures up.Valid() && up.accepted == StreamOf(log) && OnEvidence()
      ensures stored <==> |bytes| <= old(up.Free())
      ensures log == old(log) + [if stored then yes else no]
      ensures old(up.Free()) <= up.Free() + (if stored then |bytes| else 0)
    {
      hide StreamOf, Contents, Store, Avail, Justified, Right, Replay;
      StreamGrows(log, yes);
      StreamGrows(log, no);
      ghost var read, room := |up.consumed|, up.Free();
      RoomIsFree();
      var status := up.WriteSkipNoLock(bytes);
      stored := status != 0;
      ghost var e, v := if stored then yes else no, Evidence(read, tick);
      assert Judged(Circumstances(), log, e, v);
      OneMoreJustified(Circumstances(), log, evidence, e, v, |up.consumed|, clockReads);
      log, evidence := log + [e], evidence + [v];
    }

    /** The free bytes of the ring, by what has been stored and read. */
    lemma RoomIsFree()
      requires up.Valid() && up.accepted == StreamOf(log)
      ensures up.Free() == Room(Circumstances(), log, |up.consumed|) && |up.consumed| <= |StreamOf(log)|
    {
    }

    /** Read the clock and build a packet with the number of drops in 11 bytes. */
    method BuildOverflowPacket() returns (timeStamp: u32, bytes: seq<byte>)
      requires Valid()
      modifies this`clockReads
      ensures Valid() && clockReads == old(clockReads) + 1 && timeStamp == clock(old(clockReads))
      ensures bytes == PacketBytes(OverflowEvent(dropCount), Sub32(timeStamp, lastTxTimeStamp))
      ensures Justified(Circumstances(), log, evidence, |up.consumed|, clockReads - 1)
    {
      hide Replay, StreamOf, PacketBytes, OverflowEvent, UpBuffer.Valid, DownBuffer.Valid, Registry.Valid, Justified;
      timeStamp := ReadClock();
      JustifiedLater(Circumstances(), log, evidence, |up.consumed|, clockReads - 1, |up.consumed|, clockReads);
      var p := new byte[11];
      var end := PutOverflow(p, dropCount, Sub32(timeStamp, lastTxTimeStamp));
      bytes := p[..end];
    }

    /** Try to store a packet with the number of drops. If it does not fit, the event that is to be sent
        is refused and counted. */
    method TrySendOverflowPacket(ghost event: Event) returns (sent: bool)
      requires Valid() && CaughtUp() && enableState == DROPPING && 4 + |event.payload| + QUANTA_U32 <= largest
      modifies this`clockReads, this`lastTxTimeStamp, this`enableState, this`dropCount, this`log, this`evidence
      modifies up, up.buf
      ensures Valid() && clockReads == old(clockReads) + 1
      ensures var delta := Sub32(clock(old(clockReads)), old(lastTxTimeStamp));
        var size := |PacketBytes(OverflowEvent(old(dropCount)), delta)|;
        && sent == (size <= old(up.Free()))
        && (sent ==> log == old(log) + [Overflow(old(dropCount), clock(old(clockReads)), delta)])
        && (sent ==> Globals() == State(ON, old(dropCount), clock(old(clockReads))))
        && old(up.Free()) <= up.Free() + (if sent then size else 0)
        && (!sent ==> log == old(log) + [Request(recursionCnt == 1, event, Refused)])
        && (!sent ==> Globals() == State(DROPPING, Add32(old(dropCount), 1), old(lastTxTimeStamp)))
    {
      hide Replay, StreamOf, PacketBytes, OverflowEvent, UpBuffer.Valid, DownBuffer.Valid, Registry.Valid, Avail;
      hide Justified, RightEitherWay;
      var timeStamp, bytes := BuildOverflowPacket();
      ghost var delta := Sub32(timeStamp, lastTxTimeStamp);
      ghost var yes, no := Overflow(dropCount, timeStamp, delta), Request(recursionCnt == 1, event, Refused);
      LogGrows(t0, log, Globals(), yes);
      LogGrows(t0, log, Globals(), no);
      OverflowIsRight(Globals(), recursionCnt == 1, event, timeStamp);
      sent := StoreSkip(bytes, yes, no, clockReads - 1);
      if sent {
        lastTxTimeStamp := timeStamp;
        enableState := enableState - 1;
      } else {
        dropCount := Add32(dropCount, 1);
      }
    }

    /** Complete a packet and try to store it. */
    method StorePacket(p: array<byte>, start: nat, end: nat, id: u32, ghost event: Event)
      requires Valid() && CaughtUp() && enableState == ON
      requires OwnBuffer(p) && 4 <= start <= end && end + QUANTA_U32 <= p.Length
      requires event == Event(id, Slice(p, start, end))
      modifies this`clockReads, this`lastTxTimeStamp, this`enableState, this`log, this`evidence, up, up.buf, p
      ensures Valid() && old(clockReads) <= clockReads
      ensures log == old(log) + [Request(recursionCnt == 1, event,
        Try(old(lastTxTimeStamp), event, false, clock(old(clockReads)), old(up.Free())))]
    {
      hide Replay, StreamOf, PacketBytes, Header, UpBuffer.Valid, DownBuffer.Valid, Registry.Valid, Avail, Justified;
      hide RightEitherWay;
      var timeStamp := ReadClock();
      var delta := Sub32(timeStamp, lastTxTimeStamp);
      var packet, packetEnd := Frame(p, start, end, id, delta);
      ghost var nested := recursionCnt == 1;
      ghost var yes, no := Request(nested, event, Stored(timeStamp, delta)), Request(nested, event, Lost);
      LogGrows(t0, log, Globals(), yes);
      LogGrows(t0, log, Globals(), no);
      PacketIsRight(Globals(), nested, event, timeStamp);
      var stored := StoreSkip(p[packet..packetEnd], yes, no, clockReads - 1);
      if stored {
        lastTxTimeStamp := timeStamp;
      } else {
        enableState := enableState + 1;
      }
    }

    /** Filter the event, or store it. */
    method Transmit(p: array<byte>, start: nat, end: nat, id: u32, ghost event: Event)
      requires Valid() && CaughtUp() && enableState == ON
      requires OwnBuffer(p) && 4 <= start <= end && end + QUANTA_U32 <= p.Length
      requires event == Event(id, Slice(p, start, end))
      modifies this`clockReads, this`lastTxTimeStamp, this`enableState, this`log, this`evidence, up, up.buf, p
      ensures Valid() && old(clockReads) <= clockReads
      ensures log == old(log) + [Request(recursionCnt == 1, event,
        Try(old(lastTxTimeStamp), event, Masked(disabledEvents, id), clock(old(clockReads)), old(up.Free())))]
    {
      hide Replay, StreamOf, PacketBytes, UpBuffer.Valid, DownBuffer.Valid, Registry.Valid, OnEvidence;
      if id < 32 && disabledEvents & (1 << id) != 0 {
        Note(Request(recursionCnt == 1, event, Filtered));
      } else {
        StorePacket(p, start, end, id, event);
      }
    }

    /** The store part of sending a packet, depending on EnableState. */
    method Attempted(p: array<byte>, start: nat, end: nat, id: u32, ghost event: Event) returns (ghost room: nat)
      requires Valid() && CaughtUp()
      requires OwnBuffer(p) && 4 <= start <= end && end + QUANTA_U32 <= p.Length
      requires event == Event(id, Slice(p, start, end))
      modifies this`clockReads, this`lastTxTimeStamp, this`enableState, this`dropCount, this`log, this`evidence
      modifies up, up.buf, p
      ensures Valid()
      ensures log == old(log) + Attempt(old(Globals()), recursionCnt == 1, event, Masked(disabledEvents, id),
        clock(old(clockReads)), clock(old(clockReads) + 1), old(up.Free()), room)
      ensures old(clockReads) <= clockReads
      ensures old(up.Free()) <= room + old(OverflowSize())
    {
      hide Replay, StreamOf, UpBuffer.Valid, DownBuffer.Valid, Registry.Valid, Avail, Try, OnEvidence;
      EnableStates(t0, log, Globals());
      room := up.Free();
      if enableState == ON {
        Transmit(p, start, end, id, event);
        return;
      }
      if enableState == OFF {
        Note(Request(recursionCnt == 1, event, Ignored));
        return;
      }
      var sent := TrySendOverflowPacket(event);
      if sent {
        HostReads();
        room := up.Free();
        Transmit(p, start, end, id, event);
      }
    }

    /** The first part of sending a packet: store it, filter it or drop it. */
    method Submit(p: array<byte>, start: nat, end: nat, id: u32) returns (ghost own: seq<Entry>, ghost room: (nat, nat))
      requires Valid()
      requires OwnBuffer(p) && 4 <= start <= end && end + QUANTA_U32 <= p.Length
      modifies this`clockReads, this`lastTxTimeStamp, this`enableState, this`dropCount, this`log, this`evidence
      modifies up, up.buf, down, down.buf, p
      ensures Valid() && old(down.Unread()) <= down.Unread()
      ensures own == Attempt(old(Globals()), recursionCnt == 1, Event(id, old(Slice(p, start, end))),
        Masked(disabledEvents, id), clock(old(clockReads)), clock(old(clockReads) + 1), room.0, room.1)
      ensures Snapshot() == old(Snapshot()).(log := old(log) + own, readings := Readings(), sent := down.sent)
      ensures old(Readings()) <= Readings()
      ensures old(down.sent) <= down.sent && (down.WholeSchedule() ==> Complete(down.sent))
      ensures old(up.Free()) <= room.0 <= room.1 + old(OverflowSize())
    {
      hide Attempt, Masked, PacketBytes, UpBuffer.Valid, DownBuffer.Valid, DownBuffer.Unread, Registry.Valid;
      hide Replay, StreamOf, OnEvidence;
      HostTurn();
      ghost var room1 := up.Free();
      ghost var event, s, c := Event(id, Slice(p, start, end)), Globals(), clockReads;
      ghost var room2 := Attempted(p, start, end, id, event);
      own := Attempt(s, recursionCnt == 1, event, Masked(disabledEvents, id), clock(c), clock(c + 1), room1, room2);
      room := (room1, room2);
    }

    /** The second part: see whether the host has sent a command. This is done after every packet, but
        not for packets that are sent on behalf of a command. */
    method CheckHost()
      requires Valid()
      modifies this, up, up.buf, down, down.buf, aPacket
      ensures Valid()
      ensures Does(old(Snapshot()), Snapshot(), [], down.WholeSchedule())
      ensures |executed| <= |old(executed)| + 1
      ensures recursionCnt == 0 && old(down.Unread()) != [] ==> |executed| == |old(executed)| + 1
      decreases 1 - recursionCnt, 1
    {
      hide UpBuffer.Valid, DownBuffer.Valid, DownBuffer.Unread, Registry.Valid, Replay, StreamOf, Does, OnEvidence;
      hide ModuleInfos;
      ghost var a, whole := Snapshot(), down.WholeSchedule();
      HostTurn();
      ghost var b := Snapshot();
      NothingDoes(b, whole);
      var hasData := down.HasData();
      if hasData {
        if recursionCnt == 0 {
          HandleWaiting();
        }
      }
      DoesMeanwhile(a, Snapshot(), [], whole, a.readings, b.sent);
    }

    /** Execute the command that is waiting, counting the recursion. */
    method HandleWaiting()
      requires Valid() && recursionCnt == 0 && down.Unread() != []
      modifies this, up, up.buf, down, down.buf, aPacket
      ensures Valid() && |executed| == |old(executed)| + 1
      ensures Does(old(Snapshot()), Snapshot(), [], down.WholeSchedule())
      decreases 1 - recursionCnt, 0
    {
      hide UpBuffer.Valid, DownBuffer.Valid, DownBuffer.Unread, Registry.Valid, Replay, StreamOf, Does, Justified;
      hide Handled, ModuleInfos;
      ghost var b, whole := Snapshot(), down.WholeSchedule();
      recursionCnt := 1;
      ghost var x := HandleIncomingPacket();
      ghost var c := Snapshot();
      recursionCnt := 0;
      HandledKeeps(b.(depth := 1), c, x, whole);
      assert Snapshot() == c.(depth := 0) && c.depth == 1;
      HandledDoes(b, Snapshot(), x, whole);
    }

    /** Send the packet whose payload lies between start and end of p: store it, filter it or drop it, and then
        execute a waiting command of the host, unless this is already done on behalf of one. */
    method SendPacket(p: array<byte>, start: nat, end: nat, id: u32)
      returns (ghost own: seq<Entry>, ghost room: (nat, nat))
      requires Valid()
      requires OwnBuffer(p) && 4 <= start <= end && end + QUANTA_U32 <= p.Length
      modifies this, up, up.buf, down, down.buf, aPacket, p
      ensures Valid()
      ensures Follows(old(Snapshot()), Snapshot(), [Send(Event(id, old(Slice(p, start, end))))], down.WholeSchedule())
      ensures own == Attempt(old(Globals()), recursionCnt == 1, Event(id, old(Slice(p, start, end))),
        old(Masked(disabledEvents, id)), clock(old(clockReads)), clock(old(clockReads) + 1), room.0, room.1)
      ensures old(log) + own <= log
      ensures old(up.Free()) <= room.0 <= room.1 + old(OverflowSize())
      ensures |executed| <= |old(executed)| + 1
      ensures recursionCnt == 0 && old(down.Unread()) != [] ==> |executed| == |old(executed)| + 1
      decreases 1 - recursionCnt, 2
    {
      hide StreamOf, Replay, Attempt, PacketBytes, Does, Follows, OnEvidence, Masked;
      hide UpBuffer.Valid, DownBuffer.Valid, DownBuffer.Unread, Registry.Valid;
      ghost var a, s, event := Snapshot(), Globals(), Event(id, Slice(p, start, end));
      ghost var c, whole, unread := clockReads, down.WholeSchedule(), down.Unread();
      own, room := Submit(p, start, end, id);
      ghost var b := Snapshot();
      AttemptDoes(a, s, event, clock(c), clock(c + 1), room.0, room.1, Readings(), down.sent, whole);
      CheckHost();
      DoesThen(a, b, Snapshot(), [Send(event)], [], whole);
      assert [Send(event)] + [] == [Send(event)];
      DoesKeeps(a, b, [Send(event)], whole);
      DoesKeeps(b, Snapshot(), [], whole);
      DoesKeeps(a, Snapshot(), [Send(event)], whole);
      assert unread == [] ==> a.taken == a.sent;
      SendFollows(a, Snapshot(), event, whole);
    }

    // Commands ----------------------------------------------------------------------------------

    /** The bytes of a command that have been read. */
    function BytesOf(cmd: byte, parameter: Option<byte>): seq<byte> {
      [cmd] + match parameter case None => [] case Some(b) => [b]
    }

    /** Read one byte, if there is one; the host may have added to them until just now. */
    method ReadByte() returns (b: Option<byte>)
      requires down.Valid()
      modifies down, down.buf
      ensures down.Valid() && down.taken == old(down.taken) + match b case None => [] case Some(x) => [x]
      ensures old(down.sent) <= down.sent
      ensures old(down.Unread()) != [] ==>
        b == Some(old(down.Unread())[0]) && old(down.Unread())[1..] <= down.Unread()
    {
      hide DownBuffer.Valid, DownBuffer.Unread, DownBuffer.HostOnly, Contents;
      ghost var unread := down.Unread();
      HostAdds();
      ghost var more := down.Unread();
      var data := down.ReadNoLock(1);
      b := if data == [] then None else Some(data[0]);
      if unread != [] {
        assert data == more[..1] && more[0] == unread[0];
        assert unread[1..] <= more[1..];
      }
    }

    /** The host's turn on the ring of commands. */
    method HostAdds()
      requires down.Valid()
      modifies down, down.buf
      ensures down.Valid() && old(down.Unread()) <= down.Unread() && down.taken == old(down.taken)
      ensures old(down.sent) <= down.sent
    {
      down.HostTurn();
    }

    /** Read a command and, for codes from 128 on, its parameter if it has arrived. */
    method ReadCommand() returns (cmd: byte, parameter: Option<byte>)
      requires down.Valid() && down.Unread() != []
      modifies down, down.buf
      ensures down.Valid() && down.taken == old(down.taken) + BytesOf(cmd, parameter) && old(down.sent) <= down.sent
      ensures cmd == old(down.Unread())[0] && (parameter.Some? ==> 128 <= cmd)
      ensures 128 <= cmd && 2 <= |old(down.Unread())| ==> parameter == Some(old(down.Unread())[1])
      ensures down.WholeSchedule() && Complete(old(down.taken)) && 128 <= cmd ==> parameter.Some?
    {
      ghost var taken, unread := down.taken, down.Unread();
      assert down.WholeSchedule() && Complete(taken) ==> Complete(unread) by {
        if down.WholeSchedule() && Complete(taken) {
          CompleteConcat(taken, unread);
        }
      }
      assert Complete(unread) && 128 <= unread[0] ==> 2 <= |unread|;
      var first := ReadByte();
      cmd, parameter := first.value, None;
      if cmd >= 128 {
        parameter := ReadByte();
      }
      assert down.taken == taken + BytesOf(cmd, parameter);
    }

    /** Read one command and execute it. */
    method HandleIncomingPacket() returns (ghost x: Executed)
      requires Valid() && recursionCnt == 1 && down.Unread() != []
      modifies this, up, up.buf, down, down.buf, aPacket
      ensures Valid()
      ensures Handled(old(Snapshot()), Snapshot(), x, down.WholeSchedule())
      ensures x.command.code == old(down.Unread())[0] && x.wasOff == (old(enableState) == OFF)
      ensures TellsReply(x, Script(x))
      decreases 1 - recursionCnt, 11
    {
      hide UpBuffer.Valid, DownBuffer.Valid, Registry.Valid, Replay, StreamOf, Justified, ModuleInfos;
      hide Follows, Script, TimeIsNew, Complete, Decode;
      ghost var a, whole := Snapshot(), down.WholeSchedule();
      ghost var at, off, config, readings := |log|, enableState == OFF, Settings(), Readings();
      var cmd, parameter := ReadCommand();
      ghost var bytes, sent := BytesOf(cmd, parameter), down.sent;
      ghost var tick := Execute(cmd, parameter);
      x := Executed(Command(cmd, parameter), at, off, config, readings, tick);
      ghost var b := Snapshot();
      FollowsKeeps(a.(taken := a.taken + bytes, sent := sent), b, Script(x), whole);
      SentWhole();
      HandledBy(a, b, x, bytes, sent, whole);
      ReplyTells(x);
      executed := executed + [x];
    }

    /** Do what a command asks for. */
    method Execute(cmd: byte, parameter: Option<byte>) returns (ghost tick: nat)
      requires Valid() && recursionCnt == 1
      modifies this, up, up.buf, down, down.buf, aPacket
      ensures Valid()
      ensures var x := Executed(Command(cmd, parameter), |old(log)|, old(enableState) == OFF, old(Settings()),
          old(Readings()), tick);
        Follows(old(Snapshot()), Snapshot(), Script(x), down.WholeSchedule()) && TimeIsNew(x, Readings())
      decreases 1 - recursionCnt, 10
    {
      hide Recorder.Valid, Follows;
      FollowsNothing(Snapshot(), down.WholeSchedule());
      tick := 0;
      if cmd == START {
        tick := Start();
      } else if cmd == STOP {
        Stop();
      } else if cmd == GET_SYSTIME {
        tick := RecordSystime();
      } else if cmd == GET_TASKLIST {
        SendAll(taskList);
      } else if cmd == GET_SYSDESC {
        GetSysDesc();
      } else if cmd == GET_NUMMODULES {
        SendNumModules();
      } else if cmd == GET_MODULEDESC {
        SendModuleDescription();
      } else if cmd == GET_MODULE && parameter.Some? {
        SendModule(parameter.value);
      }
    }

    // Recording functions -----------------------------------------------------------------------

    /** Encode fields into the static buffer, behind the header reserve. */
    method Encode(fields: seq<Field>) returns (end: nat)
      requires aPacket.Length == MAX_PACKET_SIZE && 4 + |EncodeFields(fields)| + QUANTA_U32 <= MAX_PACKET_SIZE
      modifies aPacket
      ensures 4 <= end && end + QUANTA_U32 <= MAX_PACKET_SIZE && aPacket[4..end] == EncodeFields(fields)
    {
      hide EncodeFields, EncodeField;
      end := 4;
      assert EncodeFields(fields[..0]) == [] by { EncodeNothing(); }
      for i := 0 to |fields|
        invariant end == 4 + |EncodeFields(fields[..i])| <= aPacket.Length
        invariant aPacket[4..end] == EncodeFields(fields[..i])
      {
        EncodeFieldsPrefix(fields, i);
        ghost var front := aPacket[..end];
        end := PutField(aPacket, end, fields[i]);
        assert aPacket[4..end] == aPacket[..end][4..];
        assert aPacket[4..end] == front[4..] + EncodeField(fields[i]);
      }
      assert fields[..|fields|] == fields;
    }

    /** Send what has been built in the static buffer. */
    method SendOwn(end: nat, id: u32)
      requires Valid() && 4 <= end && end + QUANTA_U32 <= MAX_PACKET_SIZE
      modifies this, up, up.buf, down, down.buf, aPacket
      ensures Valid()
      ensures Follows(old(Snapshot()), Snapshot(), [Send(Event(id, old(Slice(aPacket, 4, end))))],
        down.WholeSchedule())
      decreases 1 - recursionCnt, 3
    {
      hide UpBuffer.Valid, DownBuffer.Valid, Registry.Valid, Replay, StreamOf, OnEvidence, Follows, Attempt, Masked;
      hide PacketBytes, ModuleInfos;
      ghost var own, room := SendPacket(aPacket, 4, end, id);
    }

    /** The common form of all recording functions. The packet is the one that was encoded here, although
        the command that may be executed afterwards reuses the buffer. */
    method Record(id: u32, fields: seq<Field>)
      requires Valid() && 4 + |EncodeFields(fields)| + QUANTA_U32 <= MAX_PACKET_SIZE
      modifies this, up, up.buf, down, down.buf, aPacket
      ensures Valid()
      ensures Follows(old(Snapshot()), Snapshot(), [Ask(id, fields)], down.WholeSchedule())
      decreases 1 - recursionCnt, 4
    {
      hide UpBuffer.Valid, DownBuffer.Valid, Registry.Valid, Replay, StreamOf, OnEvidence, Follows, EncodeFields;
      var end := Encode(fields);
      SendOwn(end, id);
    }

    /** Record what a callback records. */
    method SendAll(rs: seq<Recording>)
      requires Valid()
      modifies this, up, up.buf, down, down.buf, aPacket
      ensures Valid()
      ensures Follows(old(Snapshot()), Snapshot(), Sends(rs), down.WholeSchedule())
      decreases 1 - recursionCnt, 5
    {
      hide Recorder.Valid, EncodeFields;
      ghost var a, whole := Snapshot(), down.WholeSchedule();
      FollowsNothing(a, whole);
      NoSends(rs);
      for i := 0 to |rs|
        invariant Valid() && Follows(a, Snapshot(), Sends(rs[..i]), whole) && recursionCnt == old(recursionCnt)
      {
        ghost var b := Snapshot();
        SendsStep(rs, i);
        Record(rs[i].id, rs[i].fields);
        FollowsKeeps(b, Snapshot(), [Send(EventOf(rs[i]))], whole);
        FollowsThen(a, b, Snapshot(), Sends(rs[..i]), [Send(EventOf(rs[i]))], whole);
      }
      assert rs[..|rs|] == rs;
    }

    /** Read the time of the OS in microseconds, or else the clock. */
    method ReadTime() returns (id: u32, fields: seq<Field>, ghost tick: nat)
      requires Valid()
      modifies this`clockReads, this`osReads
      ensures Valid() && tick == old(Readings()) && Snapshot() == old(Snapshot()).(readings := tick + 1)
      ensures Ask(id, fields) == TimeAt(Settings().source, tick)
      ensures 4 + |EncodeFields(fields)| + QUANTA_U32 <= MAX_PACKET_SIZE
    {
      hide UpBuffer.Valid, DownBuffer.Valid, Registry.Valid, Replay, StreamOf, Justified, ModuleInfos, EncodeFields;
      tick := Readings();
      match osTime {
        case Some(read) =>
          var t := read(osReads);
          osReads := osReads + 1;
          id, fields := EVTID_SYSTIME_US, [Num(U32(t)), Num(U32(t / TWO32))];
        case None =>
          var t := ReadClock();
          JustifiedLater(Circumstances(), log, evidence, |up.consumed|, clockReads - 1, |up.consumed|, clockReads);
          id, fields := EVTID_SYSTIME_CYCLES, [Num(t)];
      }
      NumbersBound(fields);
    }

    /** Report the time as it is when the report is made. */
    method RecordSystime() returns (ghost tick: nat)
      requires Valid()
      modifies this, up, up.buf, down, down.buf, aPacket
      ensures Valid() && tick == old(Readings()) < Readings()
      ensures Follows(old(Snapshot()), Snapshot(), [TimeAt(old(Settings()).source, tick)], down.WholeSchedule())
      decreases 1 - recursionCnt, 5
    {
      hide Recorder.Valid, ModuleInfos, Follows, EncodeFields, TimeAt;
      ghost var a, whole := Snapshot(), down.WholeSchedule();
      var id, fields;
      id, fields, tick := ReadTime();
      Record(id, fields);
      ghost var acts := [TimeAt(a.config.source, tick)];
      FollowsKeeps(a.(readings := tick + 1), Snapshot(), acts, whole);
      FollowsTick(a, Snapshot(), acts, whole, tick + 1);
    }

    method RecordInit()
      requires Valid()
      modifies this, up, up.buf, down, down.buf, aPacket
      ensures Valid()
      ensures Follows(old(Snapshot()), Snapshot(), [Ask(EVTID_INIT, InitFields(old(Settings())))], down.WholeSchedule())
      decreases 1 - recursionCnt, 5
    {
      hide Recorder.Valid, Follows, ModuleInfos, EncodeFields;
      var fields := [Num(sysFreq), Num(cpuFreq), Num(ramBase), Num(ID_SHIFT)];
      NumbersBound(fields);
      Record(EVTID_INIT, fields);
    }

    method SendNumModules()
      requires Valid()
      modifies this, up, up.buf, down, down.buf, aPacket
      ensures Valid()
      ensures Follows(old(Snapshot()), Snapshot(), [Ask(EVTID_NUMMODULES, [Num(old(Settings()).numModules)])],
        down.WholeSchedule())
      decreases 1 - recursionCnt, 5
    {
      hide Recorder.Valid, Follows, ModuleInfos, EncodeFields;
      var fields := [Num(registry.numModules)];
      NumbersBound(fields);
      Record(EVTID_NUMMODULES, fields);
    }

    method GetSysDesc()
      requires Valid()
      modifies this, up, up.buf, down, down.buf, aPacket
      ensures Valid()
      ensures Follows(old(Snapshot()), Snapshot(),
        [Ask(EVTID_INIT, InitFields(old(Settings())))] + Sends(old(Settings()).sysDesc), down.WholeSchedule())
      decreases 1 - recursionCnt, 6
    {
      ghost var a, whole := Snapshot(), down.WholeSchedule();
      ghost var init := [Ask(EVTID_INIT, InitFields(a.config))];
      RecordInit();
      ghost var b := Snapshot();
      FollowsKeeps(a, b, init, whole);
      SendAll(sysDesc);
      FollowsThen(a, b, Snapshot(), init, Sends(a.config.sysDesc), whole);
    }

    /** Send the name and the event offset of the module with the given index, if there is one. */
    method SendModule(id: byte)
      requires Valid()
      modifies this, up, up.buf, down, down.buf, aPacket
      ensures Valid()
      ensures Follows(old(Snapshot()), Snapshot(), ModuleScript(old(Settings()), id), down.WholeSchedule())
      decreases 1 - recursionCnt, 5
    {
      hide Follows, EncodeFields, Chained;
      FollowsNothing(Snapshot(), down.WholeSchedule());
      var m := registry.Find(id);
      if m != null {
        ModuleFieldsFit(id, m.eventOffset, m.name);
        Record(EVTID_MODULEDESC, [Num(id), Num(m.eventOffset), Text(m.name, MAX_STRING_LEN)]);
      }
    }

    /** Let every module describe itself. */
    method SendModuleDescription()
      requires Valid()
      modifies this, up, up.buf, down, down.buf, aPacket
      ensures Valid()
      ensures Follows(old(Snapshot()), Snapshot(), Descriptions(old(Settings()).modules), down.WholeSchedule())
      decreases 1 - recursionCnt, 6
    {
      hide UpBuffer.Valid, DownBuffer.Valid, Registry.Valid, Replay, StreamOf, OnEvidence, Follows, Descriptions;
      hide Sends;
      ghost var a, whole, ms := Snapshot(), down.WholeSchedule(), Settings().modules;
      FollowsNothing(a, whole);
      DescriptionsEnds(ms);
      var m := registry.First();
      ghost var k, done := 0, [];
      while m != null
        invariant Valid() && recursionCnt == a.depth && k <= |ms| == |registry.list| && m == registry.At(k)
        invariant Follows(a, Snapshot(), done, whole)
        invariant done + Descriptions(ms[k..]) == Descriptions(ms)
        decreases |ms| - k
      {
        ghost var b := Snapshot();
        DescriptionsStep(ms, k);
        assert m == ms[k].m;
        SendAll(m.description);
        FollowsKeeps(b, Snapshot(), Sends(m.description), whole);
        FollowsThen(a, b, Snapshot(), done, Sends(m.description), whole);
        done := done + Sends(m.description);
        m := registry.After(m, k);
        k := k + 1;
      }
      assert k == |ms| && done + [] == done;
    }

    // Start and stop ----------------------------------------------------------------------------

    /** Turn recording on and try to store the sync bytes. */
    method Begin()
      requires Valid() && CaughtUp() && enableState == OFF
      modifies this`enableState, this`log, this`evidence, up, up.buf
      ensures Valid() && enableState == ON
      ensures var n := recursionCnt == 1; log == old(log) + [Started(n), Sync(n, |SYNC| <= old(up.Free()))]
    {
      hide UpBuffer.Valid, DownBuffer.Valid, Registry.Valid, Replay, StreamOf, Justified;
      ghost var n := recursionCnt == 1;
      Note(Started(n));
      enableState := ON;
      ghost var yes, no := Sync(n, true), Sync(n, false);
      LogGrows(t0, log, Globals(), yes);
      LogGrows(t0, log, Globals(), no);
      var stored := StoreSkip(SYNC, yes, no, clockReads);
    }

    /** Send everything a host needs to know at the start of a recording. */
    method Introduce() returns (ghost tick: nat)
      requires Valid()
      modifies this, up, up.buf, down, down.buf, aPacket
      ensures Valid() && old(Readings()) <= tick < Readings()
      ensures Follows(old(Snapshot()), Snapshot(), Introduction(old(Settings()), tick), down.WholeSchedule())
      decreases 1 - recursionCnt, 7
    {
      hide Recorder.Valid, TimeAt;
      ghost var a, whole := Snapshot(), down.WholeSchedule();
      ghost var c := a.config;
      assert EncodeFields([]) == [] by { EncodeNothing(); }
      Record(EVTID_TRACE_START, []);
      ghost var b, done := Snapshot(), [Ask(EVTID_TRACE_START, [])];
      FollowsKeeps(a, b, done, whole);
      GetSysDesc();
      ghost var acts := [Ask(EVTID_INIT, InitFields(c))] + Sends(c.sysDesc);
      b := Proceed(a, b, done, acts, whole);
      done := done + acts;
      tick := RecordSystime();
      acts := [TimeAt(c.source, tick)];
      b := Proceed(a, b, done, acts, whole);
      done := done + acts;
      SendAll(taskList);
      acts := Sends(c.taskList);
      b := Proceed(a, b, done, acts, whole);
      done := done + acts;
      SendNumModules();
      b := Proceed(a, b, done, [Ask(EVTID_NUMMODULES, [Num(c.numModules)])], whole);
    }

    /** Start recording: sync bytes, and everything a host needs to know. Nothing happens when recording is on. */
    method Start() returns (ghost tick: nat)
      requires Valid()
      modifies this, up, up.buf, down, down.buf, aPacket
      ensures Valid()
      ensures Follows(old(Snapshot()), Snapshot(),
        if old(enableState) == OFF then StartScript(old(Settings()), tick) else [], down.WholeSchedule())
      ensures old(enableState) == OFF ==> old(Readings()) <= tick < Readings()
      decreases 1 - recursionCnt, 8
    {
      hide Registry.Valid, StreamOf, Introduction;
      ghost var a, whole := Snapshot(), down.WholeSchedule();
      FollowsNothing(a, whole);
      tick := 0;
      if enableState == OFF {
        HostReads();
        ghost var stored := |SYNC| <= up.Free();
        Begin();
        ghost var b := Snapshot();
        FollowsStart(a, b, stored, whole);
        tick := Introduce();
        FollowsThen(a, b, Snapshot(), [TurnOn, SendSync], Introduction(a.config, tick), whole);
      }
    }

    /** Stop recording; a last packet says so, if it can be stored. */
    method Stop()
      requires Valid()
      modifies this, up, up.buf, down, down.buf, aPacket
      ensures Valid() && enableState == OFF
      ensures Follows(old(Snapshot()), Snapshot(), if old(enableState) == OFF then [] else StopScript(),
        down.WholeSchedule())
      decreases 1 - recursionCnt, 8
    {
      hide UpBuffer.Valid, DownBuffer.Valid, Registry.Valid, Replay, StreamOf, Justified, ModuleInfos;
      hide Follows, EncodeFields;
      ghost var a, whole := Snapshot(), down.WholeSchedule();
      FollowsNothing(a, whole);
      if enableState != OFF {
        assert EncodeFields([]) == [] by { EncodeNothing(); }
        Record(EVTID_TRACE_STOP, []);
        ghost var b, entry := Snapshot(), Stopped(recursionCnt == 1);
        Note(entry);
        enableState := OFF;
        FollowsEntry(b, entry, whole);
        FollowsThen(a, b, Snapshot(), [Ask(EVTID_TRACE_STOP, [])], [TurnOff], whole);
        assert [Ask(EVTID_TRACE_STOP, [])] + [TurnOff] == StopScript();
      }
    }

    // Calls that do more than record once -------------------------------------------------------

    /** Task information goes into two packets that are built one after the other in the same buffer. */
    method SendTaskInfo(task: u32, prio: u32, name: seq<byte>, stackBase: u32, stackSize: u32)
      requires Valid()
      modifies this, up, up.buf, down, down.buf, aPacket
      ensures Valid()
      ensures Follows(old(Snapshot()), Snapshot(),
        TaskInfoActs(old(Settings()), task, prio, name, stackBase, stackSize), down.WholeSchedule())
    {
      hide Recorder.Valid, Follows, ModuleInfos, EncodeFields;
      ghost var a, whole := Snapshot(), down.WholeSchedule();
      var id := ShrinkId(task, ramBase);
      var info, stack := [Num(id), Num(prio), Text(name, 32)], [Num(id), Num(stackBase), Num(stackSize), Num(0)];
      TaskInfoFits(info);
      NumbersBound(stack);
      Record(EVTID_TASK_INFO, info);
      ghost var b := Snapshot();
      Record(EVTID_STACK_INFO, stack);
      ghost var first, second := [Ask(EVTID_TASK_INFO, info)], [Ask(EVTID_STACK_INFO, stack)];
      b := Proceed(a, b, first, second, whole);
      assert first + second == [first[0], second[0]];
    }

    /** A description of a module, under the index by which the host can ask for the module. */
    method RecordModuleDescription(m: Module, text: seq<byte>) returns (ghost id: byte)
      requires Valid() && registry.first != null
      modifies this, up, up.buf, down, down.buf, aPacket
      ensures Valid()
      ensures Follows(old(Snapshot()), Snapshot(), [Ask(EVTID_MODULEDESC, ModuleFields(id, m.eventOffset, text))],
        down.WholeSchedule())
      ensures var ms := old(Settings()).modules;
        && (forall k :: 0 <= k < |ms| && ms[k].m == m ==> id == U8(k) && m.eventOffset == ms[k].offset)
        && ((forall k :: 0 <= k < |ms| ==> ms[k].m != m) ==> id == U8(|ms|))
      ensures m in registry.list && |registry.list| <= 256 ==> registry.At(id) == m
    {
      hide StreamOf, Follows, EncodeFields;
      var index := registry.IndexToSend(m);
      id := index;
      ModuleFieldsFit(id, m.eventOffset, text);
      Record(EVTID_MODULEDESC, [Num(index), Num(m.eventOffset), Text(text, MAX_STRING_LEN)]);
    }

    // The application's other calls -------------------------------------------------------------

    method EnableEvents(mask: bv32)
      requires Valid()
      modifies this`disabledEvents
      ensures Valid() && disabledEvents == old(disabledEvents) & !mask
      ensures Snapshot() == old(Snapshot()).(config := old(Settings()).(disabled := old(disabledEvents) & !mask))
    {
      disabledEvents := disabledEvents & !mask;
    }

    method DisableEvents(mask: bv32)
      requires Valid()
      modifies this`disabledEvents
      ensures Valid() && disabledEvents == old(disabledEvents) | mask
      ensures Snapshot() == old(Snapshot()).(config := old(Settings()).(disabled := old(disabledEvents) | mask))
    {
      disabledEvents := disabledEvents | mask;
    }

    method SetRAMBase(base: u32)
      requires Valid()
      modifies this`ramBase
      ensures Valid() && Snapshot() == old(Snapshot()).(config := old(Settings()).(ramBase := base))
    {
      ramBase := base;
    }

    /** Register a module and announce it to the host. */
    method RegisterModule(m: Module)
      requires Valid() && m !in registry.list
      modifies this, up, up.buf, down, down.buf, aPacket, registry, m
      ensures Valid() && registry.list == [m] + old(registry.list)
      ensures var c := WithModule(old(Settings()), m);
        Follows(old(Snapshot()).(config := c), Snapshot(), ModuleScript(c, 0) + Sends(m.description),
          down.WholeSchedule())
    {
      hide DownBuffer.Valid, Registry.Valid, Replay, StreamOf, Follows;
      registry.Register(m);
      ghost var a, whole := Snapshot(), down.WholeSchedule();
      ghost var acts := ModuleScript(a.config, 0);
      assert a.config == WithModule(old(Settings()), m);
      SendModule(0);
      ghost var b := Snapshot();
      FollowsKeeps(a, b, acts, whole);
      SendAll(m.description);
      b := Proceed(a, b, acts, Sends(m.description), whole);
    }

    /** EnableState and the module list, as far as the history and the settings tell them. */
    lemma Known()
      requires Valid()
      ensures IsOff(t0, log) <==> enableState == OFF
      ensures registry.list != [] ==> registry.first != null
    {
    }

    lemma SentWhole()
      requires Valid()
      ensures down.WholeSchedule() ==> Complete(down.sent)
    {
    }

    /** One more step. */
    lemma Proceed(a: Snap, b: Snap, done: seq<Act>, acts: seq<Act>, whole: bool) returns (c: Snap)
      requires Follows(a, b, done, whole) && Follows(b, Snapshot(), acts, whole)
      ensures c == Snapshot() && Later(a, c) && Later(b, c) && Follows(a, c, done + acts, whole)
    {
      c := Snapshot();
      FollowsThen(a, b, c, done, acts, whole);
    }
  }

  ghost function ModuleInfos(ms: seq<Module>): (r: seq<ModuleInfo>)
    reads set m | m in ms
    ensures |r| == |ms|
  {
    seq(|ms|, i requires 0 <= i < |ms| reads set m | m in ms => ModuleInfo(ms[i], ms[i].eventOffset))
  }

  // In-place framing ------------------------------------------------------------------------------

  /** Write v in front of position at of a packet. */
  method PutBackwards(p: array<byte>, at: nat, v: u32) returns (start: nat)
    requires 2 <= at <= p.Length
    modifies p
    ensures start + |Backfill(v)| == at
    ensures p[start..] == Backfill(v) + old(p[at..])
  {
    start := at;
    if v > 127 {
      start := start - 1;
      p[start] := v / 128 % 256;
      start := start - 1;
      p[start] := v % 128 + 128;
    } else {
      start := start - 1;
      p[start] := v;
    }
  }

  /** Put id and length in front of the payload, in the 4 bytes reserved for them. */
  method PutHeader(p: array<byte>, start: nat, end: nat, id: u32) returns (packet: nat)
    requires 4 <= start <= end <= p.Length < TWO32
    modifies p
    ensures packet + |Header(id, end - start)| == start
    ensures p[packet..] == Header(id, end - start) + old(p[start..])
  {
    packet := start;
    if id < FIRST_WITH_LENGTH {
      packet := packet - 1;
      p[packet] := id;
    } else {
      packet := PutBackwards(p, packet, end - start);
      packet := PutBackwards(p, packet, id);
    }
  }

  /** An overflow packet never needs more than 11 bytes. */
  method PutOverflow(p: array<byte>, drops: u32, delta: u32) returns (end: nat)
    requires p.Length == 11
    modifies p
    ensures end <= p.Length && p[..end] == PacketBytes(OverflowEvent(drops), delta)
  {
    p[0] := EVTID_OVERFLOW;
    end := PutU32(p, 1, drops);
    end := PutU32(p, end, delta);
  }

  /** Complete a packet in place: header in front, time behind. */
  method Frame(p: array<byte>, start: nat, end: nat, id: u32, delta: u32) returns (packet: nat, packetEnd: nat)
    requires 4 <= start <= end && end + QUANTA_U32 <= p.Length < TWO32
    modifies p
    ensures packet <= packetEnd <= p.Length
    ensures p[packet..packetEnd] == PacketBytes(Event(id, old(p[start..end])), delta)
  {
    hide Header, EncodeU32;
    ghost var header, payload, tail := Header(id, end - start), p[start..end], p[start..];
    packet := PutHeader(p, start, end, id);
    PartOfTail(p[..], packet, header, tail, end - start);
    assert tail[..end - start] == payload;
    ghost var front := p[..end];
    packetEnd := PutU32(p, end, delta);
    PartOfFront(p[..packetEnd], front, packet, EncodeU32(delta));
    assert p[packet..packetEnd] == p[..packetEnd][packet..];
  }

  lemma PartOfTail(s: seq<byte>, at: nat, header: seq<byte>, tail: seq<byte>, n: nat)
    requires at <= |s| && s[at..] == header + tail && n <= |tail|
    ensures s[..at + |header| + n][at..] == header + tail[..n]
  {
  }

  lemma PartOfFront(s: seq<byte>, front: seq<byte>, at: nat, more: seq<byte>)
    requires s == front + more && at <= |front|
    ensures s[at..] == front[at..] + more
  {
  }
}
