/** A recording in which packets are lost and the host cannot see it. */
module Gaps {
  import opened Bytes
  import opened Codec
  import opened Packets
  import opened Trace
  import opened Sessions

  /** A history that the calls ds leave behind, the state it leads to, and what the application asked for. */
  ghost predicate Played(ds: seq<Doing>, log: seq<Entry>, s: State, acts: seq<Act>) {
    && Play(0, ds) == log && Leads(0, log, s)
    && ActsAt(log, false) == acts && ActsAt(log, true) == []
    && forall e :: e in log ==> !e.Overflow?
  }

  lemma PlayOne(ds: seq<Doing>, log: seq<Entry>, s: State, acts: seq<Act>, d: Doing, e: Entry)
    requires Played(ds, log, s, acts) && Entries(s, d) == [e] && Step(s, e).Some? && !e.Overflow? && !e.nested
    ensures Played(ds + [d], log + [e], Step(s, e).value, acts + ActOf(e))
  {
    hide ActsAt, Replay, Play;
    PlayOn(0, ds, d, s);
    LogGrows(0, log, s, e);
    OneEntry(log, e, false);
    OneEntry(log, e, true);
  }

  lemma PlayStart(ds: seq<Doing>, log: seq<Entry>, s: State, acts: seq<Act>)
    returns (ds': seq<Doing>, log': seq<Entry>)
    requires Played(ds, log, s, acts) && s.enable == OFF
    ensures log' == log + [Started(false), Sync(false, true)]
    ensures Played(ds', log', s.(enable := ON), acts + [TurnOn, SendSync])
  {
    ds', log' := ds + [TurningOn(13)], log + [Started(false), Sync(false, true)];
    hide ActsAt, Replay, Play;
    var on, sync := Started(false), Sync(false, true);
    PlayOn(0, ds, TurningOn(13), s);
    StartIsPossible(0, log, s, true);
    assert log + [on, sync] == log + [on] + [sync] && acts + [TurnOn, SendSync] == acts + [TurnOn] + [SendSync];
    OneEntry(log, on, false);
    OneEntry(log, on, true);
    OneEntry(log + [on], sync, false);
    OneEntry(log + [on], sync, true);
  }

  /** An event that does not fit into the one free byte. */
  lemma PlayLoss(ds: seq<Doing>, log: seq<Entry>, s: State, acts: seq<Act>, event: Event)
    returns (ds': seq<Doing>, log': seq<Entry>)
    requires Played(ds, log, s, acts) && (s.enable == ON || s.enable == DROPPING)
    ensures var e := Request(false, event, if s.enable == ON then Lost else Refused);
      log' == log + [e] && Step(s, e).Some? && Played(ds', log', Step(s, e).value, acts + [Send(event)])
  {
    hide Played, PacketBytes;
    var d, e := Sending(event, false, 0, 0, 1, 0), Request(false, event, if s.enable == ON then Lost else Refused);
    ds', log' := ds + [d], log + [e];
    PlayOne(ds, log, s, acts, d, e);
  }

  function StartEvent(): Event {
    EventOf(AnyRecording(EVTID_TRACE_START, []))
  }

  /** The event that tells of the start, with three bytes free, at a time less than 128 after the last packet. */
  lemma PlayStored(ds: seq<Doing>, log: seq<Entry>, s: State, acts: seq<Act>, t: u32)
    returns (ds': seq<Doing>, log': seq<Entry>)
    requires Played(ds, log, s, acts) && s.enable == ON && s.last <= t < s.last + 128
    ensures log' == log + [Request(false, StartEvent(), Stored(t, t - s.last))]
    ensures Played(ds', log', s.(last := t), acts + [Send(StartEvent())])
  {
    hide Played;
    var d, e := Sending(StartEvent(), false, t, t, 3, 0), Request(false, StartEvent(), Stored(t, t - s.last));
    ds', log' := ds + [d], log + [e];
    assert EncodeFields([]) == [] && |EncodeU32(t - s.last)| == 1;
    PlayOne(ds, log, s, acts, d, e);
  }

  /** Recording is started in a ring with 13 free bytes, the second packet is lost, the rest is refused, and
      recording is stopped. The host empties the ring; recording is started again and the next packet is stored.
      No overflow packet tells of the gap: stopping while dropping leaves no trace. */
  lemma StopHidesAGap(c: Config, tick: nat) returns (ds: seq<Doing>, log: seq<Entry>, k: nat, j: nat)
    requires c.sysDesc == c.taskList == []
    ensures log == Play(0, ds) && Replay(Initial(0), log).Some? && forall e :: e in log ==> !e.Overflow?
    ensures ActsAt(log, true) == []
    ensures ActsAt(log, false) ==
      StartScript(c, tick) + StopScript() + [TurnOn, SendSync, Ask(EVTID_TRACE_START, [])]
    ensures k < j < |log| && Dropped(log[k]) && log[j].Request? && log[j].outcome.Stored? && Hidden(log, k, j)
  {
    var init, time := EventOf(AnyRecording(EVTID_INIT, InitFields(c))), TimeAt(c.source, tick).event;
    var count := EventOf(AnyRecording(EVTID_NUMMODULES, [Num(c.numModules)]));
    var stop, more := EventOf(AnyRecording(EVTID_TRACE_STOP, [])), [TurnOn, SendSync, Ask(EVTID_TRACE_START, [])];
    var whole := StartScript(c, tick) + StopScript();
    GapActs(c, tick);
    assert [TurnOn, SendSync] + [Send(StartEvent())] == more;
    hide TimeAt, InitFields, StartScript, StopScript, StartEvent, Play, Played, ActsAt;
    ds, log := PlayFirst(init, time, count, stop);
    ds, log := PlayStart(ds, log, State(OFF, 3, 0), whole);
    ds, log := PlayStored(ds, log, State(ON, 3, 0), whole + [TurnOn, SendSync], 5);
    assert whole + [TurnOn, SendSync] + [Send(StartEvent())] == whole + more;
    k, j := 3, 10;
    assert log[7] == Stopped(false);
    PlayedIsPlay(ds, log, State(ON, 3, 5), whole + more);
  }

  /** The first recording, up to the stop. */
  lemma PlayFirst(init: Event, time: Event, count: Event, stop: Event) returns (ds: seq<Doing>, log: seq<Entry>)
    ensures |log| == 8 && Dropped(log[3]) && log[7] == Stopped(false)
    ensures Played(ds, log, State(OFF, 3, 0), [TurnOn, SendSync, Send(StartEvent()), Send(init), Send(time),
      Send(count), Send(stop), TurnOff])
  {
    hide Played, Play, StartEvent;
    var begin := [TurnOn, SendSync];
    NothingPlayed();
    ds, log := PlayStart([], [], Initial(0), []);
    assert [] + begin == begin;
    ds, log := PlayStored(ds, log, State(ON, 0, 0), begin, 0);
    var acts := begin + [Send(StartEvent())];
    ds, log := PlayLoss(ds, log, State(ON, 0, 0), acts, init);
    assert Dropped(log[3]);
    ds, log := PlayLoss(ds, log, State(DROPPING, 0, 0), acts + [Send(init)], time);
    acts := acts + [Send(init)] + [Send(time)];
    ds, log := PlayLoss(ds, log, State(DROPPING, 1, 0), acts, count);
    ds, log := PlayLoss(ds, log, State(DROPPING, 2, 0), acts + [Send(count)], stop);
    acts := acts + [Send(count)] + [Send(stop)];
    PlayOne(ds, log, State(DROPPING, 3, 0), acts, TurningOff, Stopped(false));
    ds, log := ds + [TurningOff], log + [Stopped(false)];
    assert acts + [TurnOff] == [TurnOn, SendSync, Send(StartEvent()), Send(init), Send(time), Send(count), Send(stop),
      TurnOff];
  }

  lemma GapActs(c: Config, tick: nat)
    requires c.sysDesc == c.taskList == []
    ensures StartScript(c, tick) + StopScript() ==
      [TurnOn, SendSync, Send(StartEvent()), Send(EventOf(AnyRecording(EVTID_INIT, InitFields(c)))),
       Send(TimeAt(c.source, tick).event), Send(EventOf(AnyRecording(EVTID_NUMMODULES, [Num(c.numModules)]))),
       Send(EventOf(AnyRecording(EVTID_TRACE_STOP, []))), TurnOff]
  {
    assert Sends([]) == [];
  }

  lemma NothingPlayed()
    ensures Played([], [], Initial(0), [])
  {
  }

  lemma PlayedIsPlay(ds: seq<Doing>, log: seq<Entry>, s: State, acts: seq<Act>)
    requires Played(ds, log, s, acts)
    ensures log == Play(0, ds) && Replay(Initial(0), log).Some? && (forall e :: e in log ==> !e.Overflow?)
    ensures ActsAt(log, true) == [] && ActsAt(log, false) == acts
  {
    PlayIsPossible(0, ds);
  }
}
