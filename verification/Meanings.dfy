/** What a host learns from the packets it is sent, in terms of their ids and the values it reads back. */
module Meanings {
  import opened Bytes
  import opened Codec
  import opened Packets
  import opened Modules
  import opened Trace
  import opened Sessions

  function KindsFor(values: seq<Value>): seq<Kind> {
    if values == [] then [] else [if values[0].Number? then NumKind else TextKind] + KindsFor(values[1..])
  }

  /** A host that takes the payload apart reads these values, and nothing is left over. */
  predicate Reads(payload: seq<byte>, values: seq<Value>) {
    ParseFields(KindsFor(values), payload) == Got(values, [])
  }

  /** An event with this id is sent, and a host reads these values from it. */
  predicate Tells(a: Act, id: nat, values: seq<Value>) {
    a.Send? && a.event.id == id && Reads(a.event.payload, values)
  }

  lemma {:induction false} KindsOfValues(fields: seq<Field>)
    ensures KindsFor(Values(fields)) == Kinds(fields)
  {
    if fields != [] {
      KindsOfValues(fields[1..]);
      assert Values(fields)[1..] == Values(fields[1..]);
    }
  }

  lemma {:induction false} ValuesAt(fields: seq<Field>)
    ensures |Values(fields)| == |fields| && forall i :: 0 <= i < |fields| ==> Values(fields)[i] == ValueOf(fields[i])
  {
    if fields != [] {
      ValuesAt(fields[1..]);
    }
  }

  lemma AskTells(id: u32, fields: seq<Field>, values: seq<Value>)
    requires Readable(fields) && |values| == |fields|
    requires forall i :: 0 <= i < |fields| ==> values[i] == ValueOf(fields[i])
    ensures Tells(Ask(id, fields), id, values)
  {
    ValuesAt(fields);
    assert values == Values(fields);
    KindsOfValues(fields);
    FieldsRoundTrip(fields, []);
    assert EncodeFields(fields) + [] == EncodeFields(fields);
  }

  /** A text as it arrives when it is cut to limit characters. */
  function Trimmed(text: seq<byte>, limit: nat): Value {
    Chars(if |text| <= limit then text else text[..limit])
  }

  // What is sent -----------------------------------------------------------------------------------

  /** Everything a callback records is sent, in order, from position at of acts on. */
  predicate Contains(acts: seq<Act>, at: nat, rs: seq<Recording>) {
    at + |rs| <= |acts| && forall i :: 0 <= i < |rs| ==> acts[at + i] == Send(EventOf(rs[i]))
  }

  /** The frequencies, the base of ids, and by how many bits ids are shifted. */
  predicate TellsInit(a: Act, c: Config) {
    Tells(a, 24, [Number(c.sysFreq), Number(c.cpuFreq), Number(c.ramBase), Number(2)])
  }

  lemma InitTells(c: Config)
    ensures TellsInit(Ask(EVTID_INIT, InitFields(c)), c)
  {
    AskTells(EVTID_INIT, InitFields(c), [Number(c.sysFreq), Number(c.cpuFreq), Number(c.ramBase), Number(2)]);
  }

  /** Reading number i of the time: the OS's own as a U64 of microseconds in two words, or else the clock. */
  predicate TellsTime(a: Act, source: TimeSource, i: nat) {
    match source.osTime
    case Some(read) => exists low: u32, high: u32 ::
      Tells(a, 13, [Number(low), Number(high)]) && low + 0x1_0000_0000 * high == read(i) % 0x1_0000_0000_0000_0000
    case None => Tells(a, 12, [Number(source.clock(i))])
  }

  lemma TwoWords(t: nat)
    ensures U32(t) + 0x1_0000_0000 * U32(t / TWO32) == t % 0x1_0000_0000_0000_0000
  {
    var q := t / TWO32;
    assert t == TWO32 * q + U32(t) && q == TWO32 * (q / TWO32) + U32(q);
    assert t == 0x1_0000_0000_0000_0000 * (q / TWO32) + (TWO32 * U32(q) + U32(t));
  }

  lemma TimeTells(source: TimeSource, i: nat)
    ensures TellsTime(TimeAt(source, i), source, i)
  {
    match source.osTime {
      case Some(read) =>
        var low, high := U32(read(i)), U32(read(i) / TWO32);
        TwoWords(read(i));
        AskTells(EVTID_SYSTIME_US, [Num(low), Num(high)], [Number(low), Number(high)]);
      case None =>
        AskTells(EVTID_SYSTIME_CYCLES, [Num(source.clock(i))], [Number(source.clock(i))]);
    }
  }

  /** A start from a recorder that was off: recording goes on, the sync bytes, and then everything a host
      needs to know: the start event, the frequencies, the description of the system, the time, the tasks and the
      number of modules. */
  predicate TellsStart(acts: seq<Act>, c: Config, tick: nat) {
    var n, m := |c.sysDesc|, |c.taskList|;
    && |acts| == 6 + n + m
    && acts[0] == TurnOn && acts[1] == SendSync
    && Tells(acts[2], 10, [])
    && TellsInit(acts[3], c) && Contains(acts, 4, c.sysDesc)
    && TellsTime(acts[4 + n], c.source, tick)
    && Contains(acts, 5 + n, c.taskList)
    && Tells(acts[5 + n + m], 27, [Number(c.numModules)])
  }

  lemma StartTells(c: Config, tick: nat)
    ensures TellsStart(StartScript(c, tick), c, tick)
  {
    AskTells(EVTID_TRACE_START, [], []);
    InitTells(c);
    TimeTells(c.source, tick);
    CountTells(c);
    var acts, system, tasks := StartScript(c, tick), Sends(c.sysDesc), Sends(c.taskList);
    var start, init := Ask(EVTID_TRACE_START, []), Ask(EVTID_INIT, InitFields(c));
    var count := Ask(EVTID_NUMMODULES, [Num(c.numModules)]);
    assert acts == [TurnOn, SendSync] + ([start] + ([init] + system) + [TimeAt(c.source, tick)] + tasks + [count]);
    hide StartScript, Introduction, Tells, TellsInit, TellsTime, Ask, TimeAt, InitFields, Sends, Contains, StandsAt;
    StartInOrder(start, init, system, TimeAt(c.source, tick), tasks, count);
    ContainsSends(acts, 4, c.sysDesc);
    ContainsSends(acts, 5 + |c.sysDesc|, c.taskList);
  }

  /** part makes up acts from position at on. */
  predicate StandsAt(acts: seq<Act>, at: nat, part: seq<Act>) {
    at + |part| <= |acts| && acts[at..at + |part|] == part
  }

  lemma ContainsSends(acts: seq<Act>, at: nat, rs: seq<Recording>)
    requires StandsAt(acts, at, Sends(rs))
    ensures Contains(acts, at, rs)
  {
    forall i | 0 <= i < |rs|
      ensures acts[at + i] == Send(EventOf(rs[i]))
    {
      assert acts[at + i] == acts[at..at + |rs|][i] == Sends(rs)[i];
    }
  }

  /** Where the parts of a start stand. */
  lemma StartInOrder(start: Act, init: Act, system: seq<Act>, time: Act, tasks: seq<Act>, count: Act)
    ensures var acts := [TurnOn, SendSync] + ([start] + ([init] + system) + [time] + tasks + [count]);
      var n, m := |system|, |tasks|;
      && |acts| == 6 + n + m && acts[0] == TurnOn && acts[1] == SendSync && acts[2] == start && acts[3] == init
      && StandsAt(acts, 4, system) && acts[4 + n] == time && StandsAt(acts, 5 + n, tasks) && acts[5 + n + m] == count
  {
    var n, m := |system|, |tasks|;
    var a := [start] + ([init] + system);
    assert a[2..2 + n] == system;
    var b := a + [time] + tasks;
    assert b[2..2 + n] == a[2..2 + n] && b[3 + n..3 + n + m] == tasks;
    var acts := [TurnOn, SendSync] + (b + [count]);
    assert acts[4..4 + n] == b[2..2 + n] && acts[5 + n..5 + n + m] == b[3 + n..3 + n + m];
  }

  lemma CountTells(c: Config)
    ensures Tells(Ask(EVTID_NUMMODULES, [Num(c.numModules)]), 27, [Number(c.numModules)])
  {
    AskTells(EVTID_NUMMODULES, [Num(c.numModules)], [Number(c.numModules)]);
  }

  /** A stop: the stop event, then recording is off. */
  predicate TellsStop(acts: seq<Act>) {
    |acts| == 2 && Tells(acts[0], 11, []) && acts[1] == TurnOff
  }

  lemma StopTells()
    ensures TellsStop(StopScript())
  {
    AskTells(EVTID_TRACE_STOP, [], []);
  }

  predicate TellsSystem(acts: seq<Act>, c: Config) {
    |acts| == 1 + |c.sysDesc| && TellsInit(acts[0], c) && Contains(acts, 1, c.sysDesc)
  }

  lemma SystemTells(c: Config)
    ensures TellsSystem([Ask(EVTID_INIT, InitFields(c))] + Sends(c.sysDesc), c)
  {
    InitTells(c);
    hide TellsInit, Ask, InitFields;
  }

  predicate TellsTasks(acts: seq<Act>, c: Config) {
    |acts| == |c.taskList| && Contains(acts, 0, c.taskList)
  }

  lemma TasksTell(c: Config)
    ensures TellsTasks(Sends(c.taskList), c)
  {
  }

  /** A module is announced with its index, its event offset and its name. */
  predicate TellsModule(a: Act, id: byte, m: ModuleInfo) {
    Tells(a, 22, [Number(id), Number(m.offset), Trimmed(m.m.name, 128)])
  }

  /** The module with the index is announced, if there is one. */
  predicate TellsModuleAt(acts: seq<Act>, c: Config, id: byte) {
    if id < |c.modules| then |acts| == 1 && TellsModule(acts[0], id, c.modules[id]) else acts == []
  }

  lemma ModuleTells(id: byte, offset: u32, text: seq<byte>)
    ensures Tells(Ask(EVTID_MODULEDESC, ModuleFields(id, offset, text)), 22,
      [Number(id), Number(offset), Trimmed(text, 128)])
  {
    assert text[..|text|] == text;
    AskTells(EVTID_MODULEDESC, ModuleFields(id, offset, text), [Number(id), Number(offset), Trimmed(text, 128)]);
  }

  lemma ModuleAtTells(c: Config, id: byte)
    ensures TellsModuleAt(ModuleScript(c, id), c, id)
  {
    if id < |c.modules| {
      ModuleTells(id, c.modules[id].offset, c.modules[id].m.name);
    }
  }

  /** How many events the first k modules describe themselves with. */
  function DescribedBefore(ms: seq<ModuleInfo>, k: nat): nat
    requires k <= |ms|
  {
    if k == 0 then 0 else DescribedBefore(ms, k - 1) + |ms[k - 1].m.description|
  }

  /** All modules describe themselves, one after the other in the order of the list. */
  predicate TellsDescriptions(acts: seq<Act>, ms: seq<ModuleInfo>) {
    && |acts| == DescribedBefore(ms, |ms|)
    && forall k :: 0 <= k < |ms| ==> Contains(acts, DescribedBefore(ms, k), ms[k].m.description)
  }

  lemma {:induction false} DescribedTail(ms: seq<ModuleInfo>, k: nat)
    requires ms != [] && k < |ms|
    ensures DescribedBefore(ms, k + 1) == |ms[0].m.description| + DescribedBefore(ms[1..], k)
  {
    if k != 0 {
      DescribedTail(ms, k - 1);
    }
  }

  lemma {:induction false} DescriptionAt(ms: seq<ModuleInfo>, k: nat)
    requires k < |ms|
    ensures Contains(Descriptions(ms), DescribedBefore(ms, k), ms[k].m.description)
  {
    hide Sends;
    var first, rest := Sends(ms[0].m.description), Descriptions(ms[1..]);
    if k == 0 {
      ContainsFirst(ms[0].m.description, rest);
    } else {
      DescriptionAt(ms[1..], k - 1);
      DescribedTail(ms, k - 1);
      ContainsBehind(first, rest, DescribedBefore(ms[1..], k - 1), ms[k].m.description);
    }
  }

  lemma ContainsFirst(rs: seq<Recording>, more: seq<Act>)
    ensures Contains(Sends(rs) + more, 0, rs)
  {
  }

  lemma {:induction false} DescriptionsLength(ms: seq<ModuleInfo>)
    ensures |Descriptions(ms)| == DescribedBefore(ms, |ms|)
  {
    hide Sends;
    if ms != [] {
      DescriptionsLength(ms[1..]);
      DescribedTail(ms, |ms| - 1);
    }
  }

  lemma DescriptionsTell(ms: seq<ModuleInfo>)
    ensures TellsDescriptions(Descriptions(ms), ms)
  {
    hide Descriptions, Contains;
    DescriptionsLength(ms);
    forall k | 0 <= k < |ms|
      ensures Contains(Descriptions(ms), DescribedBefore(ms, k), ms[k].m.description)
    {
      DescriptionAt(ms, k);
    }
  }

  lemma ContainsBehind(a: seq<Act>, b: seq<Act>, at: nat, rs: seq<Recording>)
    requires Contains(b, at, rs)
    ensures Contains(a + b, |a| + at, rs)
  {
    forall i | 0 <= i < |rs|
      ensures (a + b)[|a| + at + i] == Send(EventOf(rs[i]))
    {
      assert (a + b)[|a| + at + i] == b[at + i];
    }
  }

  /** What a host is told in answer to a command, by the bytes of the command. */
  predicate TellsReply(x: Executed, acts: seq<Act>) {
    var c, code := x.config, x.command.code;
    if code == 1 then (if x.wasOff then TellsStart(acts, c, x.tick) else acts == [])
    else if code == 2 then (if x.wasOff then acts == [] else TellsStop(acts))
    else if code == 3 then |acts| == 1 && TellsTime(acts[0], c.source, x.tick)
    else if code == 4 then TellsTasks(acts, c)
    else if code == 5 then TellsSystem(acts, c)
    else if code == 6 then |acts| == 1 && Tells(acts[0], 27, [Number(c.numModules)])
    else if code == 7 then TellsDescriptions(acts, c.modules)
    else if code == 128 && x.command.parameter.Some? then TellsModuleAt(acts, c, x.command.parameter.value)
    else acts == []
  }

  /** Every command gets the answer that belongs to it. */
  lemma ReplyTells(x: Executed)
    ensures TellsReply(x, Script(x))
  {
    hide StartScript, StopScript, TimeAt, InitFields, Ask, Descriptions, ModuleScript, Sends, Tells, Contains;
    hide TellsStart, TellsStop, TellsTime, TellsSystem, TellsTasks, TellsDescriptions, TellsModuleAt;
    var c, code := x.config, x.command.code;
    if code == 1 {
      StartTells(c, x.tick);
    } else if code == 2 {
      StopTells();
    } else if code == 3 {
      TimeTells(c.source, x.tick);
    } else if code == 4 {
      TasksTell(c);
    } else if code == 5 {
      SystemTells(c);
    } else if code == 6 {
      CountTells(c);
    } else if code == 7 {
      DescriptionsTell(c.modules);
    } else if code == 128 && x.command.parameter.Some? {
      ModuleAtTells(c, x.command.parameter.value);
    }
  }

  // Tasks --------------------------------------------------------------------------------------------

  /** Two packets: id, priority and name, cut to 32 characters; id, stack base, stack size and a 0. */
  predicate TellsTask(acts: seq<Act>, id: nat, prio: u32, name: seq<byte>, stackBase: u32, stackSize: u32) {
    && |acts| == 2
    && Tells(acts[0], 9, [Number(id), Number(prio), Trimmed(name, 32)])
    && Tells(acts[1], 21, [Number(id), Number(stackBase), Number(stackSize), Number(0)])
  }

  lemma TaskTells(c: Config, task: u32, prio: u32, name: seq<byte>, base: u32, size: u32)
    ensures TellsTask(TaskInfoActs(c, task, prio, name, base, size), ShrinkId(task, c.ramBase), prio, name, base, size)
  {
    var id := ShrinkId(task, c.ramBase);
    assert name[..|name|] == name;
    AskTells(EVTID_TASK_INFO, [Num(id), Num(prio), Text(name, 32)], [Number(id), Number(prio), Trimmed(name, 32)]);
    AskTells(EVTID_STACK_INFO, [Num(id), Num(base), Num(size), Num(0)],
      [Number(id), Number(base), Number(size), Number(0)]);
  }

  /** A host that shifts a shrunk id back by two bits and adds the base gets the id of which it was made, if and
      only if the id is a multiple of 4 away from the base, counted modulo 2^32. */
  lemma ShrunkIdExactly(id: u32, base: u32)
    ensures U32(ShrinkId(id, base) * 4 + base) == id <==> Sub32(id, base) % 4 == 0
    ensures base <= id && (id - base) % 4 == 0 ==> ShrinkId(id, base) * 4 + base == id
  {
    var d := Sub32(id, base);
    assert d == 4 * (d / 4) + d % 4;
    assert U32(d + base) == id;
  }
}
