/** Whole recordings: any sequence of application calls, against any host and any clock. */
module EndToEnd {
  import opened Bytes
  import opened RingModel
  import opened Commands
  import opened Codec
  import opened Packets
  import opened Modules
  import opened Trace
  import opened Decisions
  import opened Masks
  import opened Sessions
  import opened Meanings
  import opened Recorder
  import opened Conformance
  import opened PrintBuffer
  import opened Formats
  import opened FormatInterpreter
  import opened Builtins
  import opened Calls

  // One call ------------------------------------------------------------------------------------

  method DoReport(rec: Recorder, call: Call) returns (ghost acts: seq<Act>)
    requires rec.Valid() && rec.recursionCnt == 0
    requires call.Record? || call.ReportTime? || call.ReportSystem? || call.ReportTasks? || call.ReportTask?
      || call.ReportModuleCount? || call.ReportModule? || call.ReportModules?
    modifies rec, rec.up, rec.up.buf, rec.down, rec.down.buf, rec.aPacket
    ensures rec.Valid() && Done(call, old(rec.Snapshot()), rec.Snapshot(), acts, rec.down.WholeSchedule())
  {
    hide Recorder.Valid, Follows, ModuleInfos, EncodeFields, Sends, InitFields, TimeAt, TaskInfoActs;
    hide ModuleScript, Descriptions;
    ghost var c := rec.Settings();
    match call {
      case Record(r) =>
        rec.Record(r.id, r.fields);
        acts := [Send(EventOf(r))];
      case ReportTime =>
        ghost var tick := rec.RecordSystime();
        acts := [TimeAt(c.source, tick)];
      case ReportSystem =>
        rec.GetSysDesc();
        acts := [Ask(EVTID_INIT, InitFields(c))] + Sends(c.sysDesc);
      case ReportTasks =>
        rec.SendAll(rec.taskList);
        acts := Sends(c.taskList);
      case ReportTask(task, prio, name, stackBase, stackSize) =>
        rec.SendTaskInfo(task, prio, name, stackBase, stackSize);
        acts := TaskInfoActs(c, task, prio, name, stackBase, stackSize);
      case ReportModuleCount =>
        rec.SendNumModules();
        acts := [Ask(EVTID_NUMMODULES, [Num(c.numModules)])];
      case ReportModule(id) =>
        rec.SendModule(id);
        acts := ModuleScript(c, id);
      case ReportModules =>
        rec.SendModuleDescription();
        acts := Descriptions(c.modules);
    }
  }

  method DoSwitch(rec: Recorder, call: Call) returns (ghost acts: seq<Act>)
    requires rec.Valid() && rec.recursionCnt == 0 && (call.TurnOnCall? || call.TurnOffCall?)
    modifies rec, rec.up, rec.up.buf, rec.down, rec.down.buf, rec.aPacket
    ensures rec.Valid() && Done(call, old(rec.Snapshot()), rec.Snapshot(), acts, rec.down.WholeSchedule())
  {
    hide Recorder.Valid, Follows, ModuleInfos, StartScript, IsOff;
    ghost var c := rec.Settings();
    rec.Known();
    match call {
      case TurnOnCall =>
        ghost var off := rec.enableState == OFF;
        ghost var tick := rec.Start();
        acts := if off then StartScript(c, tick) else [];
      case TurnOffCall =>
        ghost var off := rec.enableState == OFF;
        rec.Stop();
        acts := if off then [] else StopScript();
    }
  }

  method DoSettings(rec: Recorder, call: Call) returns (ghost acts: seq<Act>)
    requires rec.Valid() && rec.recursionCnt == 0 && (call.Disable? || call.Enable? || call.MoveRAMBase?)
    modifies rec
    ensures rec.Valid() && Done(call, old(rec.Snapshot()), rec.Snapshot(), acts, rec.down.WholeSchedule())
  {
    hide Recorder.Valid, Done, ModuleInfos;
    ghost var a := rec.Snapshot();
    acts := [];
    match call {
      case Disable(mask) => rec.DisableEvents(mask);
      case Enable(mask) => rec.EnableEvents(mask);
      case MoveRAMBase(base) => rec.SetRAMBase(base);
    }
    SettingsDone(call, a, rec.Snapshot(), rec.down.WholeSchedule());
  }

  lemma SettingsDone(call: Call, a: Snap, b: Snap, whole: bool)
    requires call.Disable? || call.Enable? || call.MoveRAMBase?
    requires b == a.(config := Adjusted(call, a.config))
    ensures Done(call, a, b, [], whole)
  {
    FollowsNothing(b, whole);
    hide Follows;
  }

  method DoModule(rec: Recorder, call: Call) returns (ghost acts: seq<Act>)
    requires rec.Valid() && rec.recursionCnt == 0 && Permitted(call, rec.registry.list)
    requires call.Register? || call.DescribeModule?
    modifies rec, rec.up, rec.up.buf, rec.down, rec.down.buf, rec.aPacket, rec.registry, Touched(call)
    ensures rec.Valid() && Done(call, old(rec.Snapshot()), rec.Snapshot(), acts, rec.down.WholeSchedule())
    ensures rec.registry.list == Registered(call, old(rec.registry.list))
  {
    hide Recorder.Valid, Follows, ModuleInfos, EncodeFields, Sends, ModuleScript;
    ghost var c := rec.Settings();
    rec.Known();
    match call {
      case Register(m) =>
        rec.RegisterModule(m);
        acts := ModuleScript(WithModule(c, m), 0) + Sends(m.description);
      case DescribeModule(m, text) =>
        ghost var id := rec.RecordModuleDescription(m, text);
        acts := [Ask(EVTID_MODULEDESC, ModuleFields(id, m.eventOffset, text))];
    }
  }

  method DoPrint(rec: Recorder, call: Call) returns (ghost acts: seq<Act>)
    requires rec.Valid() && rec.recursionCnt == 0 && Permitted(call, rec.registry.list)
    requires call.HostPrint? || call.TargetPrint?
    modifies rec, rec.up, rec.up.buf, rec.down, rec.down.buf, rec.aPacket
    ensures rec.Valid() && Done(call, old(rec.Snapshot()), rec.Snapshot(), acts, rec.down.WholeSchedule())
  {
    hide Recorder.Valid, Follows, ModuleInfos, EncodeFields, Percents, HostFields, CanPrint, Output, Cut, PrintActs;
    match call {
      case HostPrint(fmt, options, values) =>
        var n := VPrintHost(rec, fmt, options, values);
        acts := [Ask(EVTID_PRINT_FORMATTED, HostFields(fmt, options, values[..n]))];
      case TargetPrint(fmt, options, args) =>
        ghost var chunks := VPrintTarget(rec, fmt, options, args);
        acts := PrintActs(chunks, options);
    }
  }

  /** One call of the application. */
  method Do(rec: Recorder, call: Call) returns (ghost acts: seq<Act>)
    requires rec.Valid() && rec.recursionCnt == 0 && Permitted(call, rec.registry.list)
    modifies rec, rec.up, rec.up.buf, rec.down, rec.down.buf, rec.aPacket, rec.registry, Touched(call)
    ensures rec.Valid() && Done(call, old(rec.Snapshot()), rec.Snapshot(), acts, rec.down.WholeSchedule())
    ensures rec.registry.list == Registered(call, old(rec.registry.list))
  {
    hide Recorder.Valid, Done, ModuleInfos, Permitted;
    match call {
      case Register(_) => acts := DoModule(rec, call);
      case DescribeModule(_, _) => acts := DoModule(rec, call);
      case HostPrint(_, _, _) => acts := DoPrint(rec, call);
      case TargetPrint(_, _, _) => acts := DoPrint(rec, call);
      case TurnOnCall => acts := DoSwitch(rec, call);
      case TurnOffCall => acts := DoSwitch(rec, call);
      case Disable(_) => acts := DoSettings(rec, call);
      case Enable(_) => acts := DoSettings(rec, call);
      case MoveRAMBase(_) => acts := DoSettings(rec, call);
      case _ => acts := DoReport(rec, call);
    }
  }

  // Conforming calls ----------------------------------------------------------------------------

  predicate ConformingCall(call: Call) {
    match call
    case Record(r) => Conforms(EventOf(r))
    case Register(m) => ConformingRecordings(m.description)
    case _ => true
  }

  predicate ConformingCalls(calls: seq<Call>) {
    forall c :: c in calls ==> ConformingCall(c)
  }

  lemma TaskInfoConforms(c: Config, task: u32, prio: u32, name: seq<byte>, base: u32, size: u32)
    ensures ConformingActs(TaskInfoActs(c, task, prio, name, base, size))
  {
    hide Conforms, EventOf;
    var id := ShrinkId(task, c.ramBase);
    BuiltinConforms(TaskInfo(task, prio, name), c.ramBase);
    BuiltinConforms(StackInfo(task, base, size), c.ramBase);
    var info, stack := [Num(id), Num(prio), Field.Text(name, 32)], [Num(id), Num(base), Num(size), Num(0)];
    assert FieldsOf(LayoutOf(TaskInfo(task, prio, name), c.ramBase)) == info;
    assert FieldsOf(LayoutOf(StackInfo(task, base, size), c.ramBase)) == stack;
  }

  lemma PrintConforms(fields: seq<Field>)
    requires Readable(fields) && |EncodeFields(fields)| < 0x4000
    ensures ConformingActs([Ask(EVTID_PRINT_FORMATTED, fields)])
  {
    FieldsConform(EVTID_PRINT_FORMATTED, fields);
  }

  lemma ChunksConform(chunks: seq<seq<byte>>, text: seq<byte>, options: u32)
    requires Cut(chunks, text)
    ensures ConformingActs(PrintActs(chunks, options))
  {
    hide Conforms, EventOf, EncodeFields;
    forall i | 0 <= i < |chunks|
      ensures ConformingActs([PrintActs(chunks, options)[i]])
    {
      FieldsBound(PrintFields(chunks[i], options));
      BoundOfPrint(chunks[i], options);
      PrintConforms(PrintFields(chunks[i], options));
    }
  }

  lemma BoundOfPrint(text: seq<byte>, options: u32)
    requires |text| <= MAX_STRING_LEN
    ensures Bound(PrintFields(text, options)) < 0x4000 && Readable(PrintFields(text, options))
  {
    var fields := PrintFields(text, options);
    assert fields[1..] == [Num(options), Num(0)] && fields[1..][1..] == [Num(0)] && fields[1..][1..][1..] == [];
    assert Bound([Num(0)]) == QUANTA_U32 && Bound([Num(options), Num(0)]) == 2 * QUANTA_U32;
  }

  lemma DoneConforms(call: Call, a: Snap, b: Snap, acts: seq<Act>)
    requires Answer(call, a, b, acts) && ConformingCall(call) && ConformingConfig(a.config)
    ensures ConformingActs(acts)
  {
    hide ConformingActs, ConformingRecordings, EncodeFields, Sends, InitFields, TimeAt, TaskInfoActs, HostFields;
    hide ModuleScript, ModuleFields, Descriptions, StartScript, StopScript, IsOff, PrintActs, Cut, Output, CanPrint;
    var c := a.config;
    NothingConforms();
    match call {
      case Record(r) => SendConforms(r);
      case ReportTime => TimeConforms(c.source, a.readings);
      case ReportSystem => SystemConforms(c);
      case ReportTasks => SendsConform(c.taskList);
      case ReportTask(task, prio, name, stackBase, stackSize) =>
        TaskInfoConforms(c, task, prio, name, stackBase, stackSize);
      case ReportModuleCount => InitConforms(c);
      case ReportModule(id) => ModuleScriptConforms(c, id);
      case ReportModules => DescriptionsConform(c.modules);
      case TurnOnCall =>
        if acts != [] {
          var tick :| acts == StartScript(c, tick);
          StartConforms(c, tick);
        }
      case TurnOffCall => StopConforms();
      case Register(m) =>
        ModuleScriptConforms(c, 0);
        SendsConform(m.description);
        BothConform(ModuleScript(c, 0), Sends(m.description));
      case DescribeModule(m, text) =>
        var id: byte, offset: u32 :| acts == [Ask(EVTID_MODULEDESC, ModuleFields(id, offset, text))];
        ModuleConforms(id, offset, text);
      case HostPrint(fmt, options, values) =>
        HostPrintConforms(fmt, options, values[..Min(Percents(fmt), MAX_ARGUMENTS)]);
      case TargetPrint(fmt, options, args) =>
        var chunks :| Cut(chunks, Output(fmt, args)) && acts == PrintActs(chunks, options);
        ChunksConform(chunks, Output(fmt, args), options);
      case _ =>
    }
  }

  lemma SendConforms(r: Recording)
    requires Conforms(EventOf(r))
    ensures ConformingActs([Send(EventOf(r))])
  {
  }

  lemma BothConform(a: seq<Act>, b: seq<Act>)
    requires ConformingActs(a) && ConformingActs(b)
    ensures ConformingActs(a + b)
  {
  }

  lemma HostPrintConforms(fmt: seq<byte>, options: u32, values: seq<u32>)
    requires |values| <= MAX_ARGUMENTS
    ensures ConformingActs([Ask(EVTID_PRINT_FORMATTED, HostFields(fmt, options, values))])
  {
    hide EncodeFields;
    HostFieldsFit(fmt, options, values);
    PrintConforms(HostFields(fmt, options, values));
  }

  lemma AdjustedConforms(call: Call, c: Config)
    requires ConformingCall(call) && ConformingConfig(c)
    ensures ConformingConfig(Adjusted(call, c))
  {
    hide ConformingRecordings;
  }

  // Runs ----------------------------------------------------------------------------------------

  function Concat(answers: seq<seq<Act>>): seq<Act> {
    if answers == [] then [] else Concat(answers[..|answers| - 1]) + answers[|answers| - 1]
  }

  /** What a host can do with what it has received, in the middle of a packet or not. */
  ghost predicate HostKnows(t0: u32, log: seq<Entry>, received: seq<byte>, pending: seq<byte>) {
    var now := ParseStream(received);
    var later := ParseStream(now.rest + pending);
    && now.packets + later.packets == PacketsOf(log) && later.rest == []
    && Timeline(t0, now.packets) <= StampsOf(log)
    && Timeline(t0, now.packets + later.packets) == StampsOf(log)
  }

  /** Every request is accounted for, and DropCount is the number of refusals. */
  predicate Conserved(t0: u32, log: seq<Entry>, s: State) {
    var t := Count(t0, log);
    && t.requests == t.stored + t.filtered + t.refused + t.lost
    && s.drops == U32(t.refused)
    && t.lost == t.overflows + t.unmarked + (if s.enable == DROPPING then 1 else 0)
  }

  /** From a to b the application was served with acts, the host with what its commands ask for; at every send
      a command was executed if one was waiting. */
  ghost predicate Served(a: Snap, b: Snap, acts: seq<Act>, whole: bool) {
    && a.log <= b.log && a.executed <= b.executed && a.sent <= b.sent
    && ActsAt(b.log, false) == ActsAt(a.log, false) + acts
    && ActsAt(b.log, true) == ActsAt(a.log, true) + Scripts(b.executed[|a.executed|..])
    && (whole && Framed(a) ==> Framed(b))
    && (whole && Complete(a.sent) ==> Complete(b.sent))
    && Prompt(a, b, SendCount(acts), whole)
  }

  lemma DoneServes(call: Call, a: Snap, b: Snap, acts: seq<Act>, whole: bool)
    requires Done(call, a, b, acts, whole) && a.depth == 0
    ensures Served(a, b, acts, whole) && b.depth == 0
  {
    PromptIgnoresConfig(a, b, Adjusted(call, a.config), SendCount(acts), whole);
    FramedIgnoresConfig(a, Adjusted(call, a.config));
    hide ActsAt, Scripts, Framed, Answer, AllWitnessed, Complete, Prompt, SendCount, Screens, Adjusted;
  }

  lemma ServedThen(a: Snap, b: Snap, c: Snap, first: seq<Act>, second: seq<Act>, whole: bool)
    requires Served(a, b, first, whole) && Served(b, c, second, whole)
    ensures Served(a, c, first + second, whole)
  {
    hide ActsAt, Scripts, Framed, Complete, Prompt, SendCount;
    SendCountConcat(first, second);
    PromptThen(a, b, c, SendCount(first), SendCount(second), whole);
    ServedInOrder(a, b, c, first, second);
  }

  lemma ServedInOrder(a: Snap, b: Snap, c: Snap, first: seq<Act>, second: seq<Act>)
    requires a.executed <= b.executed <= c.executed
    requires ActsAt(b.log, false) == ActsAt(a.log, false) + first
    requires ActsAt(c.log, false) == ActsAt(b.log, false) + second
    requires ActsAt(b.log, true) == ActsAt(a.log, true) + Scripts(b.executed[|a.executed|..])
    requires ActsAt(c.log, true) == ActsAt(b.log, true) + Scripts(c.executed[|b.executed|..])
    ensures ActsAt(c.log, false) == ActsAt(a.log, false) + (first + second)
    ensures ActsAt(c.log, true) == ActsAt(a.log, true) + Scripts(c.executed[|a.executed|..])
  {
    hide ActsAt, Scripts;
    var x, y := b.executed[|a.executed|..], c.executed[|b.executed|..];
    assert c.executed[|a.executed|..] == x + y;
    ScriptsConcat(x, y);
    Regroup(ActsAt(a.log, true), Scripts(x), Scripts(y));
    Regroup(ActsAt(a.log, false), first, second);
  }

  lemma PromptIgnoresConfig(a: Snap, b: Snap, c: Config, n: nat, whole: bool)
    requires Prompt(a.(config := c), b, n, whole)
    ensures Prompt(a, b, n, whole)
  {
    FramedIgnoresConfig(a, c);
  }

  lemma FramedIgnoresConfig(s: Snap, c: Config)
    ensures Framed(s.(config := c)) <==> Framed(s)
  {
  }

  /** What holds after every sequence of calls: the application's requests and the host's commands have been
      served in order, and packets conform if the requests do. */
  lemma {:induction false} StepsServe(calls: seq<Call>, steps: seq<Snap>, answers: seq<seq<Act>>, whole: bool)
    requires AllDone(calls, steps, answers, whole) && steps[0].depth == 0
    ensures steps[|calls|].depth == 0 && Served(steps[0], steps[|calls|], Concat(answers), whole)
  {
    hide Served, Done;
    if calls == [] {
      ServedNothing(steps[0], whole);
    } else {
      var n := |calls| - 1;
      StepsServe(calls[..n], steps[..n + 1], answers[..n], whole);
      DoneServes(calls[n], steps[n], steps[n + 1], answers[n], whole);
      ServedThen(steps[0], steps[n], steps[n + 1], Concat(answers[..n]), answers[n], whole);
    }
  }

  lemma ServedNothing(a: Snap, whole: bool)
    ensures Served(a, a, [], whole)
  {
    FollowsNothing(a.(depth := 0), whole);
  }

  lemma {:induction false} StepsConform(calls: seq<Call>, steps: seq<Snap>, answers: seq<seq<Act>>, whole: bool)
    requires AllDone(calls, steps, answers, whole) && steps[0].depth == 0
    requires AllConform(steps[0].log) && ConformingConfig(steps[0].config)
    requires ConformingCalls(calls)
    ensures steps[|calls|].depth == 0 && AllConform(steps[|calls|].log) && ConformingConfig(steps[|calls|].config)
  {
    hide AllConform, ConformingConfig, ConformingCall, ConformingActs, Answer, Adjusted;
    if calls != [] {
      var n := |calls| - 1;
      StepsConform(calls[..n], steps[..n + 1], answers[..n], whole);
      assert calls[n] in calls && Done(calls[n], steps[n], steps[n + 1], answers[n], whole);
      var a := steps[n].(config := Adjusted(calls[n], steps[n].config));
      AdjustedConforms(calls[n], steps[n].config);
      FollowsKeeps(a, steps[n + 1], answers[n], whole);
      hide Follows;
      DoneConforms(calls[n], a, steps[n + 1], answers[n]);
      StepConforms(a, steps[n + 1], answers[n], whole);
    }
  }

  /** Every run of a recorder, from any state it can be in. Each call does what it should under the settings of
      that moment, commands are executed in the order the host sent them and answered completely, every request
      and every drop is accounted for, and if the events conform to their layouts the host recovers exactly the
      stored packets with their true times, however it reads. */
  method Run(rec: Recorder, calls: seq<Call>) returns (ghost steps: seq<Snap>, ghost answers: seq<seq<Act>>)
    requires rec.Valid() && rec.recursionCnt == 0 && AllPermitted(calls, rec.registry.list)
    modifies rec, rec.up, rec.up.buf, rec.down, rec.down.buf, rec.aPacket, rec.registry, AllTouched(calls)
    ensures rec.Valid() && rec.recursionCnt == 0
    ensures AllDone(calls, steps, answers, rec.down.WholeSchedule())
    ensures steps[0] == old(rec.Snapshot()) && steps[|calls|] == rec.Snapshot()
    ensures Served(old(rec.Snapshot()), rec.Snapshot(), Concat(answers), rec.down.WholeSchedule())
    ensures rec.down.WholeSchedule() && old(Framed(rec.Snapshot())) ==>
      Decode(rec.down.sent) == CommandsOf(rec.executed) + Decode(rec.down.Unread())
    ensures Conserved(rec.t0, rec.log, rec.Globals())
    ensures rec.up.Eager() && rec.largest < rec.up.buf.Length ==>
      Lossless(rec.log) && Count(rec.t0, rec.log).lost == Count(rec.t0, rec.log).refused == 0
    ensures AllConform(old(rec.log)) && ConformingConfig(old(rec.Settings())) && ConformingCalls(calls) ==>
      HostKnows(rec.t0, rec.log, rec.up.consumed, Contents(rec.up.buf[..], rec.up.wrOff, rec.up.rdOff))
  {
    hide Recorder.Valid, ModuleInfos, Permitted, Done, Served, Framed, Conserved, HostKnows, AllConform, Decode;
    hide ConformingConfig, ConformingCalls, AllPermitted, AllDone, AllTouched, Touched, Registered;
    ghost var a, whole := rec.Snapshot(), rec.down.WholeSchedule();
    steps, answers := [a], [];
    NothingDone(calls, a, whole);
    for i := 0 to |calls|
      invariant rec.Valid() && rec.recursionCnt == 0 && AllPermitted(calls[i..], rec.registry.list)
      invariant |steps| == i + 1 && steps[0] == a && steps[i] == rec.Snapshot()
      invariant AllDone(calls[..i], steps, answers, whole)
    {
      PermittedStep(calls, i, rec.registry.list);
      TouchedByOne(calls, i);
      ghost var answer := Do(rec, calls[i]);
      ghost var b := rec.Snapshot();
      OneMoreDone(calls, i, steps, answers, whole, b, answer);
      steps, answers := steps + [b], answers + [answer];
    }
    assert calls[..|calls|] == calls;
    Summary(rec, calls, steps, answers);
  }

  lemma NothingDone(calls: seq<Call>, a: Snap, whole: bool)
    ensures calls[0..] == calls && AllDone(calls[..0], [a], [], whole)
  {
  }

  lemma DoneKeepsDepth(call: Call, a: Snap, b: Snap, acts: seq<Act>, whole: bool)
    requires Done(call, a, b, acts, whole)
    ensures b.depth == a.depth
  {
  }

  lemma OneMoreDone(calls: seq<Call>, i: nat, steps: seq<Snap>, answers: seq<seq<Act>>, whole: bool,
                    b: Snap, acts: seq<Act>)
    requires i < |calls| && |steps| == i + 1 && AllDone(calls[..i], steps, answers, whole)
    requires Done(calls[i], steps[i], b, acts, whole)
    ensures AllDone(calls[..i + 1], steps + [b], answers + [acts], whole) && b.depth == steps[i].depth
  {
    DoneKeepsDepth(calls[i], steps[i], b, acts, whole);
    assert |answers| == i;
    hide Done, AllDone;
    var front, ds, ss, as' := calls[..i], calls[..i + 1], steps + [b], answers + [acts];
    forall k | 0 <= k < |ds|
      ensures Done(ds[k], ss[k], ss[k + 1], as'[k], whole)
    {
      if k < i {
        DoneAt(front, steps, answers, whole, k);
      }
    }
    AreDone(ds, ss, as', whole);
  }

  lemma DoneAt(calls: seq<Call>, steps: seq<Snap>, answers: seq<seq<Act>>, whole: bool, k: nat)
    requires AllDone(calls, steps, answers, whole) && k < |calls|
    ensures |steps| == |calls| + 1 == |answers| + 1 && Done(calls[k], steps[k], steps[k + 1], answers[k], whole)
  {
    hide Done;
  }

  lemma AreDone(calls: seq<Call>, steps: seq<Snap>, answers: seq<seq<Act>>, whole: bool)
    requires |answers| == |calls| && |steps| == |calls| + 1
    requires forall i :: 0 <= i < |calls| ==> Done(calls[i], steps[i], steps[i + 1], answers[i], whole)
    ensures AllDone(calls, steps, answers, whole)
  {
    hide Done;
  }

  /** Nothing is ever dropped if the ring can hold the largest packet and the host always empties it. */
  lemma NothingLost(rec: Recorder)
    requires rec.Valid() && rec.up.Eager() && rec.largest < rec.up.buf.Length
    ensures Lossless(rec.log) && Count(rec.t0, rec.log).lost == Count(rec.t0, rec.log).refused == 0
  {
    hide Replay, StreamOf, Justified, Lossless, Count;
    EagerHostsLoseNothing(rec.Circumstances(), rec.log, rec.evidence, |rec.up.consumed|, rec.clockReads);
    LosslessCounts(rec.t0, rec.log);
  }

  /** What is known at the end of a run, from its steps. */
  lemma Summary(rec: Recorder, calls: seq<Call>, steps: seq<Snap>, answers: seq<seq<Act>>)
    requires rec.Valid() && AllDone(calls, steps, answers, rec.down.WholeSchedule())
    requires steps[0].depth == 0 && steps[|calls|] == rec.Snapshot()
    ensures Served(steps[0], rec.Snapshot(), Concat(answers), rec.down.WholeSchedule())
    ensures rec.down.WholeSchedule() && Framed(steps[0]) ==>
      Decode(rec.down.sent) == CommandsOf(rec.executed) + Decode(rec.down.Unread())
    ensures Conserved(rec.t0, rec.log, rec.Globals())
    ensures rec.up.Eager() && rec.largest < rec.up.buf.Length ==>
      Lossless(rec.log) && Count(rec.t0, rec.log).lost == Count(rec.t0, rec.log).refused == 0
    ensures AllConform(steps[0].log) && ConformingConfig(steps[0].config) && ConformingCalls(calls) ==>
      HostKnows(rec.t0, rec.log, rec.up.consumed, Contents(rec.up.buf[..], rec.up.wrOff, rec.up.rdOff))
  {
    hide Replay, StreamOf, ActsAt, Scripts, Done, AllConform, ConformingConfig, ConformingCalls, Decode, ParseStream;
    hide Timeline, StampsOf, PacketsOf, Contents, Count, DownBuffer.DownBuffer.WholeSchedule;
    DropConservation(rec.t0, rec.log, rec.Globals());
    if rec.up.Eager() && rec.largest < rec.up.buf.Length {
      NothingLost(rec);
    }
    StepsServe(calls, steps, answers, rec.down.WholeSchedule());
    if rec.down.WholeSchedule() && Framed(steps[0]) {
      CompleteConcat(rec.down.taken, rec.down.Unread());
    }
    if AllConform(steps[0].log) && ConformingConfig(steps[0].config) && ConformingCalls(calls) {
      StepsConform(calls, steps, answers, rec.down.WholeSchedule());
      var pending := Contents(rec.up.buf[..], rec.up.wrOff, rec.up.rdOff);
      HostReconstructs(rec.t0, rec.log, rec.Globals(), rec.up.consumed, pending);
    }
  }

  /** What the calls of a run mean, and what they filter. */
  lemma RunMeans(calls: seq<Call>, steps: seq<Snap>, answers: seq<seq<Act>>, whole: bool)
    requires AllDone(calls, steps, answers, whole) && steps[0].config.disabled == 0 && steps[0].log == []
    requires Tallied(steps[0].config)
    ensures Tallied(steps[|calls|].config)
    ensures |steps| == |calls| + 1 == |answers| + 1 && FilteredAsAsked(calls, steps)
    ensures forall i :: 0 <= i < |calls| ==>
      Means(calls[i], steps[i].(config := Adjusted(calls[i], steps[i].config)), steps[i + 1], answers[i])
    ensures (forall c :: c in calls ==> !c.Disable?) ==> NoneFiltered(steps[|calls|].log)
  {
    hide Done, Means, Adjusted, FilteredAsAsked, Tallied;
    StepsMean(calls, steps, answers, whole);
    StepsTally(calls, steps, answers, whole);
    StepsFilter(calls, steps, answers, whole);
    if forall c :: c in calls ==> !c.Disable? {
      NothingFiltered(calls, steps, answers, whole);
    }
  }

  /** A recorder from its initialisation on: what is in its history is what the application and the host asked
      for during the run, and nothing else. */
  method FreshRun(upSize: nat, take: nat -> nat, publish: nat -> seq<byte>, clock: nat -> u32,
                  osTime: Option<nat -> nat>, sysFreq: u32, cpuFreq: u32, sysDesc: seq<Recording>,
                  taskList: seq<Recording>, calls: seq<Call>)
    returns (rec: Recorder, ghost steps: seq<Snap>, ghost answers: seq<seq<Act>>)
    requires 2 <= upSize < TWO32 && AllPermitted(calls, [])
    modifies AllTouched(calls)
    ensures rec.Valid() && rec.t0 == clock(0) && rec.clock == clock && rec.up.buf.Length == upSize
    ensures AllDone(calls, steps, answers, rec.down.WholeSchedule())
    ensures steps[0] == Snap(clock(0), [], [], [], [], 0,
      Config(sysFreq, cpuFreq, ID_BASE, sysDesc, taskList, 0, [], TimeSource(clock, osTime), 0),
      if osTime.Some? then 0 else 1)
    ensures steps[|calls|] == rec.Snapshot()
    ensures forall i :: 0 <= i < |calls| ==>
      Means(calls[i], steps[i].(config := Adjusted(calls[i], steps[i].config)), steps[i + 1], answers[i])
    ensures FilteredAsAsked(calls, steps)
    ensures Tallied(rec.Settings())
    ensures (forall c :: c in calls ==> !c.Disable?) ==> NoneFiltered(rec.log)
    ensures ActsAt(rec.log, false) == Concat(answers) && ActsAt(rec.log, true) == Scripts(rec.executed)
    ensures (forall i: nat :: Complete(publish(i))) ==>
      Decode(rec.down.sent) == CommandsOf(rec.executed) + Decode(rec.down.Unread())
    ensures |rec.executed| <= SendCount(Concat(answers))
    ensures Conserved(rec.t0, rec.log, rec.Globals())
    ensures MAX_PACKET_SIZE < upSize && (forall i: nat :: upSize <= take(i)) ==>
      Lossless(rec.log) && Count(rec.t0, rec.log).lost == Count(rec.t0, rec.log).refused == 0
    ensures ConformingRecordings(sysDesc) && ConformingRecordings(taskList) && ConformingCalls(calls) ==>
      HostKnows(rec.t0, rec.log, rec.up.consumed, Contents(rec.up.buf[..], rec.up.wrOff, rec.up.rdOff))
  {
    hide Recorder.Valid, ModuleInfos, AllPermitted, AllDone, Framed, Conserved, HostKnows, Decode, ConformingCalls;
    hide ConformingRecordings, AllTouched, Means, FilteredAsAsked;
    rec := new Recorder(upSize, take, publish, clock, osTime, sysFreq, cpuFreq, sysDesc, taskList, MAX_PACKET_SIZE);
    ghost var a := rec.Snapshot();
    assert ActsAt(a.log, true) == ActsAt(a.log, false) == [];
    steps, answers := Run(rec, calls);
    RunMeans(calls, steps, answers, rec.down.WholeSchedule());
    assert rec.executed[|a.executed|..] == rec.executed;
    assert [] + Concat(answers) == Concat(answers) && [] + Scripts(rec.executed) == Scripts(rec.executed);
  }
}
