/** The calls an application can make, what they ask of the recorder, and what a host learns from it. */
module Calls {
  import opened Bytes
  import opened Bits
  import opened Codec
  import opened Packets
  import opened Modules
  import opened Trace
  import opened Masks
  import opened Sessions
  import opened Meanings
  import opened PrintBuffer
  import opened Formats
  import opened FormatInterpreter
  import opened Builtins

  /** A call of the application. */
  datatype Call =
    | Record(r: Recording)
    | ReportTime
    | ReportSystem
    | ReportTasks
    | ReportTask(task: u32, prio: u32, name: seq<byte>, stackBase: u32, stackSize: u32)
    | ReportModuleCount
    | ReportModule(id: byte)
    | ReportModules
    | TurnOnCall
    | TurnOffCall
    | Disable(mask: bv32)
    | Enable(mask: bv32)
    | MoveRAMBase(base: u32)
    | Register(m: Module)
    | DescribeModule(m: Module, text: seq<byte>)
    | HostPrint(fmt: seq<byte>, options: u32, values: seq<u32>)
    | TargetPrint(fmt: seq<byte>, options: u32, args: seq<i32>)

  /** What the library demands of its caller, with the modules ms registered so far: no module is registered
      twice, the list is not searched while it is empty, and there are arguments for what is printed. */
  predicate Permitted(call: Call, ms: seq<Module>) {
    match call
    case Register(m) => m !in ms
    case DescribeModule(_, _) => ms != []
    case HostPrint(fmt, _, values) => Min(Percents(fmt), MAX_ARGUMENTS) <= |values|
    case TargetPrint(fmt, _, args) => CanPrint(fmt, args)
    case _ => true
  }

  function Registered(call: Call, ms: seq<Module>): seq<Module> {
    match call case Register(m) => [m] + ms case _ => ms
  }

  predicate AllPermitted(calls: seq<Call>, ms: seq<Module>) {
    calls == [] || (Permitted(calls[0], ms) && AllPermitted(calls[1..], Registered(calls[0], ms)))
  }

  lemma PermittedStep(calls: seq<Call>, i: nat, ms: seq<Module>)
    requires i < |calls| && AllPermitted(calls[i..], ms)
    ensures Permitted(calls[i], ms) && AllPermitted(calls[i + 1..], Registered(calls[i], ms))
  {
    assert calls[i..][0] == calls[i] && calls[i..][1..] == calls[i + 1..];
  }

  function Touched(call: Call): set<Module> {
    match call case Register(m) => {m} case _ => {}
  }

  function AllTouched(calls: seq<Call>): set<Module> {
    set c <- calls, m <- Touched(c) :: m
  }

  lemma TouchedByOne(calls: seq<Call>, i: nat)
    requires i < |calls|
    ensures Touched(calls[i]) <= AllTouched(calls)
  {
    assert calls[i] in calls;
  }

  /** The settings under which a call and the commands executed during it are answered. */
  function Adjusted(call: Call, c: Config): Config {
    match call
    case Register(m) => WithModule(c, m)
    case MoveRAMBase(base) => c.(ramBase := base)
    case Disable(mask) => c.(disabled := With(c.disabled, mask))
    case Enable(mask) => c.(disabled := Without(c.disabled, mask))
    case _ => c
  }

  /** What the call asks of the recorder when it leads from a to b. */
  ghost predicate Answer(call: Call, a: Snap, b: Snap, acts: seq<Act>) {
    match call
    case Record(r) => acts == [Send(EventOf(r))]
    case ReportTime => a.readings < b.readings && acts == [TimeAt(a.config.source, a.readings)]
    case ReportSystem => acts == [Ask(EVTID_INIT, InitFields(a.config))] + Sends(a.config.sysDesc)
    case ReportTasks => acts == Sends(a.config.taskList)
    case ReportTask(task, prio, name, stackBase, stackSize) =>
      acts == TaskInfoActs(a.config, task, prio, name, stackBase, stackSize)
    case ReportModuleCount => acts == [Ask(EVTID_NUMMODULES, [Num(a.config.numModules)])]
    case ReportModule(id) => acts == ModuleScript(a.config, id)
    case ReportModules => acts == Descriptions(a.config.modules)
    case TurnOnCall => StartAnswer(a, b, acts)
    case TurnOffCall => acts == if IsOff(a.t0, a.log) then [] else StopScript()
    case Disable(_) => acts == []
    case Enable(_) => acts == []
    case MoveRAMBase(_) => acts == []
    case Register(m) => acts == ModuleScript(a.config, 0) + Sends(m.description)
    case DescribeModule(m, text) => DescriptionAnswer(a.config, m, text, acts)
    case HostPrint(fmt, options, values) =>
      var n := Min(Percents(fmt), MAX_ARGUMENTS);
      n <= |values| && acts == [Ask(EVTID_PRINT_FORMATTED, HostFields(fmt, options, values[..n]))]
    case TargetPrint(fmt, options, args) => PrintAnswer(fmt, options, args, acts)
  }

  /** Starting does everything when recording was off, with a time read during the call, and else nothing. */
  ghost predicate StartAnswer(a: Snap, b: Snap, acts: seq<Act>) {
    if IsOff(a.t0, a.log) then exists tick :: a.readings <= tick < b.readings && acts == StartScript(a.config, tick)
    else acts == []
  }

  /** Index and offset of a module: its position modulo 256 and its event offset, or the position behind the last
      if it is not registered. */
  predicate Located(c: Config, m: Module, id: byte, offset: u32) {
    && (forall k :: 0 <= k < |c.modules| && c.modules[k].m == m ==> id == U8(k) && offset == c.modules[k].offset)
    && ((forall k :: 0 <= k < |c.modules| ==> c.modules[k].m != m) ==> id == U8(|c.modules|))
  }

  /** A registered module is described with its own offset, under the index the host knows it by; any other
      one under the index behind the last. */
  ghost predicate DescriptionAnswer(c: Config, m: Module, text: seq<byte>, acts: seq<Act>) {
    exists id: byte, offset: u32 ::
      acts == [Ask(EVTID_MODULEDESC, ModuleFields(id, offset, text))] && Located(c, m, id, offset)
  }

  ghost predicate PrintAnswer(fmt: seq<byte>, options: u32, args: seq<i32>, acts: seq<Act>) {
    CanPrint(fmt, args) && exists chunks :: Cut(chunks, Output(fmt, args)) && acts == PrintActs(chunks, options)
  }

  /** The call leads from a to b. */
  ghost predicate Done(call: Call, a: Snap, b: Snap, acts: seq<Act>, whole: bool) {
    var a' := a.(config := Adjusted(call, a.config));
    Answer(call, a', b, acts) && Follows(a', b, acts, whole)
  }

  /** The calls lead, one after the other, through steps. */
  ghost predicate AllDone(calls: seq<Call>, steps: seq<Snap>, answers: seq<seq<Act>>, whole: bool) {
    && |answers| == |calls| && |steps| == |calls| + 1
    && forall i :: 0 <= i < |calls| ==> Done(calls[i], steps[i], steps[i + 1], answers[i], whole)
  }

  // What calls and commands mean ------------------------------------------------------------------

  /** What a host is told when the application makes a call. */
  ghost predicate Means(call: Call, a: Snap, b: Snap, acts: seq<Act>) {
    var c := a.config;
    match call
    case Record(r) => acts == [Send(Event(r.id, EncodeFields(r.fields)))]
    case ReportTime => a.readings < b.readings && |acts| == 1 && TellsTime(acts[0], c.source, a.readings)
    case ReportSystem => TellsSystem(acts, c)
    case ReportTasks => TellsTasks(acts, c)
    case ReportTask(task, prio, name, stackBase, stackSize) =>
      TellsTask(acts, ShrinkId(task, c.ramBase), prio, name, stackBase, stackSize)
    case ReportModuleCount => |acts| == 1 && Tells(acts[0], 27, [Number(c.numModules)])
    case ReportModule(id) => TellsModuleAt(acts, c, id)
    case ReportModules => TellsDescriptions(acts, c.modules)
    case TurnOnCall =>
      if IsOff(a.t0, a.log) then exists tick :: a.readings <= tick < b.readings && TellsStart(acts, c, tick)
      else acts == []
    case TurnOffCall => if IsOff(a.t0, a.log) then acts == [] else TellsStop(acts)
    case Disable(_) => acts == []
    case Enable(_) => acts == []
    case MoveRAMBase(_) => acts == []
    case Register(m) =>
      && |acts| == 1 + |m.description| && Contains(acts, 1, m.description)
      && c.modules != [] && c.modules[0].m == m && TellsModule(acts[0], 0, c.modules[0])
    case DescribeModule(m, text) => exists id: byte, offset: u32 ::
      && |acts| == 1 && Tells(acts[0], 22, [Number(id), Number(offset), Trimmed(text, 128)])
      && Located(c, m, id, offset)
    case HostPrint(fmt, options, values) =>
      var n := Min(multiset(fmt)[37], 16);
      && n <= |values| && |acts| == 1
      && Tells(acts[0], 26, [Trimmed(fmt, 128), Number(options), Number(n)]
           + seq(n, i requires 0 <= i < n => Number(values[i])))
    case TargetPrint(fmt, options, args) => CanPrint(fmt, args) && exists chunks ::
      && Cut(chunks, Output(fmt, args)) && |acts| == |chunks|
      && forall i :: 0 <= i < |chunks| ==> Tells(acts[i], 26, [Chars(chunks[i]), Number(options), Number(0)])
  }

  lemma ReportMeans(call: Call, a: Snap, b: Snap, acts: seq<Act>)
    requires call.Record? || call.ReportTime? || call.ReportSystem? || call.ReportTasks? || call.ReportTask?
      || call.ReportModuleCount? || call.ReportModule? || call.ReportModules?
    requires Answer(call, a, b, acts)
    ensures Means(call, a, b, acts)
  {
    hide Tells, TellsTime, TellsSystem, TellsTask, TellsModuleAt, TellsDescriptions, Ask, InitFields, TimeAt;
    hide EncodeFields, TaskInfoActs, ModuleScript, Descriptions, ShrinkId;
    var c := a.config;
    match call {
      case ReportTime => TimeTells(c.source, a.readings);
      case ReportSystem => SystemTells(c);
      case ReportTask(task, prio, name, stackBase, stackSize) =>
        TaskTells(c, task, prio, name, stackBase, stackSize);
      case ReportModuleCount => CountTells(c);
      case ReportModule(id) => ModuleAtTells(c, id);
      case ReportModules => DescriptionsTell(c.modules);
      case _ =>
    }
  }

  lemma ControlMeans(call: Call, a: Snap, b: Snap, acts: seq<Act>)
    requires call.TurnOnCall? || call.TurnOffCall? || call.Disable? || call.Enable? || call.MoveRAMBase?
    requires Answer(call, a, b, acts)
    ensures Means(call, a, b, acts)
  {
    hide TellsStart, TellsStop, StartScript, StopScript, IsOff;
    StopTells();
    if call.TurnOnCall? && IsOff(a.t0, a.log) {
      var tick :| a.readings <= tick < b.readings && acts == StartScript(a.config, tick);
      StartTells(a.config, tick);
    }
  }

  lemma RegistrationMeans(m: Module, a: Snap, b: Snap, acts: seq<Act>)
    requires a.config.modules != [] && a.config.modules[0].m == m
    requires Answer(Register(m), a, b, acts)
    ensures Means(Register(m), a, b, acts)
  {
    ModuleAtTells(a.config, 0);
    hide TellsModule, ModuleScript;
    assert acts[0] == ModuleScript(a.config, 0)[0];
  }

  lemma DescriptionMeans(m: Module, text: seq<byte>, a: Snap, b: Snap, acts: seq<Act>)
    requires Answer(DescribeModule(m, text), a, b, acts)
    ensures Means(DescribeModule(m, text), a, b, acts)
  {
    hide Tells, Ask, ModuleFields, Located;
    var id: byte, offset: u32 :|
      acts == [Ask(EVTID_MODULEDESC, ModuleFields(id, offset, text))] && Located(a.config, m, id, offset);
    ModuleTells(id, offset, text);
  }

  lemma PrintMeans(call: Call, a: Snap, b: Snap, acts: seq<Act>)
    requires call.HostPrint? || call.TargetPrint?
    requires Answer(call, a, b, acts)
    ensures Means(call, a, b, acts)
  {
    hide Tells, Ask, HostFields, PrintFields, CanPrint, Output;
    match call {
      case HostPrint(fmt, options, values) =>
        PercentsExactly(fmt);
        var n := Min(Percents(fmt), MAX_ARGUMENTS);
        HostTells(fmt, options, values[..n]);
        assert seq(n, i requires 0 <= i < n => Number(values[..n][i]))
          == seq(n, i requires 0 <= i < n => Number(values[i]));
      case TargetPrint(fmt, options, args) =>
        var chunks :| Cut(chunks, Output(fmt, args)) && acts == PrintActs(chunks, options);
        forall i | 0 <= i < |chunks|
          ensures Tells(acts[i], 26, [Chars(chunks[i]), Number(options), Number(0)])
        {
          PrintTells(chunks[i], options);
        }
    }
  }

  /** Every call means what it should to a host. */
  lemma DoneMeans(call: Call, a: Snap, b: Snap, acts: seq<Act>, whole: bool)
    requires Done(call, a, b, acts, whole)
    ensures Means(call, a.(config := Adjusted(call, a.config)), b, acts)
  {
    var a' := a.(config := Adjusted(call, a.config));
    assert call.Register? ==> a'.config.modules != [] && a'.config.modules[0].m == call.m;
    hide Follows, Answer, Means;
    match call {
      case Register(m) => RegistrationMeans(m, a', b, acts);
      case DescribeModule(m, text) => DescriptionMeans(m, text, a', b, acts);
      case HostPrint(_, _, _) => PrintMeans(call, a', b, acts);
      case TargetPrint(_, _, _) => PrintMeans(call, a', b, acts);
      case TurnOnCall => ControlMeans(call, a', b, acts);
      case TurnOffCall => ControlMeans(call, a', b, acts);
      case Disable(_) => ControlMeans(call, a', b, acts);
      case Enable(_) => ControlMeans(call, a', b, acts);
      case MoveRAMBase(_) => ControlMeans(call, a', b, acts);
      case _ => ReportMeans(call, a', b, acts);
    }
  }

  /** The host gets for a command what the application gets for the call it stands for. */
  lemma CommandIsCall(x: Executed, a: Snap, b: Snap)
    requires a.config == x.config && x.wasOff == IsOff(a.t0, a.log) && x.readings == a.readings
    requires TimeIsNew(x, b.readings)
    ensures var code := x.command.code;
      && (code == 1 ==> Answer(TurnOnCall, a, b, Script(x)))
      && (code == 2 ==> Answer(TurnOffCall, a, b, Script(x)))
      && (code == 3 ==> Answer(ReportTime, a, b, Script(x)))
      && (code == 4 ==> Answer(ReportTasks, a, b, Script(x)))
      && (code == 5 ==> Answer(ReportSystem, a, b, Script(x)))
      && (code == 6 ==> Answer(ReportModuleCount, a, b, Script(x)))
      && (code == 7 ==> Answer(ReportModules, a, b, Script(x)))
      && (code == 128 && x.command.parameter.Some? ==>
          Answer(ReportModule(x.command.parameter.value), a, b, Script(x)))
      && (8 <= code && code != 128 ==> Script(x) == [])
  {
    hide StartScript, StopScript, TimeAt, Sends, InitFields, Descriptions, ModuleScript, IsOff, Ask;
  }

  /** How many events the modules registered before module k have, which stand behind it. */
  function EventsBefore(ms: seq<ModuleInfo>, k: nat): nat
    requires k < |ms|
    decreases |ms| - k
  {
    if k == |ms| - 1 then 0 else ms[k + 1].m.numEvents + EventsBefore(ms, k + 1)
  }

  /** The events of module k start behind those of the modules registered before, counted from 512 modulo 2^32. */
  predicate OffsetCounts(ms: seq<ModuleInfo>, k: nat)
    requires k < |ms|
  {
    ms[k].offset == (512 + EventsBefore(ms, k)) % 0x1_0000_0000
  }

  /** The number of modules is told modulo 256, and all events have ids of their own as far as 32 bits allow. */
  predicate Tallied(c: Config) {
    c.numModules == |c.modules| % 256 && forall k :: 0 <= k < |c.modules| ==> OffsetCounts(c.modules, k)
  }

  lemma {:induction false} EventsBehind(m: ModuleInfo, ms: seq<ModuleInfo>, k: nat)
    requires k < |ms|
    ensures EventsBefore([m] + ms, k + 1) == EventsBefore(ms, k)
    decreases |ms| - k
  {
    if k < |ms| - 1 {
      EventsBehind(m, ms, k + 1);
      assert ([m] + ms)[k + 2] == ms[k + 1];
    }
  }

  lemma OffsetBehind(m: ModuleInfo, ms: seq<ModuleInfo>, k: nat)
    requires k < |ms| && OffsetCounts(ms, k)
    ensures OffsetCounts([m] + ms, k + 1)
  {
    EventsBehind(m, ms, k);
    hide EventsBefore;
  }

  lemma OffsetOfFirst(m: ModuleInfo, ms: seq<ModuleInfo>)
    requires ms != [] ==> OffsetCounts(ms, 0)
    requires m.offset == if ms == [] then 512 else Add32(ms[0].offset, ms[0].m.numEvents)
    ensures OffsetCounts([m] + ms, 0)
  {
    if ms != [] {
      EventsBehind(m, ms, 0);
      NextOffset(512 + EventsBefore(ms, 0), ms[0].m.numEvents);
    }
  }

  lemma RegisteredTallied(c: Config, m: Module)
    requires Tallied(c)
    ensures Tallied(WithModule(c, m))
  {
    hide OffsetCounts;
    var ms, all := c.modules, WithModule(c, m).modules;
    var first := all[0];
    assert all == [first] + ms;
    OffsetOfFirst(first, ms);
    forall k | 0 <= k < |all|
      ensures OffsetCounts(all, k)
    {
      if k != 0 {
        OffsetBehind(first, ms, k - 1);
      }
    }
  }

  lemma NextOffset(x: nat, n: u32)
    ensures Add32(U32(x), n) == U32(x + n)
  {
  }

  lemma {:induction false} StepsTally(calls: seq<Call>, steps: seq<Snap>, answers: seq<seq<Act>>, whole: bool)
    requires AllDone(calls, steps, answers, whole) && Tallied(steps[0].config)
    ensures Tallied(steps[|calls|].config)
  {
    hide Answer, Tallied;
    if calls != [] {
      var n := |calls| - 1;
      StepsTally(calls[..n], steps[..n + 1], answers[..n], whole);
      assert Done(calls[n], steps[n], steps[n + 1], answers[n], whole);
      FollowsKeeps(steps[n].(config := Adjusted(calls[n], steps[n].config)), steps[n + 1], answers[n], whole);
      hide Done, Follows;
      AdjustedTallied(calls[n], steps[n].config);
    }
  }

  lemma AdjustedTallied(call: Call, c: Config)
    requires Tallied(c)
    ensures Tallied(Adjusted(call, c))
  {
    hide EventsBefore;
    if call.Register? {
      RegisteredTallied(c, call.m);
    }
  }

  // Masks ------------------------------------------------------------------------------------------

  /** The event is disabled by the calls so far, when it was or was not to begin with. */
  function Disabled(calls: seq<Call>, id: u32, was: bool): bool {
    if calls == [] then was
    else
      var before := Disabled(calls[..|calls| - 1], id, was);
      match calls[|calls| - 1]
      case Disable(mask) => before || Bit(mask, id)
      case Enable(mask) => before && !Bit(mask, id)
      case _ => before
  }

  lemma MaskByDisable(c: Config, mask: bv32, id: u32)
    ensures Masked(Adjusted(Disable(mask), c).disabled, id) == (Masked(c.disabled, id) || Bit(mask, id))
  {
    hide Masked, Bit, With;
    MaskedWith(c.disabled, mask, id);
  }

  lemma MaskByEnable(c: Config, mask: bv32, id: u32)
    ensures Masked(Adjusted(Enable(mask), c).disabled, id) == (Masked(c.disabled, id) && !Bit(mask, id))
  {
    hide Masked, Bit, Without;
    MaskedWithout(c.disabled, mask, id);
  }

  lemma MaskByOthers(call: Call, c: Config)
    requires !call.Disable? && !call.Enable?
    ensures Adjusted(call, c).disabled == c.disabled
  {
  }

  lemma AdjustedMask(call: Call, c: Config, id: u32)
    ensures Masked(Adjusted(call, c).disabled, id) ==
      match call
      case Disable(mask) => Masked(c.disabled, id) || Bit(mask, id)
      case Enable(mask) => Masked(c.disabled, id) && !Bit(mask, id)
      case _ => Masked(c.disabled, id)
  {
    hide Masked, Bit, Adjusted;
    match call {
      case Disable(mask) => MaskByDisable(c, mask, id);
      case Enable(mask) => MaskByEnable(c, mask, id);
      case _ => MaskByOthers(call, c);
    }
  }

  lemma {:induction false} StepsMask(calls: seq<Call>, steps: seq<Snap>, answers: seq<seq<Act>>, whole: bool, id: u32)
    requires AllDone(calls, steps, answers, whole)
    ensures Masked(steps[|calls|].config.disabled, id) == Disabled(calls, id, Masked(steps[0].config.disabled, id))
  {
    hide Masked, Bit, Answer, Adjusted;
    if calls != [] {
      var n := |calls| - 1;
      StepsMask(calls[..n], steps[..n + 1], answers[..n], whole, id);
      assert Done(calls[n], steps[n], steps[n + 1], answers[n], whole);
      var a := steps[n].(config := Adjusted(calls[n], steps[n].config));
      FollowsKeeps(a, steps[n + 1], answers[n], whole);
      hide Done, Follows;
      AdjustedMask(calls[n], steps[n].config, id);
    }
  }

  /** The event was looked at to be filtered, stored or lost. */
  predicate Tried(e: Entry) {
    e.Request? && (e.outcome.Filtered? || e.outcome.Stored? || e.outcome.Lost?)
  }

  /** Of the entries of log from position at on that were tried, exactly those are filtered that the calls have
      disabled, given what was masked at the beginning. */
  predicate FilteredBy(calls: seq<Call>, first: bv32, log: seq<Entry>, at: nat) {
    forall i :: at <= i < |log| && Tried(log[i]) ==>
      log[i].outcome.Filtered? == Disabled(calls, log[i].event.id, Masked(first, log[i].event.id))
  }

  /** Of the events that were tried exactly those are filtered that the calls so far have disabled. */
  ghost predicate FilteredAsAsked(calls: seq<Call>, steps: seq<Snap>)
    requires |steps| == |calls| + 1
  {
    forall i :: 0 <= i < |calls| ==>
      FilteredBy(calls[..i + 1], steps[0].config.disabled, steps[i + 1].log, |steps[i].log|)
  }

  lemma StepFilters(calls: seq<Call>, steps: seq<Snap>, answers: seq<seq<Act>>, whole: bool)
    requires AllDone(calls, steps, answers, whole) && calls != []
    ensures var n := |calls| - 1;
      FilteredBy(calls, steps[0].config.disabled, steps[n + 1].log, |steps[n].log|)
  {
    hide Masked, Answer, Adjusted, Disabled;
    var n := |calls| - 1;
    var a, b := steps[n].(config := Adjusted(calls[n], steps[n].config)), steps[n + 1];
    assert Done(calls[n], steps[n], b, answers[n], whole);
    FollowsKeeps(a, b, answers[n], whole);
    hide Done, Follows;
    forall i | |a.log| <= i < |b.log| && Tried(b.log[i])
      ensures b.log[i].outcome.Filtered?
        == Disabled(calls, b.log[i].event.id, Masked(steps[0].config.disabled, b.log[i].event.id))
    {
      StepsMask(calls, steps, answers, whole, b.log[i].event.id);
      assert Screens(b.config.disabled, b.log[i]);
    }
  }

  lemma StepsFilter(calls: seq<Call>, steps: seq<Snap>, answers: seq<seq<Act>>, whole: bool)
    requires AllDone(calls, steps, answers, whole)
    ensures FilteredAsAsked(calls, steps)
  {
    hide Done, FilteredBy;
    forall i | 0 <= i < |calls|
      ensures FilteredBy(calls[..i + 1], steps[0].config.disabled, steps[i + 1].log, |steps[i].log|)
    {
      StepFilters(calls[..i + 1], steps[..i + 2], answers[..i + 1], whole);
    }
  }

  lemma {:induction false} NeverDisabled(calls: seq<Call>, id: u32)
    requires forall c :: c in calls ==> !c.Disable?
    ensures !Disabled(calls, id, false)
  {
    if calls != [] {
      NeverDisabled(calls[..|calls| - 1], id);
      assert calls[|calls| - 1] in calls;
    }
  }

  predicate NoneFiltered(log: seq<Entry>) {
    forall i :: 0 <= i < |log| && log[i].Request? ==> !log[i].outcome.Filtered?
  }

  /** If nothing is ever disabled nothing is filtered. */
  lemma {:induction false} NothingFiltered(calls: seq<Call>, steps: seq<Snap>, answers: seq<seq<Act>>, whole: bool)
    requires AllDone(calls, steps, answers, whole) && steps[0].config.disabled == 0 && NoneFiltered(steps[0].log)
    requires forall c :: c in calls ==> !c.Disable?
    ensures NoneFiltered(steps[|calls|].log)
  {
    hide Masked, Answer, Adjusted, Disabled;
    if calls != [] {
      var n := |calls| - 1;
      NothingFiltered(calls[..n], steps[..n + 1], answers[..n], whole);
      var a, b := steps[n].(config := Adjusted(calls[n], steps[n].config)), steps[n + 1];
      assert Done(calls[n], steps[n], b, answers[n], whole);
      FollowsKeeps(a, b, answers[n], whole);
      hide Done, Follows;
      forall i | 0 <= i < |b.log| && b.log[i].Request?
        ensures !b.log[i].outcome.Filtered?
      {
        var id := b.log[i].event.id;
        if i < |a.log| {
          assert b.log[i] == a.log[i];
        } else {
          StepsMask(calls, steps, answers, whole, id);
          MaskedExactly(0, id);
          NeverDisabled(calls, id);
          assert Screens(b.config.disabled, b.log[i]);
        }
      }
    }
  }

  /** Every call of a run means what it should. */
  lemma StepsMean(calls: seq<Call>, steps: seq<Snap>, answers: seq<seq<Act>>, whole: bool)
    requires AllDone(calls, steps, answers, whole)
    ensures forall i :: 0 <= i < |calls| ==>
      Means(calls[i], steps[i].(config := Adjusted(calls[i], steps[i].config)), steps[i + 1], answers[i])
  {
    hide Done, Means, Adjusted;
    forall i | 0 <= i < |calls|
      ensures Means(calls[i], steps[i].(config := Adjusted(calls[i], steps[i].config)), steps[i + 1], answers[i])
    {
      DoneMeans(calls[i], steps[i], steps[i + 1], answers[i], whole);
    }
  }

  /** After a mask has been disabled, and until something is enabled or disabled again, exactly its events and
      those disabled before are. */
  lemma {:induction false} DisabledSince(calls: seq<Call>, mask: bv32, more: seq<Call>, id: u32, was: bool)
    requires forall c :: c in more ==> !c.Disable? && !c.Enable?
    ensures Disabled(calls + [Disable(mask)] + more, id, was) == (Disabled(calls, id, was) || Bit(mask, id))
  {
    hide Bit;
    var all := calls + [Disable(mask)] + more;
    if more == [] {
      assert all[..|all| - 1] == calls && all[|all| - 1] == Disable(mask);
    } else {
      var front := more[..|more| - 1];
      assert all[..|all| - 1] == calls + [Disable(mask)] + front && all[|all| - 1] == more[|more| - 1];
      assert more[|more| - 1] in more;
      DisabledSince(calls, mask, front, id, was);
    }
  }
}
