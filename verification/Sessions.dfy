/** What a recorder is asked to do, by the application and by commands of the host, as opposed to
    what becomes of it. */
module Sessions {
  import opened Bytes
  import opened Codec
  import opened Commands
  import opened Packets
  import opened Modules
  import opened Masks
  import opened Trace

  datatype Act = Send(event: Event) | TurnOn | TurnOff | SendSync

  function ActOf(e: Entry): seq<Act> {
    match e
    case Request(_, event, _) => [Send(event)]
    case Overflow(_, _, _) => []
    case Sync(_, _) => [SendSync]
    case Started(_) => [TurnOn]
    case Stopped(_) => [TurnOff]
  }

  /** The acts asked for by the application (nested is false) or by commands (nested is true). */
  function ActsAt(log: seq<Entry>, nested: bool): seq<Act> {
    if log == [] then []
    else
      var last := log[|log| - 1];
      ActsAt(log[..|log| - 1], nested) + (if !last.Overflow? && last.nested == nested then ActOf(last) else [])
  }

  // Commands ------------------------------------------------------------------------------------

  const START: byte := 1
  const STOP: byte := 2
  const GET_SYSTIME: byte := 3
  const GET_TASKLIST: byte := 4
  const GET_SYSDESC: byte := 5
  const GET_NUMMODULES: byte := 6
  const GET_MODULEDESC: byte := 7
  const GET_MODULE: byte := 128

  const EVTID_TASK_INFO: u32 := 9
  const EVTID_TRACE_START: u32 := 10
  const EVTID_TRACE_STOP: u32 := 11
  const EVTID_SYSTIME_CYCLES: u32 := 12
  const EVTID_SYSTIME_US: u32 := 13
  const EVTID_STACK_INFO: u32 := 21
  const EVTID_MODULEDESC: u32 := 22
  const EVTID_INIT: u32 := 24
  const EVTID_NUMMODULES: u32 := 27
  const ID_SHIFT: u32 := 2

  /** A registered module and the event offset it has been given. */
  datatype ModuleInfo = ModuleInfo(m: Module, offset: u32)

  /** Where times come from: what the i-th reading of the clock yields, and of the OS's own time if there is one. */
  datatype TimeSource = TimeSource(clock: nat -> u32, osTime: Option<nat -> nat>)

  /** The part of the recorder that decides how commands are answered, and which events are masked. */
  datatype Config = Config(sysFreq: u32, cpuFreq: u32, ramBase: u32, sysDesc: seq<Recording>,
                           taskList: seq<Recording>, numModules: byte, modules: seq<ModuleInfo>, source: TimeSource,
                           disabled: bv32)

  function Sends(rs: seq<Recording>): (r: seq<Act>)
    ensures |r| == |rs|
  {
    seq(|rs|, i requires 0 <= i < |rs| => Send(EventOf(rs[i])))
  }

  function InitFields(c: Config): seq<Field> {
    [Num(c.sysFreq), Num(c.cpuFreq), Num(c.ramBase), Num(ID_SHIFT)]
  }

  function ModuleFields(id: byte, offset: u32, text: seq<byte>): seq<Field> {
    [Num(id), Num(offset), Text(text, MAX_STRING_LEN)]
  }

  function Ask(id: u32, fields: seq<Field>): Act {
    Send(EventOf(AnyRecording(id, fields)))
  }

  function Descriptions(ms: seq<ModuleInfo>): seq<Act> {
    if ms == [] then [] else Sends(ms[0].m.description) + Descriptions(ms[1..])
  }

  /** A report of the system time, by the OS in microseconds or else as a timestamp. */
  function TimeAt(source: TimeSource, i: nat): Act {
    match source.osTime
    case Some(read) => Ask(EVTID_SYSTIME_US, [Num(U32(read(i))), Num(U32(read(i) / TWO32))])
    case None => Ask(EVTID_SYSTIME_CYCLES, [Num(source.clock(i))])
  }

  function Introduction(c: Config, tick: nat): seq<Act> {
    [Ask(EVTID_TRACE_START, [])] + ([Ask(EVTID_INIT, InitFields(c))] + Sends(c.sysDesc)) + [TimeAt(c.source, tick)]
    + Sends(c.taskList) + [Ask(EVTID_NUMMODULES, [Num(c.numModules)])]
  }

  function StartScript(c: Config, tick: nat): seq<Act> {
    [TurnOn, SendSync] + Introduction(c, tick)
  }

  function StopScript(): seq<Act> {
    [Ask(EVTID_TRACE_STOP, []), TurnOff]
  }

  function ModuleScript(c: Config, id: byte): seq<Act> {
    if |c.modules| <= id then []
    else [Ask(EVTID_MODULEDESC, ModuleFields(id, c.modules[id].offset, c.modules[id].m.name))]
  }

  /** The settings after m has been registered. */
  function WithModule(c: Config, m: Module): Config {
    var offset := if c.modules == [] then MODULE_EVENT_OFFSET else Add32(c.modules[0].offset, c.modules[0].m.numEvents);
    c.(numModules := U8(|c.modules| + 1), modules := [ModuleInfo(m, offset)] + c.modules)
  }

  /** SHRINK_ID: ids are addresses; what is sent is the distance from the base, without the low bits. */
  function ShrinkId(id: u32, base: u32): u32 {
    Sub32(id, base) / 4
  }

  /** Task information and stack information of one task. */
  function TaskInfoActs(c: Config, task: u32, prio: u32, name: seq<byte>, base: u32, size: u32): seq<Act> {
    var id := ShrinkId(task, c.ramBase);
    [Ask(EVTID_TASK_INFO, [Num(id), Num(prio), Text(name, 32)]),
     Ask(EVTID_STACK_INFO, [Num(id), Num(base), Num(size), Num(0)])]
  }

  /** A command together with the circumstances it was executed in: the length of the history at that moment,
      whether recording was off, the settings, how often the time had been read, and the number of the time
      reading used in the answer. */
  datatype Executed = Executed(command: Command, at: nat, wasOff: bool, config: Config, readings: nat, tick: nat)

  /** What a command makes the recorder do. */
  function Script(x: Executed): seq<Act> {
    var c, code := x.config, x.command.code;
    if code == START then (if x.wasOff then StartScript(c, x.tick) else [])
    else if code == STOP then (if x.wasOff then [] else StopScript())
    else if code == GET_SYSTIME then [TimeAt(c.source, x.tick)]
    else if code == GET_TASKLIST then Sends(c.taskList)
    else if code == GET_SYSDESC then [Ask(EVTID_INIT, InitFields(c))] + Sends(c.sysDesc)
    else if code == GET_NUMMODULES then [Ask(EVTID_NUMMODULES, [Num(c.numModules)])]
    else if code == GET_MODULEDESC then Descriptions(c.modules)
    else if code == GET_MODULE && x.command.parameter.Some? then ModuleScript(c, x.command.parameter.value)
    else []
  }

  /** A time in the answer to the command was read while it was executed, up to reading number end; if the time
      was all that was asked for, it is the next one. */
  predicate TimeIsNew(x: Executed, end: nat) {
    && (x.command.code == GET_SYSTIME ==> x.tick == x.readings < end)
    && (x.command.code == START && x.wasOff ==> x.readings <= x.tick < end)
  }

  function Scripts(xs: seq<Executed>): seq<Act> {
    if xs == [] then [] else Scripts(xs[..|xs| - 1]) + Script(xs[|xs| - 1])
  }

  function CommandsOf(xs: seq<Executed>): (r: seq<Command>)
    ensures |r| == |xs|
  {
    seq(|xs|, i requires 0 <= i < |xs| => xs[i].command)
  }

  // Steps of a recorder -------------------------------------------------------------------------

  /** What matters about a recorder between two steps: t0 is the time of initialisation, sent and taken the
      command bytes published and read so far, depth is RecursionCnt, and readings counts the readings of the
      time source. */
  datatype Snap = Snap(t0: u32, log: seq<Entry>, executed: seq<Executed>, sent: seq<byte>, taken: seq<byte>,
                       depth: nat, config: Config, readings: nat)

  /** The history leaves recording off. */
  predicate IsOff(t0: u32, log: seq<Entry>) {
    var s := Replay(Initial(t0), log);
    s.Some? && s.value.enable == OFF
  }

  /** Command bytes have been understood the way the host meant them. */
  predicate Framed(s: Snap) {
    Complete(s.taken) && Decode(s.taken) == CommandsOf(s.executed)
  }

  /** Exactly the disabled events are filtered. */
  predicate Screens(disabled: bv32, e: Entry) {
    e.Request? ==>
      && (e.outcome.Filtered? ==> Masked(disabled, e.event.id))
      && (e.outcome.Stored? || e.outcome.Lost? ==> !Masked(disabled, e.event.id))
  }

  /** From a to b time has gone on, and the settings have stayed. */
  ghost predicate Later(a: Snap, b: Snap) {
    && b.t0 == a.t0 && b.depth == a.depth && b.config == a.config
    && a.log <= b.log && a.readings <= b.readings && a.sent <= b.sent
    && forall i :: |a.log| <= i < |b.log| ==> Screens(a.config.disabled, b.log[i])
  }

  /** The command executed as number k, between a and b, met the circumstances that are noted with it, and
      what had been done for commands until then are the answers to the commands before it. */
  ghost predicate Witnessed(a: Snap, b: Snap, k: nat)
    requires |a.executed| <= k < |b.executed|
  {
    var x := b.executed[k];
    && x.config == a.config
    && |a.log| <= x.at <= |b.log| && x.wasOff == IsOff(b.t0, b.log[..x.at])
    && a.readings <= x.readings && TimeIsNew(x, b.readings)
    && ActsAt(b.log[..x.at], true) == ActsAt(a.log, true) + Scripts(b.executed[|a.executed|..k])
  }

  ghost predicate AllWitnessed(a: Snap, b: Snap) {
    forall k :: |a.executed| <= k < |b.executed| ==> Witnessed(a, b, k)
  }

  function SendCount(acts: seq<Act>): nat {
    if acts == [] then 0 else SendCount(acts[..|acts| - 1]) + if acts[|acts| - 1].Send? then 1 else 0
  }

  /** After n sends from a to b, at most n commands have been executed, and n of them or all that were waiting
      at a. */
  ghost predicate Prompt(a: Snap, b: Snap, n: nat, whole: bool) {
    && |b.executed| <= |a.executed| + n
    && (whole && Framed(a) && Complete(a.sent) ==> Min(|a.executed| + n, |Decode(a.sent)|) <= |b.executed|)
  }

  /** From a to b exactly acts were done on behalf of the caller. Inside a command nothing else happens;
      outside, commands may have been executed in between, each of them completely. */
  ghost predicate Does(a: Snap, b: Snap, acts: seq<Act>, whole: bool) {
    && Later(a, b) && a.executed <= b.executed
    && ActsAt(b.log, a.depth == 1) == ActsAt(a.log, a.depth == 1) + acts
    && if a.depth == 1 then
         b.taken == a.taken && b.executed == a.executed && ActsAt(b.log, false) == ActsAt(a.log, false)
       else
         && ActsAt(b.log, true) == ActsAt(a.log, true) + Scripts(b.executed[|a.executed|..])
         && AllWitnessed(a, b)
         && (whole && Framed(a) ==> Framed(b))
         && (whole && Complete(a.sent) ==> Complete(b.sent))
  }

  /** The same, with as many commands executed as there were occasions. */
  ghost predicate Follows(a: Snap, b: Snap, acts: seq<Act>, whole: bool) {
    Does(a, b, acts, whole) && (a.depth != 1 ==> Prompt(a, b, SendCount(acts), whole))
  }

  /** From a to b one command was executed. */
  ghost predicate Handled(a: Snap, b: Snap, x: Executed, whole: bool) {
    && Later(a, b) && b.executed == a.executed + [x] && x.config == a.config
    && x.at == |a.log| && x.wasOff == IsOff(a.t0, a.log)
    && x.readings == a.readings && TimeIsNew(x, b.readings)
    && ActsAt(b.log, false) == ActsAt(a.log, false)
    && ActsAt(b.log, true) == ActsAt(a.log, true) + Script(x)
    && (whole && Framed(a) ==> Framed(b))
    && (whole && Complete(a.sent) ==> Complete(b.sent))
  }

  /** bytes are those of one complete command. */
  predicate IsCommand(bytes: seq<byte>, c: Command) {
    if c.code < 128 then bytes == [c.code] && c.parameter == None
    else c.parameter.Some? && bytes == [c.code, c.parameter.value]
  }

  lemma {:induction false} ScriptsConcat(a: seq<Executed>, b: seq<Executed>)
    ensures Scripts(a + b) == Scripts(a) + Scripts(b)
  {
    hide Script;
    if b == [] {
      assert a + b == a;
    } else {
      var front, last := b[..|b| - 1], Script(b[|b| - 1]);
      assert (a + b)[..|a + b| - 1] == a + front;
      ScriptsConcat(a, front);
      assert Scripts(a) + (Scripts(front) + last) == Scripts(a) + Scripts(front) + last;
    }
  }

  lemma FollowsNothing(a: Snap, whole: bool)
    ensures Follows(a, a, [], whole)
  {
    assert a.executed[|a.executed|..] == [];
    assert ActsAt(a.log, false) + [] == ActsAt(a.log, false);
    assert ActsAt(a.log, true) + [] == ActsAt(a.log, true);
  }

  lemma {:induction false} SendCountConcat(a: seq<Act>, b: seq<Act>)
    ensures SendCount(a + b) == SendCount(a) + SendCount(b)
  {
    if b == [] {
      assert a + b == a;
    } else {
      assert (a + b)[..|a + b| - 1] == a + b[..|b| - 1];
      SendCountConcat(a, b[..|b| - 1]);
    }
  }

  /** More bytes mean no fewer commands. */
  lemma MoreCommands(a: seq<byte>, b: seq<byte>)
    requires Complete(a) && a <= b
    ensures |Decode(a)| <= |Decode(b)|
  {
    CompleteConcat(a, b[|a|..]);
    assert a + b[|a|..] == b;
  }

  /** Occasions add up: first n, then m sends. */
  lemma PromptThen(a: Snap, b: Snap, c: Snap, n: nat, m: nat, whole: bool)
    requires Prompt(a, b, n, whole) && Prompt(b, c, m, whole) && a.sent <= b.sent
    requires whole && Framed(a) ==> Framed(b)
    requires whole && Complete(a.sent) ==> Complete(b.sent)
    ensures Prompt(a, c, n + m, whole)
  {
    hide Framed, Decode, Complete;
    if whole && Framed(a) && Complete(a.sent) {
      MoreCommands(a.sent, b.sent);
    }
  }

  /** Commands executed in the second of two steps, seen from before the first. */
  lemma StillWitnessed(a: Snap, b: Snap, c: Snap, k: nat)
    requires Later(a, b) && Later(b, c) && a.executed <= b.executed <= c.executed
    requires |a.executed| <= k < |c.executed|
    requires if k < |b.executed| then Witnessed(a, b, k) else Witnessed(b, c, k)
    requires ActsAt(b.log, true) == ActsAt(a.log, true) + Scripts(b.executed[|a.executed|..])
    ensures Witnessed(a, c, k)
  {
    hide ActsAt, Scripts, IsOff, Screens;
    var n, x := |b.executed|, c.executed[k];
    if k < n {
      assert c.log[..x.at] == b.log[..x.at];
      assert c.executed[|a.executed|..k] == b.executed[|a.executed|..k];
    } else {
      var first, second := b.executed[|a.executed|..], c.executed[n..k];
      assert c.executed[|a.executed|..k] == first + second;
      ScriptsConcat(first, second);
      assert ActsAt(a.log, true) + Scripts(first) + Scripts(second)
        == ActsAt(a.log, true) + (Scripts(first) + Scripts(second));
    }
  }

  lemma LaterThen(a: Snap, b: Snap, c: Snap)
    requires Later(a, b) && Later(b, c)
    ensures Later(a, c)
  {
    hide Screens;
    forall i | |a.log| <= i < |c.log|
      ensures Screens(a.config.disabled, c.log[i])
    {
      assert i < |b.log| ==> c.log[i] == b.log[i];
    }
  }

  lemma DoesThen(a: Snap, b: Snap, c: Snap, first: seq<Act>, second: seq<Act>, whole: bool)
    requires Does(a, b, first, whole) && Does(b, c, second, whole)
    ensures Does(a, c, first + second, whole)
  {
    var d := a.depth == 1;
    LaterThen(a, b, c);
    assert b.depth == a.depth;
    hide ActsAt, Scripts, Framed, AllWitnessed, Complete, Screens;
    Regroup(ActsAt(a.log, d), first, second);
    if !d {
      AllWitnessedThen(a, b, c);
      hide Later;
      var x, y := b.executed[|a.executed|..], c.executed[|b.executed|..];
      assert c.executed[|a.executed|..] == x + y;
      ScriptsConcat(x, y);
      Regroup(ActsAt(a.log, true), Scripts(x), Scripts(y));
    }
  }

  lemma Regroup(a: seq<Act>, b: seq<Act>, c: seq<Act>)
    ensures a + b + c == a + (b + c)
  {
  }

  lemma AllWitnessedThen(a: Snap, b: Snap, c: Snap)
    requires Later(a, b) && Later(b, c) && a.executed <= b.executed <= c.executed
    requires AllWitnessed(a, b) && AllWitnessed(b, c)
    requires ActsAt(b.log, true) == ActsAt(a.log, true) + Scripts(b.executed[|a.executed|..])
    ensures AllWitnessed(a, c)
  {
    hide Later, ActsAt, Scripts, Witnessed;
    forall k | |a.executed| <= k < |c.executed|
      ensures Witnessed(a, c, k)
    {
      StillWitnessed(a, b, c, k);
    }
  }

  lemma FollowsThen(a: Snap, b: Snap, c: Snap, first: seq<Act>, second: seq<Act>, whole: bool)
    requires Follows(a, b, first, whole) && Follows(b, c, second, whole)
    ensures Follows(a, c, first + second, whole)
  {
    DoesThen(a, b, c, first, second, whole);
    SendCountConcat(first, second);
    hide ActsAt, Scripts, Framed, Complete, Prompt, SendCount, AllWitnessed, Screens;
    if a.depth != 1 {
      PromptThen(a, b, c, SendCount(first), SendCount(second), whole);
    }
  }

  lemma OneMoreScript(front: seq<Executed>, x: Executed)
    ensures Scripts(front + [x]) == Scripts(front) + Script(x)
  {
    assert (front + [x])[..|front|] == front;
  }

  /** A command outside of any command is a step in which nothing is done on behalf of the caller. */
  lemma HandledDoes(a: Snap, b: Snap, x: Executed, whole: bool)
    requires Handled(a.(depth := 1), b.(depth := 1), x, whole) && a.depth == b.depth == 0
    ensures Does(a, b, [], whole)
  {
    hide ActsAt, Script, Scripts, Framed, IsOff, Screens, Complete;
    FramedIgnoresDepth(a, 1);
    FramedIgnoresDepth(b, 1);
    assert b.executed[|a.executed|..] == [] + [x] && b.executed[|a.executed|..|a.executed|] == [];
    OneMoreScript([], x);
    NoScripts();
    assert b.log[..|a.log|] == a.log;
    assert [] + Script(x) == Script(x);
    assert ActsAt(a.log, true) + [] == ActsAt(a.log, true) && ActsAt(a.log, false) + [] == ActsAt(a.log, false);
  }

  lemma NoScripts()
    ensures Scripts([]) == []
  {
  }

  lemma FramedIgnoresDepth(s: Snap, d: nat)
    ensures Framed(s.(depth := d)) <==> Framed(s)
  {
  }

  lemma OneEntry(log: seq<Entry>, e: Entry, nested: bool)
    ensures ActsAt(log + [e], nested)
      == ActsAt(log, nested) + (if !e.Overflow? && e.nested == nested then ActOf(e) else [])
  {
    assert (log + [e])[..|log|] == log;
  }

  /** Adding an entry that is not a command's own doing. Meanwhile the time may have been read and the host may
      have published commands. */
  lemma EntryDoes(a: Snap, e: Entry, n: nat, sent: seq<byte>, whole: bool)
    requires a.readings <= n && a.sent <= sent && (whole && Complete(a.sent) ==> Complete(sent))
    requires (e.Overflow? || e.nested == (a.depth == 1)) && Screens(a.config.disabled, e)
    ensures Does(a, a.(log := a.log + [e], readings := n, sent := sent), ActOf(e), whole)
  {
    hide Screens, Complete, ActsAt, Scripts, ActOf, Framed;
    var b := a.(log := a.log + [e], readings := n, sent := sent);
    OneEntry(a.log, e, true);
    OneEntry(a.log, e, false);
    NoScripts();
    FramedIgnoresLog(a, b);
    assert a.executed[|a.executed|..] == [];
    assert ActsAt(a.log, true) + [] == ActsAt(a.log, true);
    assert ActsAt(a.log, false) + [] == ActsAt(a.log, false);
    if e.Overflow? {
      OverflowIsNoAct(e);
    }
  }

  lemma OverflowIsNoAct(e: Entry)
    requires e.Overflow?
    ensures ActOf(e) == []
  {
  }

  lemma FramedIgnoresLog(a: Snap, b: Snap)
    requires b.taken == a.taken && b.executed == a.executed
    ensures Framed(a) <==> Framed(b)
  {
  }

  /** Adding an entry that is no request. */
  lemma FollowsEntry(a: Snap, e: Entry, whole: bool)
    requires !e.Request? && !e.Overflow? && e.nested == (a.depth == 1)
    ensures Follows(a, a.(log := a.log + [e]), ActOf(e), whole)
  {
    EntryDoes(a, e, a.readings, a.sent, whole);
    assert ActOf(e)[..0] == [];
  }

  /** Reading one whole command keeps the host's framing. */
  lemma CommandRead(a: Snap, x: Executed, bytes: seq<byte>)
    requires Framed(a) && IsCommand(bytes, x.command)
    ensures Framed(a.(executed := a.executed + [x], taken := a.taken + bytes))
  {
    CompleteConcat(a.taken, bytes);
    assert Decode(bytes) == [x.command] by {
      assert Decode([]) == [];
      assert bytes[|bytes|..] == [];
    }
    assert CommandsOf(a.executed + [x]) == CommandsOf(a.executed) + [x.command];
  }

  /** Whatever becomes of a request, it is one request. */
  lemma AttemptDoes(a: Snap, s: State, event: Event, t1: u32, t2: u32, room1: nat, room2: nat,
                    n: nat, sent: seq<byte>, whole: bool)
    requires a.readings <= n && a.sent <= sent && (whole && Complete(a.sent) ==> Complete(sent))
    ensures var masked := Masked(a.config.disabled, event.id);
      var log := a.log + Attempt(s, a.depth == 1, event, masked, t1, t2, room1, room2);
      Does(a, a.(log := log, readings := n, sent := sent), [Send(event)], whole)
  {
    hide ActsAt, Scripts, Framed, Complete, PacketBytes, Masked;
    var own := Attempt(s, a.depth == 1, event, Masked(a.config.disabled, event.id), t1, t2, room1, room2);
    EntryDoes(a, own[0], n, sent, whole);
    if |own| == 2 {
      var b := a.(log := a.log + [own[0]], readings := n, sent := sent);
      EntryDoes(b, own[1], n, sent, whole);
      DoesThen(a, b, b.(log := b.log + [own[1]]), [], [Send(event)], whole);
      assert a.log + own == a.log + [own[0]] + [own[1]];
      assert [] + [Send(event)] == [Send(event)];
    }
  }

  /** A send: a request, and then the command that is waiting, if there is one. */
  lemma SendFollows(a: Snap, b: Snap, event: Event, whole: bool)
    requires Does(a, b, [Send(event)], whole)
    requires a.depth != 1 ==>
      |b.executed| <= |a.executed| + 1 && (a.taken == a.sent || |b.executed| == |a.executed| + 1)
    ensures Follows(a, b, [Send(event)], whole)
  {
    assert [Send(event)][..0] == [] && SendCount([Send(event)]) == 1;
    hide Does, ActsAt, Scripts, Complete, Decode;
  }

  lemma NothingDoes(a: Snap, whole: bool)
    ensures Does(a, a, [], whole)
  {
    FollowsNothing(a, whole);
  }

  lemma DoesKeeps(a: Snap, b: Snap, acts: seq<Act>, whole: bool)
    requires Does(a, b, acts, whole)
    ensures Later(a, b) && (a.depth == 1 ==> b.executed == a.executed)
  {
  }

  lemma HandledKeeps(a: Snap, b: Snap, x: Executed, whole: bool)
    requires Handled(a, b, x, whole)
    ensures Later(a, b) && b.executed == a.executed + [x]
  {
  }

  lemma FollowsKeeps(a: Snap, b: Snap, acts: seq<Act>, whole: bool)
    requires Follows(a, b, acts, whole)
    ensures Later(a, b) && (a.depth == 1 ==> b.executed == a.executed)
  {
  }

  /** Reading the time source does nothing else, nor does the host when it publishes commands. */
  lemma DoesMeanwhile(a: Snap, b: Snap, acts: seq<Act>, whole: bool, n: nat, sent: seq<byte>)
    requires a.readings <= n && a.sent <= sent && (whole && Complete(a.sent) ==> Complete(sent))
    requires Does(a.(readings := n, sent := sent), b, acts, whole)
    ensures Does(a, b, acts, whole)
  {
    hide ActsAt, Scripts, Framed, IsOff, Screens, Complete;
    var a' := a.(readings := n, sent := sent);
    assert whole && Framed(a) ==> Framed(a') by { FramedIgnoresOthers(a, n, sent); }
    if a.depth != 1 {
      forall k | |a.executed| <= k < |b.executed|
        ensures Witnessed(a, b, k)
      {
        assert Witnessed(a', b, k);
      }
    }
  }

  lemma FollowsTick(a: Snap, b: Snap, acts: seq<Act>, whole: bool, n: nat)
    requires a.readings <= n && Follows(a.(readings := n), b, acts, whole)
    ensures Follows(a, b, acts, whole)
  {
    hide ActsAt, Scripts, IsOff, Screens, Complete, Decode;
    assert a.(readings := n) == a.(readings := n, sent := a.sent);
    DoesMeanwhile(a, b, acts, whole, n, a.sent);
  }

  lemma FramedIgnoresOthers(s: Snap, n: nat, sent: seq<byte>)
    ensures Framed(s.(readings := n, sent := sent)) <==> Framed(s)
  {
  }

  /** A command is read, then what it asks for is done. */
  lemma HandledBy(a: Snap, b: Snap, x: Executed, bytes: seq<byte>, sent: seq<byte>, whole: bool)
    requires a.depth == 1 && x.config == a.config && x.at == |a.log| && x.wasOff == IsOff(a.t0, a.log)
    requires x.readings == a.readings && TimeIsNew(x, b.readings)
    requires a.sent <= sent && (whole && Complete(a.sent) ==> Complete(b.sent))
    requires Follows(a.(taken := a.taken + bytes, sent := sent), b, Script(x), whole)
    requires whole && Framed(a) ==> IsCommand(bytes, x.command)
    ensures Handled(a, b.(executed := b.executed + [x]), x, whole)
  {
    hide ActsAt, Scripts, Script, IsOff, Screens, Complete, TimeIsNew;
    if whole && Framed(a) {
      CommandRead(a, x, bytes);
    }
  }

  lemma DescriptionsStep(ms: seq<ModuleInfo>, k: nat)
    requires k < |ms|
    ensures Descriptions(ms[k..]) == Sends(ms[k].m.description) + Descriptions(ms[k + 1..])
  {
    assert ms[k..][0] == ms[k] && ms[k..][1..] == ms[k + 1..];
  }

  lemma DescriptionsEnds(ms: seq<ModuleInfo>)
    ensures Descriptions(ms[|ms|..]) == [] && ms[0..] == ms
  {
  }

  lemma NoSends(rs: seq<Recording>)
    ensures Sends(rs[..0]) == []
  {
  }

  lemma SendsStep(rs: seq<Recording>, k: nat)
    requires k < |rs|
    ensures Sends(rs[..k + 1]) == Sends(rs[..k]) + [Send(EventOf(rs[k]))]
  {
  }

  lemma FollowsStart(a: Snap, b: Snap, stored: bool, whole: bool)
    requires b == a.(log := a.log + [Started(a.depth == 1), Sync(a.depth == 1, stored)])
    ensures Follows(a, b, [TurnOn, SendSync], whole)
  {
    hide ActsAt, Scripts, Framed;
    var on, sync := Started(a.depth == 1), Sync(a.depth == 1, stored);
    var c := a.(log := a.log + [on]);
    FollowsEntry(a, on, whole);
    FollowsEntry(c, sync, whole);
    assert a.log + [on, sync] == a.log + [on] + [sync];
    FollowsThen(a, c, b, [TurnOn], [SendSync], whole);
    assert [TurnOn] + [SendSync] == [TurnOn, SendSync];
  }

  lemma ModuleFieldsFit(id: byte, offset: u32, text: seq<byte>)
    ensures 4 + |EncodeFields(ModuleFields(id, offset, text))| + QUANTA_U32 <= MAX_PACKET_SIZE
  {
    var fields := ModuleFields(id, offset, text);
    FieldsBound(fields);
    assert fields[1..] == [fields[1], fields[2]] && fields[1..][1..] == [fields[2]];
    assert Bound([fields[2]]) == MAX_STRING_LEN + 3;
    assert Bound([fields[1], fields[2]]) == QUANTA_U32 + MAX_STRING_LEN + 3;
  }

  lemma TaskInfoFits(fields: seq<Field>)
    requires |fields| == 3 && fields[0].Num? && fields[1].Num? && fields[2].Text? && fields[2].limit == 32
    ensures 4 + |EncodeFields(fields)| + QUANTA_U32 <= MAX_PACKET_SIZE
  {
    FieldsBound(fields);
    assert fields[1..] == [fields[1], fields[2]] && fields[1..][1..] == [fields[2]];
    assert Bound([fields[2]]) == 35 && Bound([fields[1], fields[2]]) == 40;
  }

  lemma EncodeNothing()
    ensures EncodeFields([]) == []
  {
  }
}
