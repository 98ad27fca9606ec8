/** Events that a host can take apart: what the recorder asks for on its own account are such events,
    and if all requests are, then so is everything that is stored. */
module Conformance {
  import opened Bytes
  import opened Codec
  import opened Packets
  import opened Modules
  import opened Trace
  import opened Sessions

  // Conforming requests make conforming streams -------------------------------------------------

  predicate ConformingActs(acts: seq<Act>) {
    forall a :: a in acts && a.Send? ==> Conforms(a.event)
  }

  predicate ConformingRecordings(rs: seq<Recording>) {
    forall r :: r in rs ==> Conforms(EventOf(r))
  }

  predicate ConformingConfig(c: Config) {
    && ConformingRecordings(c.sysDesc) && ConformingRecordings(c.taskList)
    && forall m :: m in c.modules ==> ConformingRecordings(m.m.description)
  }

  /** Parameters in the order of the fixed layout, or any parameters under an id with a length, conform. */
  lemma FieldsConform(id: u32, fields: seq<Field>)
    requires Readable(fields)
    requires if id < FIRST_WITH_LENGTH then Schema(id) == Some(Kinds(fields))
             else id < 0x4000 && |EncodeFields(fields)| < 0x4000
    ensures Conforms(EventOf(AnyRecording(id, fields)))
  {
    FieldsRoundTrip(fields, []);
    assert EncodeFields(fields) + [] == EncodeFields(fields);
  }

  lemma TimeConforms(source: TimeSource, i: nat)
    ensures ConformingActs([TimeAt(source, i)])
  {
    hide ParseFields, EncodeFields, Conforms;
    match source.osTime {
      case Some(read) =>
        var fields := [Num(U32(read(i))), Num(U32(read(i) / TWO32))];
        assert fields[1..] == [fields[1]] && Kinds(fields) == [NumKind, NumKind];
        FieldsConform(EVTID_SYSTIME_US, fields);
      case None =>
        assert Kinds([Num(source.clock(i))]) == [NumKind];
        FieldsConform(EVTID_SYSTIME_CYCLES, [Num(source.clock(i))]);
    }
  }

  lemma SendsConform(rs: seq<Recording>)
    requires ConformingRecordings(rs)
    ensures ConformingActs(Sends(rs))
  {
    forall a | a in Sends(rs) && a.Send?
      ensures Conforms(a.event)
    {
      var i :| 0 <= i < |rs| && Sends(rs)[i] == a;
      assert rs[i] in rs;
    }
  }

  lemma {:induction false} DescriptionsConform(ms: seq<ModuleInfo>)
    requires forall m :: m in ms ==> ConformingRecordings(m.m.description)
    ensures ConformingActs(Descriptions(ms))
  {
    hide Sends, ConformingRecordings;
    if ms != [] {
      SendsConform(ms[0].m.description);
      DescriptionsConform(ms[1..]);
    }
  }

  lemma VoidConforms(id: u32)
    requires id == EVTID_TRACE_START || id == EVTID_TRACE_STOP
    ensures ConformingActs([Ask(id, [])])
  {
    FieldsConform(id, []);
  }

  lemma InitConforms(c: Config)
    ensures ConformingActs([Ask(EVTID_INIT, InitFields(c))])
    ensures ConformingActs([Ask(EVTID_NUMMODULES, [Num(c.numModules)])])
  {
    NumbersBound(InitFields(c));
    NumbersBound([Num(c.numModules)]);
    FieldsConform(EVTID_INIT, InitFields(c));
    FieldsConform(EVTID_NUMMODULES, [Num(c.numModules)]);
  }

  lemma ModuleConforms(id: byte, offset: u32, text: seq<byte>)
    ensures ConformingActs([Ask(EVTID_MODULEDESC, ModuleFields(id, offset, text))])
  {
    var fields := ModuleFields(id, offset, text);
    hide ParseFields, EncodeFields, Conforms;
    assert fields[1..] == [fields[1], fields[2]] && fields[1..][1..] == [fields[2]];
    assert Kinds([fields[2]]) == [TextKind] && Kinds([fields[1], fields[2]]) == [NumKind, TextKind];
    assert Kinds(fields) == [NumKind] + Kinds(fields[1..]) == [NumKind, NumKind, TextKind];
    FieldsConform(EVTID_MODULEDESC, fields);
  }

  lemma ModuleScriptConforms(c: Config, id: byte)
    ensures ConformingActs(ModuleScript(c, id))
  {
    hide Conforms, EventOf, ModuleFields;
    if id < |c.modules| {
      ModuleConforms(id, c.modules[id].offset, c.modules[id].m.name);
    }
  }

  lemma StartConforms(c: Config, tick: nat)
    requires ConformingConfig(c)
    ensures ConformingActs(StartScript(c, tick))
  {
    hide Conforms, EventOf, Sends, TimeAt, InitFields;
    TimeConforms(c.source, tick);
    InitConforms(c);
    VoidConforms(EVTID_TRACE_START);
    SendsConform(c.sysDesc);
    SendsConform(c.taskList);
  }

  lemma StopConforms()
    ensures ConformingActs(StopScript())
  {
    hide Conforms, EventOf;
    VoidConforms(EVTID_TRACE_STOP);
  }

  lemma SystemConforms(c: Config)
    requires ConformingConfig(c)
    ensures ConformingActs([Ask(EVTID_INIT, InitFields(c))] + Sends(c.sysDesc))
  {
    hide Conforms, EventOf, Sends, InitFields;
    InitConforms(c);
    SendsConform(c.sysDesc);
  }

  /** Whatever the host asks for, the answers conform, provided the callbacks do. */
  lemma ScriptConforms(x: Executed)
    requires ConformingConfig(x.config)
    ensures ConformingActs(Script(x))
  {
    hide ConformingActs, Sends, TimeAt, InitFields, StartScript, StopScript, ModuleScript, Descriptions;
    var c := x.config;
    TimeConforms(c.source, x.tick);
    InitConforms(c);
    SystemConforms(c);
    StartConforms(c, x.tick);
    StopConforms();
    SendsConform(c.taskList);
    DescriptionsConform(c.modules);
    if x.command.parameter.Some? {
      ModuleScriptConforms(c, x.command.parameter.value);
    }
    NothingConforms();
  }

  lemma NothingConforms()
    ensures ConformingActs([])
  {
  }

  lemma {:induction false} ScriptsConform(xs: seq<Executed>)
    requires forall x :: x in xs ==> ConformingConfig(x.config)
    ensures ConformingActs(Scripts(xs))
  {
    hide Script, ConformingConfig;
    if xs != [] {
      assert xs[|xs| - 1] in xs;
      ScriptConforms(xs[|xs| - 1]);
      ScriptsConform(xs[..|xs| - 1]);
    }
  }

  /** If everything asked for conforms, then so does everything stored. */
  lemma {:induction false} LogConforms(log: seq<Entry>)
    requires ConformingActs(ActsAt(log, false)) && ConformingActs(ActsAt(log, true))
    ensures AllConform(log)
  {
    hide Conforms;
    if log != [] {
      var front, last := log[..|log| - 1], log[|log| - 1];
      LogConforms(front);
      if last.Request? {
        assert Send(last.event) in ActsAt(log, last.nested);
      }
    }
  }

  lemma {:induction false} ActsConcat(a: seq<Entry>, b: seq<Entry>, nested: bool)
    ensures ActsAt(a + b, nested) == ActsAt(a, nested) + ActsAt(b, nested)
  {
    hide ActOf;
    if b == [] {
      assert a + b == a && ActsAt(a, nested) + [] == ActsAt(a, nested);
    } else {
      var front, last := b[..|b| - 1], b[|b| - 1];
      assert (a + b)[..|a + b| - 1] == a + front && (a + b)[|a + b| - 1] == last;
      ActsConcat(a, front, nested);
      var more := if !last.Overflow? && last.nested == nested then ActOf(last) else [];
      Regroup(ActsAt(a, nested), ActsAt(front, nested), more);
    }
  }

  /** One step of a recorder adds conforming packets if its caller asks for such and the callbacks do. */
  lemma StepConforms(a: Snap, b: Snap, acts: seq<Act>, whole: bool)
    requires Follows(a, b, acts, whole) && a.depth == 0 && AllConform(a.log)
    requires ConformingActs(acts) && ConformingConfig(a.config)
    ensures AllConform(b.log)
  {
    hide ConformingActs, ConformingConfig, Framed, Scripts, ActsAt;
    var more, xs := b.log[|a.log|..], b.executed[|a.executed|..];
    assert b.log == a.log + more;
    ActsConcat(a.log, more, false);
    ActsConcat(a.log, more, true);
    forall x | x in xs
      ensures x.config == a.config
    {
      var i :| 0 <= i < |xs| && xs[i] == x;
      assert Witnessed(a, b, |a.executed| + i);
    }
    ScriptsConform(xs);
    SuffixEqual(ActsAt(a.log, false), ActsAt(more, false), acts);
    SuffixEqual(ActsAt(a.log, true), ActsAt(more, true), Scripts(xs));
    LogConforms(more);
  }

  lemma SuffixEqual(a: seq<Act>, x: seq<Act>, y: seq<Act>)
    requires a + x == a + y
    ensures x == y
  {
    assert x == (a + x)[|a|..] && y == (a + y)[|a|..];
  }
}
