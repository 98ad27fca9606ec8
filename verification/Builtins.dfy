/** The recording functions of the library, as ids and parameters: all of them fit the static packet
    buffer, and a host can take all their packets apart. */
module Builtins {
  import opened Bytes
  import opened UpBuffer
  import opened Codec
  import opened Packets
  import opened Sessions
  import opened Meanings
  import Numbers
  import opened Recorder
  import opened PrintBuffer
  import opened Conformance

  datatype Builtin =
    | EnterISR(interrupt: u32)
    | ExitISR
    | ExitISRToScheduler
    | EnterTimer(timer: u32)
    | ExitTimer
    | OnIdle
    | OnTaskCreate(task: u32)
    | OnTaskTerminate(task: u32)
    | OnTaskStartExec(task: u32)
    | OnTaskStopExec
    | OnTaskStartReady(task: u32)
    | OnTaskStopReady(task: u32, cause: u32)
    | OnUserStart(user: u32)
    | OnUserStop(user: u32)
    | EndCall(api: u32)
    | EndCallU32(api: u32, result: u32)
    | NameResource(resource: u32, name: seq<byte>)
    | TaskInfo(task: u32, prio: u32, name: seq<byte>)
    | StackInfo(task: u32, stackBase: u32, stackSize: u32)
    | SysDesc(text: seq<byte>)
    | ModuleDescription(index: byte, offset: u32, text: seq<byte>)
    | Print(text: seq<byte>, level: u32)

  function IdOf(b: Builtin): u32 {
    match b
    case EnterISR(_) => 2
    case ExitISR => 3
    case ExitISRToScheduler => 18
    case EnterTimer(_) => 19
    case ExitTimer => 20
    case OnIdle => 17
    case OnTaskCreate(_) => 8
    case OnTaskTerminate(_) => 29
    case OnTaskStartExec(_) => 4
    case OnTaskStopExec => 5
    case OnTaskStartReady(_) => 6
    case OnTaskStopReady(_, _) => 7
    case OnUserStart(_) => 15
    case OnUserStop(_) => 16
    case EndCall(_) => 28
    case EndCallU32(_, _) => 28
    case NameResource(_, _) => 25
    case TaskInfo(_, _, _) => 9
    case StackInfo(_, _, _) => 21
    case SysDesc(_) => 14
    case ModuleDescription(_, _, _) => EVTID_MODULEDESC
    case Print(_, _) => EVTID_PRINT_FORMATTED
  }

  /** The numbers in front, the text if there is one, and the numbers behind it. */
  datatype Layout = Layout(before: seq<u32>, text: Option<(seq<byte>, nat)>, after: seq<u32>)

  function LayoutOf(b: Builtin, base: u32): (r: Layout)
    ensures |r.before| + |r.after| <= 4
    ensures r.text == None ==> r.after == []
    ensures r.text.Some? ==> |r.before| + |r.after| <= 2 && r.text.value.1 <= MAX_STRING_LEN
  {
    match b
    case EnterISR(n) => Layout([n], None, [])
    case ExitISR | ExitISRToScheduler | ExitTimer | OnIdle | OnTaskStopExec => Layout([], None, [])
    case EnterTimer(id) => Layout([ShrinkId(id, base)], None, [])
    case OnTaskCreate(id) => Layout([ShrinkId(id, base)], None, [])
    case OnTaskTerminate(id) => Layout([ShrinkId(id, base)], None, [])
    case OnTaskStartExec(id) => Layout([ShrinkId(id, base)], None, [])
    case OnTaskStartReady(id) => Layout([ShrinkId(id, base)], None, [])
    case OnTaskStopReady(id, cause) => Layout([ShrinkId(id, base), cause], None, [])
    case OnUserStart(id) => Layout([id], None, [])
    case OnUserStop(id) => Layout([id], None, [])
    case EndCall(id) => Layout([id], None, [])
    case EndCallU32(id, result) => Layout([id, result], None, [])
    case NameResource(id, name) => Layout([ShrinkId(id, base)], Some((name, MAX_STRING_LEN)), [])
    case TaskInfo(id, prio, name) => Layout([ShrinkId(id, base), prio], Some((name, 32)), [])
    case StackInfo(id, stackBase, stackSize) => Layout([ShrinkId(id, base), stackBase, stackSize, 0], None, [])
    case SysDesc(text) => Layout([], Some((text, MAX_STRING_LEN)), [])
    case ModuleDescription(index, offset, text) => Layout([index, offset], Some((text, MAX_STRING_LEN)), [])
    case Print(text, level) => Layout([], Some((text, MAX_STRING_LEN)), [level, 0])
  }

  function NumFields(vs: seq<u32>): (r: seq<Field>)
    ensures |r| == |vs| && forall f :: f in r ==> f.Num?
  {
    seq(|vs|, i requires 0 <= i < |vs| => Num(vs[i]))
  }

  function FieldsOf(l: Layout): seq<Field> {
    NumFields(l.before) + (match l.text case None => [] case Some(t) => [Text(t.0, t.1)]) + NumFields(l.after)
  }

  lemma {:induction false} EncodeFieldsConcat(a: seq<Field>, b: seq<Field>)
    ensures EncodeFields(a + b) == EncodeFields(a) + EncodeFields(b)
  {
    if a == [] {
      assert a + b == b;
    } else {
      assert (a + b)[1..] == a[1..] + b;
      EncodeFieldsConcat(a[1..], b);
    }
  }

  lemma LayoutFits(l: Layout)
    requires |l.before| + |l.after| <= 16 && (l.text.Some? ==> l.text.value.1 <= MAX_STRING_LEN)
    ensures |EncodeFields(FieldsOf(l))| <=
      QUANTA_U32 * (|l.before| + |l.after|) + if l.text.Some? then MAX_STRING_LEN + 1 else 0
  {
    var a, b := NumFields(l.before), NumFields(l.after);
    var t: seq<Field> := match l.text case None => [] case Some(t) => [Text(t.0, t.1)];
    EncodeFieldsConcat(a + t, b);
    EncodeFieldsConcat(a, t);
    NumbersBound(a);
    NumbersBound(b);
    if l.text.Some? {
      assert t[1..] == [] && EncodeFields(t) == EncodeField(t[0]) + EncodeFields(t[1..]);
    }
  }

  lemma {:induction false} KindsAre(fields: seq<Field>)
    ensures Kinds(fields) == seq(|fields|, i requires 0 <= i < |fields| => KindOf(fields[i]))
  {
    if fields != [] {
      KindsAre(fields[1..]);
    }
  }

  /** Every packet of the library fits the buffer, including the 4 bytes in front and the 5 behind. */
  lemma BuiltinFits(b: Builtin, base: u32)
    ensures 4 + |EncodeFields(FieldsOf(LayoutOf(b, base)))| + QUANTA_U32 <= MAX_PACKET_SIZE
  {
    hide EncodeFields, LayoutOf, FieldsOf;
    LayoutFits(LayoutOf(b, base));
  }

  lemma SchemaOf(b: Builtin, base: u32)
    requires IdOf(b) < FIRST_WITH_LENGTH
    ensures Schema(IdOf(b)) == Some(Kinds(FieldsOf(LayoutOf(b, base))))
  {
    hide EncodeFields, Kinds;
    var fields := FieldsOf(LayoutOf(b, base));
    KindsAre(fields);
    var schema := Schema(IdOf(b)).value;
    assert |schema| == |fields|;
    assert forall i :: 0 <= i < |schema| ==> schema[i] == KindOf(fields[i]);
    assert schema == Kinds(fields);
  }

  /** Every packet of the library follows the layout the host expects for its id. */
  lemma BuiltinConforms(b: Builtin, base: u32)
    ensures Conforms(EventOf(AnyRecording(IdOf(b), FieldsOf(LayoutOf(b, base)))))
  {
    hide EncodeFields, LayoutOf, Conforms, Kinds, Schema, EventOf, IdOf;
    BuiltinFits(b, base);
    IdsAreSmall(b);
    if IdOf(b) < FIRST_WITH_LENGTH {
      SchemaOf(b, base);
    }
    FieldsConform(IdOf(b), FieldsOf(LayoutOf(b, base)));
  }

  /** What a host learns from the packets of the library. */
  predicate BuiltinMeans(a: Act, b: Builtin, base: u32) {
    match b
    case EnterISR(n) => Tells(a, 2, [Number(n)])
    case ExitISR => Tells(a, 3, [])
    case OnTaskStartExec(id) => Tells(a, 4, [Number(ShrinkId(id, base))])
    case OnTaskStopExec => Tells(a, 5, [])
    case OnTaskStartReady(id) => Tells(a, 6, [Number(ShrinkId(id, base))])
    case OnTaskStopReady(id, cause) => Tells(a, 7, [Number(ShrinkId(id, base)), Number(cause)])
    case OnTaskCreate(id) => Tells(a, 8, [Number(ShrinkId(id, base))])
    case TaskInfo(id, prio, name) => Tells(a, 9, [Number(ShrinkId(id, base)), Number(prio), Trimmed(name, 32)])
    case SysDesc(text) => Tells(a, 14, [Trimmed(text, 128)])
    case OnUserStart(id) => Tells(a, 15, [Number(id)])
    case OnUserStop(id) => Tells(a, 16, [Number(id)])
    case OnIdle => Tells(a, 17, [])
    case ExitISRToScheduler => Tells(a, 18, [])
    case EnterTimer(id) => Tells(a, 19, [Number(ShrinkId(id, base))])
    case ExitTimer => Tells(a, 20, [])
    case StackInfo(id, stackBase, stackSize) =>
      Tells(a, 21, [Number(ShrinkId(id, base)), Number(stackBase), Number(stackSize), Number(0)])
    case ModuleDescription(index, offset, text) => Tells(a, 22, [Number(index), Number(offset), Trimmed(text, 128)])
    case NameResource(id, name) => Tells(a, 25, [Number(ShrinkId(id, base)), Trimmed(name, 128)])
    case Print(text, level) => Tells(a, 26, [Trimmed(text, 128), Number(level), Number(0)])
    case EndCall(id) => Tells(a, 28, [Number(id)])
    case EndCallU32(id, result) => Tells(a, 28, [Number(id), Number(result)])
    case OnTaskTerminate(id) => Tells(a, 29, [Number(ShrinkId(id, base))])
  }

  /** The values in the order of the parameters. */
  function LayoutValues(l: Layout): seq<Value> {
    NumValues(l.before) + (match l.text case None => [] case Some(t) => [Trimmed(t.0, t.1)]) + NumValues(l.after)
  }

  function NumValues(vs: seq<u32>): (r: seq<Value>)
    ensures |r| == |vs|
  {
    seq(|vs|, i requires 0 <= i < |vs| => Number(vs[i]))
  }

  lemma LayoutTells(id: u32, l: Layout)
    requires l.text.Some? ==> l.text.value.1 <= 65535
    ensures Tells(Ask(id, FieldsOf(l)), id, LayoutValues(l))
  {
    hide Tells, Ask;
    var fields, values := FieldsOf(l), LayoutValues(l);
    if l.text.Some? {
      var t := l.text.value.0;
      assert t[..|t|] == t;
    }
    forall i | 0 <= i < |fields|
      ensures values[i] == ValueOf(fields[i])
    {
    }
    AskTells(id, fields, values);
  }

  lemma NumbersTell(id: u32, vs: seq<u32>)
    ensures Tells(Ask(id, FieldsOf(Layout(vs, None, []))), id, NumValues(vs))
    ensures |vs| == 0 ==> NumValues(vs) == []
    ensures |vs| == 1 ==> NumValues(vs) == [Number(vs[0])]
    ensures |vs| == 2 ==> NumValues(vs) == [Number(vs[0]), Number(vs[1])]
    ensures |vs| == 4 ==> NumValues(vs) == [Number(vs[0]), Number(vs[1]), Number(vs[2]), Number(vs[3])]
  {
    hide Tells, Ask;
    LayoutTells(id, Layout(vs, None, []));
    assert LayoutValues(Layout(vs, None, [])) == NumValues(vs);
  }

  lemma TextTells(id: u32, before: seq<u32>, text: seq<byte>, limit: nat, after: seq<u32>, values: seq<Value>)
    requires limit <= 65535 && |values| == |before| + 1 + |after|
    requires forall i :: 0 <= i < |before| ==> values[i] == Number(before[i])
    requires values[|before|] == Trimmed(text, limit)
    requires forall i :: 0 <= i < |after| ==> values[|before| + 1 + i] == Number(after[i])
    ensures Tells(Ask(id, FieldsOf(Layout(before, Some((text, limit)), after))), id, values)
  {
    hide Tells, Ask;
    var l := Layout(before, Some((text, limit)), after);
    LayoutTells(id, l);
    assert LayoutValues(l) == values;
  }

  lemma BuiltinTells(b: Builtin, base: u32)
    ensures BuiltinMeans(Ask(IdOf(b), FieldsOf(LayoutOf(b, base))), b, base)
  {
    hide Tells, Ask, FieldsOf;
    var l := LayoutOf(b, base);
    match b {
      case TaskInfo(id, prio, name) =>
        TextTells(9, l.before, name, 32, [], [Number(ShrinkId(id, base)), Number(prio), Trimmed(name, 32)]);
      case SysDesc(text) => TextTells(14, [], text, 128, [], [Trimmed(text, 128)]);
      case ModuleDescription(index, offset, text) =>
        TextTells(22, l.before, text, 128, [], [Number(index), Number(offset), Trimmed(text, 128)]);
      case NameResource(id, name) =>
        TextTells(25, l.before, name, 128, [], [Number(ShrinkId(id, base)), Trimmed(name, 128)]);
      case Print(text, level) =>
        TextTells(26, [], text, 128, l.after, [Trimmed(text, 128), Number(level), Number(0)]);
      case _ => NumbersTell(IdOf(b), l.before);
    }
  }

  lemma IdsAreSmall(b: Builtin)
    ensures IdOf(b) < 0x4000
  {
  }

  // Formatting on the host ----------------------------------------------------------------------

  const MAX_ARGUMENTS: nat := 16

  /** The number of percent signs, and so twice for a doubled one. */
  function Percents(fmt: seq<byte>): nat {
    if fmt == [] then 0 else Percents(fmt[..|fmt| - 1]) + if fmt[|fmt| - 1] == Numbers.PERCENT then 1 else 0
  }

  lemma {:induction false} PercentsExactly(fmt: seq<byte>)
    ensures Percents(fmt) == multiset(fmt)[37]
  {
    if fmt != [] {
      PercentsExactly(fmt[..|fmt| - 1]);
      assert fmt == fmt[..|fmt| - 1] + [fmt[|fmt| - 1]];
    }
  }

  /** The print event of a format with its arguments. */
  function HostFields(fmt: seq<byte>, options: u32, args: seq<u32>): seq<Field>
    requires |args| <= MAX_ARGUMENTS
  {
    FieldsOf(Layout([], Some((fmt, MAX_STRING_LEN)), [options, |args|] + args))
  }

  /** The number of arguments takes a single byte, so that the longest packet fits although the buffer is
      smaller than the sum of the maximal sizes. */
  lemma HostFieldsFit(fmt: seq<byte>, options: u32, args: seq<u32>)
    requires |args| <= MAX_ARGUMENTS
    ensures 4 + |EncodeFields(HostFields(fmt, options, args))| + QUANTA_U32 <= MAX_PACKET_SIZE
  {
    var t: seq<Field>, o, n, a := [Text(fmt, MAX_STRING_LEN)], Num(options), Num(|args|), NumFields(args);
    assert HostFields(fmt, options, args) == t + ([o] + ([n] + a));
    EncodeFieldsConcat(t, [o] + ([n] + a));
    EncodeFieldsConcat([o], [n] + a);
    EncodeFieldsConcat([n], a);
    NumbersBound(a);
    assert forall f :: EncodeFields([f]) == EncodeField(f) + EncodeFields([f][1..]);
    U32Length(options);
    U32Length(|args|);
  }

  /** The format, the options, the number of arguments and the arguments, in this order. */
  lemma HostTells(fmt: seq<byte>, options: u32, args: seq<u32>)
    requires |args| <= MAX_ARGUMENTS
    ensures Tells(Ask(EVTID_PRINT_FORMATTED, HostFields(fmt, options, args)), 26,
      [Trimmed(fmt, 128), Number(options), Number(|args|)] + seq(|args|, i requires 0 <= i < |args| => Number(args[i])))
  {
    var after: seq<u32> := [options, |args|] + args;
    var values := [Trimmed(fmt, 128), Number(options), Number(|args|)]
      + seq(|args|, i requires 0 <= i < |args| => Number(args[i]));
    forall i | 0 <= i < |after|
      ensures values[1 + i] == Number(after[i])
    {
      assert i < 2 || after[i] == args[i - 2];
    }
    TextTells(EVTID_PRINT_FORMATTED, [], fmt, MAX_STRING_LEN, after, values);
    hide Tells, FieldsOf;
  }

  lemma PercentsGrow(fmt: seq<byte>, i: nat)
    requires i <= |fmt|
    ensures Percents(fmt[..i]) <= Percents(fmt)
    decreases |fmt| - i
  {
    if i < |fmt| {
      assert fmt[..i + 1][..i] == fmt[..i];
      PercentsGrow(fmt, i + 1);
    } else {
      assert fmt[..i] == fmt;
    }
  }

  /** _VPrintHost: send a format and as many arguments as it has percent signs, but at most 16. */
  method VPrintHost(rec: Recorder, fmt: seq<byte>, options: u32, args: seq<u32>) returns (n: nat)
    requires rec.Valid() && Min(Percents(fmt), MAX_ARGUMENTS) <= |args|
    modifies rec, rec.up, rec.up.buf, rec.down, rec.down.buf, rec.aPacket
    ensures rec.Valid() && n == Min(Percents(fmt), MAX_ARGUMENTS)
    ensures Follows(old(rec.Snapshot()), rec.Snapshot(),
      [Ask(EVTID_PRINT_FORMATTED, HostFields(fmt, options, args[..n]))], rec.down.WholeSchedule())
  {
    hide Recorder.Valid, Follows, EncodeFields, HostFields;
    n := 0;
    var i := 0;
    while i < |fmt|
      modifies {}
      invariant i <= |fmt| && n == Percents(fmt[..i]) < MAX_ARGUMENTS
    {
      assert fmt[..i + 1][..i] == fmt[..i];
      i := i + 1;
      PercentsGrow(fmt, i);
      if fmt[i - 1] == Numbers.PERCENT {
        n := n + 1;
        if n == MAX_ARGUMENTS {
          break;
        }
      }
    }
    assert fmt[..|fmt|] == fmt;
    HostFieldsFit(fmt, options, args[..n]);
    rec.Record(EVTID_PRINT_FORMATTED, HostFields(fmt, options, args[..n]));
  }
}
