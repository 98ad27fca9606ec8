/** The format interpreter of the target printf: a scanner over a zero-terminated string. */
module FormatInterpreter {
  import opened Bytes
  import opened Codec
  import opened Sessions
  import opened Recorder
  import opened Numbers
  import opened Formats
  import opened PrintBuffer
  import opened TargetPrintf

  /** The character at a position of a zero-terminated string. */
  function At(fmt: seq<byte>, i: nat): byte
    requires i <= |fmt|
  {
    if i < |fmt| then fmt[i] else 0
  }

  lemma WhileUnfolds(s: seq<byte>, k: Class)
    ensures While(s, k) == if s != [] && Belongs(s[0], k) then [s[0]] + While(s[1..], k) else []
  {
  }

  /** The characters of class k from position i on, of which done have been passed. */
  ghost predicate Passed(s: seq<byte>, i: nat, k: Class, done: seq<byte>) {
    i + |done| <= |s| && While(s[i..], k) == done + While(s[i + |done|..], k)
  }

  lemma NonePassed(s: seq<byte>, i: nat, k: Class)
    requires i <= |s|
    ensures Passed(s, i, k, [])
  {
  }

  /** One more character is passed, or all have been. */
  lemma PassOne(s: seq<byte>, i: nat, k: Class, done: seq<byte>)
    requires Passed(s, i, k, done)
    ensures var j := i + |done|;
      if j < |s| && Belongs(s[j], k) then Passed(s, i, k, done + [s[j]]) else While(s[i..], k) == done
  {
    hide While, Belongs;
    var j := i + |done|;
    WhileUnfolds(s[j..], k);
    if j < |s| && Belongs(s[j], k) {
      assert s[j..][0] == s[j] && s[j..][1..] == s[j + 1..];
      assert done + ([s[j]] + While(s[j + 1..], k)) == done + [s[j]] + While(s[j + 1..], k);
    }
  }

  /** Filter out flags. */
  method ScanFlags(fmt: seq<byte>, i: nat) returns (j: nat, f: Flags)
    requires i <= |fmt|
    ensures j == i + |While(fmt[i..], Flag)| && f == FlagsOf(While(fmt[i..], Flag))
  {
    j, f := i, NO_FLAGS;
    ghost var done := [];
    NonePassed(fmt, i, Flag);
    hide Passed, While;
    while true
      invariant j == i + |done| <= |fmt| && Passed(fmt, i, Flag, done) && f == FlagsOf(done)
      decreases |fmt| - j
    {
      PassOne(fmt, i, Flag, done);
      OneMoreFlag(done, At(fmt, j));
      var c := At(fmt, j);
      if c == MINUS {
        f := f.(left := true);
      } else if c == ZERO {
        f := f.(zero := true);
      } else if c == PLUS {
        f := f.(plus := true);
      } else if c == 35 {
        f := f.(alternate := true);
      } else {
        break;
      }
      done := done + [c];
      j := j + 1;
    }
  }

  lemma OneMoreFlag(s: seq<byte>, c: byte)
    ensures var f := FlagsOf(s);
      FlagsOf(s + [c]) == Flags(c == MINUS || f.left, c == ZERO || f.zero, c == PLUS || f.plus, c == 35 || f.alternate)
  {
  }

  /** Filter out a number. */
  method ScanNumber(fmt: seq<byte>, i: nat) returns (j: nat, n: u32)
    requires i <= |fmt|
    ensures j == i + |While(fmt[i..], Digit)| && n == FormatNumber(While(fmt[i..], Digit))
  {
    j, n := i, 0;
    ghost var done := [];
    NonePassed(fmt, i, Digit);
    hide Passed, While;
    while true
      invariant j == i + |done| <= |fmt| && Passed(fmt, i, Digit, done) && n == FormatNumber(done)
      decreases |fmt| - j
    {
      PassOne(fmt, i, Digit, done);
      var c := At(fmt, j);
      if !IsDigit(c) {
        break;
      }
      assert (done + [c])[..|done|] == done;
      done := done + [c];
      j, n := j + 1, U32(n * 10 + (c as int - 48));
    }
  }

  /** Filter out the precision. */
  method ScanPrecision(fmt: seq<byte>, i: nat) returns (j: nat, n: u32)
    requires i <= |fmt|
    ensures j == i + |PrecisionText(PrecisionOf(fmt[i..]))|
    ensures n == (match PrecisionOf(fmt[i..]) case None => 0 case Some(ds) => FormatNumber(ds))
  {
    j, n := i, 0;
    if At(fmt, j) == DOT {
      assert fmt[i..][1..] == fmt[i + 1..];
      j, n := ScanNumber(fmt, j + 1);
    }
  }

  /** Filter out length modifiers. The position only stays on the conversion character if there are none;
      otherwise it is already behind it. */
  method ScanModifiers(fmt: seq<byte>, i: nat) returns (j: nat, c: byte)
    requires i <= |fmt| && i + |While(fmt[i..], Modifier)| < |fmt|
    ensures var n := |While(fmt[i..], Modifier)|;
      c == fmt[i + n] && j == i + if n == 0 then 0 else n + 1
  {
    ghost var n := |While(fmt[i..], Modifier)|;
    forall k | i <= k <= i + n
      ensures IsModifier(fmt[k]) <==> k < i + n
    {
      WhileExactly(fmt[i..], Modifier, k - i);
    }
    hide While;
    j, c := i, At(fmt, i);
    while true
      invariant i <= j <= i + n + 1 && c == (if j == i then fmt[i] else fmt[j - 1]) && (n == 0 ==> j == i)
      decreases i + n + 1 - j
    {
      if !IsModifier(c) {
        break;
      }
      c := At(fmt, j);
      j := j + 1;
    }
  }

  lemma TailOfTail(fmt: seq<byte>, i: nat, k: nat)
    requires i + k <= |fmt|
    ensures fmt[i + k..] == fmt[i..][k..] && (i + k < |fmt| ==> fmt[i + k] == fmt[i..][k])
  {
  }

  /** Flags, width and precision. */
  method ScanFields(fmt: seq<byte>, i: nat) returns (j: nat, flags: Flags, width: u32, precision: u32)
    requires i <= |fmt|
    ensures var s := fmt[i..];
      && j == i + PrecisionEnd(s) && flags == FlagsOf(While(s, Flag))
      && width == FormatNumber(While(s[FlagsEnd(s)..], Digit))
      && precision == (match PrecisionOf(s[WidthEnd(s)..]) case None => 0 case Some(ds) => FormatNumber(ds))
  {
    hide FlagsOf, FormatNumber, While, PrecisionOf, PrecisionText;
    ghost var s := fmt[i..];
    j, flags := ScanFlags(fmt, i);
    TailOfTail(fmt, i, FlagsEnd(s));
    j, width := ScanNumber(fmt, j);
    TailOfTail(fmt, i, WidthEnd(s));
    j, precision := ScanPrecision(fmt, j);
  }

  /** Take a conversion apart. */
  method ScanConversion(fmt: seq<byte>, i: nat, ghost it: Item, ghost rest: seq<byte>)
    returns (j: nat, flags: Flags, width: u32, precision: u32, c: byte)
    requires i <= |fmt| && ParseConversion(fmt[i..]) == Scanned(it, rest)
    requires it.modifiers == [] || rest != []
    ensures j <= |fmt| && fmt[j..] == if it.modifiers == [] then rest else rest[1..]
    ensures flags == FlagsOf(it.flags) && width == FieldWidth(it) && precision == Precision(it) && c == it.kind
  {
    hide FlagsOf, FormatNumber, While, PrecisionOf, PrecisionText, ParseConversion, FlagsEnd, WidthEnd, PrecisionEnd;
    ghost var s := fmt[i..];
    ConversionParts(s);
    j, flags, width, precision := ScanFields(fmt, i);
    TailOfTail(fmt, i, PrecisionEnd(s));
    TailOfTail(fmt, i, ModifiersEnd(s));
    j, c := ScanModifiers(fmt, j);
    j := j + 1;
    assert fmt[i + ModifiersEnd(s) + 1..] == rest;
  }

  /** One conversion, from behind its percent sign. Returns where to go on and how many arguments were used. */
  method Convert(b: Printer, fmt: seq<byte>, i: nat, args: seq<i32>, used: nat, ghost it: Item, ghost rest: seq<byte>)
    returns (j: nat, used': nat)
    requires b.Valid() && i <= |fmt| && ParseConversion(fmt[i..]) == Scanned(it, rest)
    requires it.modifiers == [] || rest != []
    requires TakesArgument(it) ==> used < |args| && Printable(it, args[used])
    modifies b.Frame()
    ensures b.Valid() && j <= |fmt| && fmt[j..] == if it.modifiers == [] then rest else rest[1..]
    ensures used' == used + if TakesArgument(it) then 1 else 0
    ensures b.Printed() == old(b.Printed()) + Render(it, if TakesArgument(it) then args[used] else 0)
  {
    hide Recorder.Valid, Printer.Valid, Printer.Printed, IntText, UnsignedText, FlagsOf, FormatNumber, ParseConversion;
    var flags, width, precision, c;
    j, flags, width, precision, c := ScanConversion(fmt, i, it, rest);
    used' := used;
    if c == KIND_C {
      b.StoreChar(args[used] % 256);
      used' := used + 1;
    } else if c == KIND_D {
      PrintInt(b, args[used], 10, precision, width, flags);
      used' := used + 1;
    } else if c == KIND_U {
      PrintUnsigned(b, U32(args[used]), 10, precision, width, flags);
      used' := used + 1;
    } else if c == KIND_X || c == KIND_UPPER_X {
      PrintUnsigned(b, U32(args[used]), 16, precision, width, flags);
      used' := used + 1;
    } else if c == KIND_P {
      PrintUnsigned(b, U32(args[used]), 16, 8, 8, NO_FLAGS);
      used' := used + 1;
    } else if c == PERCENT {
      b.StoreChar(PERCENT);
    } else {
      assert b.Printed() == old(b.Printed()) + [];
    }
  }

  /** A format the interpreter can print with these arguments. */
  predicate CanPrint(fmt: seq<byte>, args: seq<i32>) {
    0 !in fmt && Parse(fmt, true).Some? && ArgumentsFit(Parse(fmt, true).value, args)
  }

  /** The text the interpreter prints. */
  function Output(fmt: seq<byte>, args: seq<i32>): seq<byte>
    requires CanPrint(fmt, args)
  {
    RenderAll(Parse(fmt, true).value, args)
  }

  /** What is left to be printed after the first item. */
  lemma FirstItem(fmt: seq<byte>, args: seq<i32>) returns (it: Item, rest: seq<byte>, takes: nat)
    requires CanPrint(fmt, args) && fmt != []
    ensures takes == if TakesArgument(it) then 1 else 0
    ensures takes <= |args| && (takes == 1 ==> Printable(it, args[0]))
    ensures CanPrint(rest, args[takes..]) && |rest| < |fmt|
    ensures Output(fmt, args) == Render(it, if takes == 1 then args[0] else 0) + Output(rest, args[takes..])
    ensures if fmt[0] != PERCENT then it == Plain(fmt[0]) && rest == fmt[1..]
            else
              && ParseConversion(fmt[1..]).Scanned? && it == ParseConversion(fmt[1..]).item
              && var tail := ParseConversion(fmt[1..]).rest;
              if it.modifiers == [] then rest == tail else tail != [] && rest == tail[1..]
  {
    hide Render, Printable, ParseConversion;
    it, rest := Plain(fmt[0]), fmt[1..];
    if fmt[0] == PERCENT {
      var r := ParseConversion(fmt[1..]);
      it, rest := r.item, if r.item.modifiers == [] then r.rest else r.rest[1..];
    }
    takes := if TakesArgument(it) then 1 else 0;
    var items := Parse(fmt, true).value;
    assert items[0] == it && items[1..] == Parse(rest, true).value;
    assert args[0..] == args;
  }

  /** A plain character, or a conversion. Returns where to go on and how many arguments have been used. */
  method PrintItem(b: Printer, fmt: seq<byte>, i: nat, args: seq<i32>, used: nat) returns (j: nat, used': nat)
    requires b.Valid() && i < |fmt| && used <= |args| && CanPrint(fmt[i..], args[used..])
    modifies b.Frame()
    ensures b.Valid() && i < j <= |fmt| && used' <= |args| && CanPrint(fmt[j..], args[used'..])
    ensures b.Printed() + Output(fmt[j..], args[used'..]) == old(b.Printed()) + Output(fmt[i..], args[used..])
  {
    hide Recorder.Valid, Printer.Valid, Printer.Printed, Render, Printable, CanPrint, Output, ParseConversion;
    ghost var it, rest, takes := FirstItem(fmt[i..], args[used..]);
    assert fmt[i..][1..] == fmt[i + 1..] && args[used..][takes..] == args[used + takes..];
    ghost var text := Render(it, if takes == 1 then args[used] else 0);
    assert old(b.Printed()) + (text + Output(rest, args[used + takes..]))
      == old(b.Printed()) + text + Output(rest, args[used + takes..]);
    j, used' := i + 1, used;
    if fmt[i] == PERCENT {
      j, used' := Convert(b, fmt, j, args, used, it, ParseConversion(fmt[j..]).rest);
    } else {
      PlainText(fmt[i]);
      b.StoreChar(fmt[i]);
    }
    assert fmt[j..] == rest && |fmt[j..]| == |fmt| - j;
  }

  lemma PlainText(c: byte)
    ensures Render(Plain(c), 0) == [c] && !TakesArgument(Plain(c))
  {
  }

  /** The loop over the format. */
  method Interpret(b: Printer, fmt: seq<byte>, args: seq<i32>)
    requires b.Valid() && b.Printed() == [] && CanPrint(fmt, args)
    modifies b.Frame()
    ensures b.Valid() && b.Printed() == Output(fmt, args)
  {
    hide Recorder.Valid, Printer.Valid, Printer.Printed, CanPrint, Output;
    var i: nat, used: nat := 0, 0;
    assert fmt[0..] == fmt && args[0..] == args;
    assert 0 !in fmt by { NoZero(fmt, args); }
    while true
      invariant b.Valid() && i <= |fmt| && used <= |args| && CanPrint(fmt[i..], args[used..])
      invariant b.Printed() + Output(fmt[i..], args[used..]) == Output(fmt, args)
      decreases |fmt| - i
    {
      if At(fmt, i) == 0 {
        assert fmt[i..] == [];
        NothingLeft(args[used..]);
        break;
      }
      i, used := PrintItem(b, fmt, i, args, used);
    }
  }

  lemma NoZero(fmt: seq<byte>, args: seq<i32>)
    requires CanPrint(fmt, args)
    ensures 0 !in fmt
  {
  }

  lemma NothingLeft(args: seq<i32>)
    ensures CanPrint([], args) && Output([], args) == []
  {
  }

  /** _VPrintTarget: format, and send the text in packets of at most 128 characters. The packets together
      hold exactly what the reference formatter yields, all but the last are full, and none is empty. */
  method VPrintTarget(rec: Recorder, fmt: seq<byte>, options: u32, args: seq<i32>)
    returns (ghost chunks: seq<seq<byte>>)
    requires rec.Valid() && CanPrint(fmt, args)
    modifies rec, rec.up, rec.up.buf, rec.down, rec.down.buf, rec.aPacket
    ensures rec.Valid() && Cut(chunks, Output(fmt, args))
    ensures Follows(old(rec.Snapshot()), rec.Snapshot(), PrintActs(chunks, options), rec.down.WholeSchedule())
  {
    hide Recorder.Valid, Follows, CanPrint, Output, Flatten, PrintActs, Cut;
    var b := new Printer(rec, options);
    Interpret(b, fmt, args);
    b.Finish();
    chunks := b.chunks;
  }
}
