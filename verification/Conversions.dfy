/** What the conversions of the target printf mean, by their characters. */
module Conversions {
  import opened Bytes
  import opened Numbers
  import opened Formats
  import opened LengthModifiers
  import opened FormatInterpreter

  /** %x and %X print the argument as an unsigned number with base 16, in a field as long as asked for or as the
      number is at its precision. */
  lemma HexReadsBack(it: Item, v: i32)
    requires it.Conversion? && it.kind as char in {'x', 'X'}
    ensures var text, u := Render(it, v), v as int % 0x1_0000_0000;
      ReadNumber(text, 16) == u && |text| == Max(FieldWidth(it), Max(Precision(it), Width(u, 16)))
  {
    UnsignedReadsBack(U32(v), 16, Precision(it), FieldWidth(it), FlagsOf(it.flags));
    hide ReadNumber, FlagsOf, FormatNumber, Width, DigitsOf;
  }

  /** %u prints it with base 10. */
  lemma UnsignedConversionReadsBack(it: Item, v: i32)
    requires it.Conversion? && it.kind as char == 'u'
    ensures var text, u := Render(it, v), v as int % 0x1_0000_0000;
      ReadNumber(text, 10) == u && |text| == Max(FieldWidth(it), Max(Precision(it), Width(u, 10)))
  {
    UnsignedReadsBack(U32(v), 10, Precision(it), FieldWidth(it), FlagsOf(it.flags));
    hide ReadNumber, FlagsOf, FormatNumber, Width, DigitsOf;
  }

  /** %p prints it as 8 digits with base 16. */
  lemma PointerReadsBack(it: Item, v: i32)
    requires it.Conversion? && it.kind as char == 'p'
    ensures ReadNumber(Render(it, v), 16) == v as int % 0x1_0000_0000 && |Render(it, v)| == 8
  {
    UnsignedReadsBack(U32(v), 16, 8, 8, NO_FLAGS);
    EightDigits(U32(v));
    hide ReadNumber, Width, DigitsOf;
  }

  /** %d prints it as a signed number with base 10, the sign counting for the length. */
  lemma SignedReadsBack(it: Item, v: i32)
    requires it.Conversion? && it.kind as char == 'd'
    ensures var text, u := Render(it, v), Magnitude(v);
      && ReadNumber(text, 10) == v
      && |text| == Max(FieldWidth(it), |SignOf(it, v)| + Max(Precision(it), Width(u, 10)))
  {
    IntReadsBack(v, 10, Precision(it), FieldWidth(it), FlagsOf(it.flags));
    assert SignOf(it, v) == Sign(v, FlagsOf(it.flags));
    hide ReadNumber, FlagsOf, FormatNumber, Width, DigitsOf, Sign, SignOf;
  }

  /** %c prints a character, a doubled percent sign itself, and anything else nothing; only the conversions that
      print a number or a character take an argument. */
  lemma OtherConversions(it: Item, v: i32)
    requires it.Conversion?
    ensures it.kind as char == 'c' ==> Render(it, v) == [v % 256]
    ensures it.kind as char == '%' ==> Render(it, v) == ['%' as byte]
    ensures it.kind as char !in {'x', 'X', 'u', 'p', 'd', 'c', '%'} ==> Render(it, v) == []
    ensures TakesArgument(it) <==> it.kind as char in {'x', 'X', 'u', 'p', 'd', 'c'}
  {
    hide IntText, UnsignedText, FlagsOf, FormatNumber;
  }

  lemma EightDigits(u: u32)
    ensures Width(u, 16) <= 8
  {
    WidthExactly(u, 16, 8);
    assert Pow(16, 4) == 16 * (16 * (16 * 16)) && Pow(16, 8) == 16 * (16 * (16 * (16 * Pow(16, 4))));
  }

  /** text is sign and digits in a field: behind them spaces if left, else between them zeros if filled, else in
      front of them spaces. */
  predicate Stands(text: seq<byte>, sign: seq<byte>, digits: seq<byte>, left: bool, filled: bool) {
    var n, m := |sign| + |digits|, |text|;
    && n <= m
    && (if left then text[..n] == sign + digits && forall i :: n <= i < m ==> text[i] as char == ' '
        else if filled then
          && text[..|sign|] == sign && text[m - |digits|..] == digits
          && forall i :: |sign| <= i < m - |digits| ==> text[i] as char == '0'
        else text[m - n..] == sign + digits && forall i :: 0 <= i < m - n ==> text[i] as char == ' ')
  }

  /** Where sign, digits and padding of a number stand, by its flags. */
  lemma FieldStands(sign: seq<byte>, digits: seq<byte>, width: nat, precision: nat, flags: Flags)
    ensures Stands(InField(sign, digits, width, precision, flags), sign, digits,
      flags.left, flags.zero && precision == 0)
  {
    var n := Max(0, width - |sign| - |digits|);
    var text := InField(sign, digits, width, precision, flags);
    if flags.left {
      assert text == (sign + digits) + Repeat(SPACE, n);
    } else if flags.zero && precision == 0 {
      assert text == sign + Repeat(ZERO, n) + digits;
    } else {
      assert text == Repeat(SPACE, n) + (sign + digits);
    }
  }

  /** The sign of %d: a minus sign, or a plus sign if there is a plus flag, or none. */
  function SignOf(it: Item, v: i32): seq<byte>
    requires it.Conversion?
  {
    if it.kind as char != 'd' then [] else if v < 0 then ['-' as byte]
    else if '+' as byte in it.flags then ['+' as byte] else []
  }

  function BaseOf(it: Item): nat
    requires it.Conversion?
  {
    if it.kind as char in {'x', 'X'} then 16 else 10
  }

  /** The number of which the digits are printed. */
  function NumberOf(it: Item, v: i32): nat
    requires it.Conversion?
  {
    if it.kind as char != 'd' then v as int % 0x1_0000_0000 else Magnitude(v)
  }

  /** As many digits as the precision asks for, or as the number has, and they have its value. */
  predicate DigitsFor(digits: seq<byte>, u: nat, base: nat, precision: nat)
    requires Base(base)
  {
    |digits| == Max(precision, Width(u, base)) && IsDigits(digits, base) && ValueOf(digits, base) == u
  }

  lemma DigitsFit(u: nat, base: nat, precision: nat)
    requires Base(base)
    ensures DigitsFor(DigitsOf(u, base, precision), u, base, precision)
  {
    WidthExactly(u, base, Max(precision, Width(u, base)));
    NumeralReadsBack(u, base, Max(precision, Width(u, base)));
  }

  lemma RenderIsField(it: Item, v: i32)
    requires it.Conversion? && it.kind as char in {'x', 'X', 'u', 'd'}
    ensures Render(it, v) == InField(SignOf(it, v), DigitsOf(NumberOf(it, v), BaseOf(it), Precision(it)),
      FieldWidth(it), Precision(it), FlagsOf(it.flags))
  {
    hide InField, DigitsOf, FormatNumber;
  }

  /** A minus flag puts a number to the left, and a zero flag fills it up with zeros if no precision is given. */
  lemma NumberStands(it: Item, v: i32)
    requires it.Conversion? && it.kind as char in {'x', 'X', 'u', 'd'}
    ensures var left, filled := '-' as byte in it.flags, '0' as byte in it.flags && Precision(it) == 0;
      exists digits ::
        && DigitsFor(digits, NumberOf(it, v), BaseOf(it), Precision(it))
        && Stands(Render(it, v), SignOf(it, v), digits, left, filled)
  {
    var digits := DigitsOf(NumberOf(it, v), BaseOf(it), Precision(it));
    DigitsFit(NumberOf(it, v), BaseOf(it), Precision(it));
    RenderIsField(it, v);
    FieldStands(SignOf(it, v), digits, FieldWidth(it), Precision(it), FlagsOf(it.flags));
    hide Stands, Render, InField, DigitsFor, DigitsOf, NumberOf, SignOf, Precision, FieldWidth;
  }

  /** Widths and precisions are decimal numbers, modulo 2^32. */
  lemma {:induction false} FormatNumberReads(ds: seq<byte>)
    requires forall c :: c in ds ==> IsDigit(c)
    ensures IsDigits(ds, 10) && FormatNumber(ds) == U32(ValueOf(ds, 10))
  {
    forall c | c in ds
      ensures CharDigit(c).Some? && CharDigit(c).value < 10
    {
      assert IsDigit(c);
    }
    if ds != [] {
      var front, last := ds[..|ds| - 1], ds[|ds| - 1];
      assert last in ds && forall c :: c in front ==> c in ds;
      FormatNumberReads(front);
      Shifted(ValueOf(front, 10), last - 48);
    }
  }

  /** Which number is the width and which the precision; no precision counts as 0. */
  lemma WidthAndPrecision(it: Item)
    requires it.Conversion? && (forall c :: c in it.width ==> IsDigit(c))
    requires it.precision.Some? ==> forall c :: c in it.precision.value ==> IsDigit(c)
    ensures IsDigits(it.width, 10) && FieldWidth(it) == U32(ValueOf(it.width, 10))
    ensures match it.precision
      case None => Precision(it) == 0
      case Some(ds) => IsDigits(ds, 10) && Precision(it) == U32(ValueOf(ds, 10))
  {
    FormatNumberReads(it.width);
    if it.precision.Some? {
      FormatNumberReads(it.precision.value);
    }
  }

  lemma Shifted(x: nat, d: nat)
    ensures U32(U32(x) * 10 + d) == U32(10 * x + d)
  {
    var q := x / TWO32;
    assert x == TWO32 * q + U32(x);
    assert 10 * x + d == TWO32 * (10 * q) + (U32(x) * 10 + d);
    U32Shift(10 * q, U32(x) * 10 + d);
  }

  lemma U32Shift(q: nat, x: nat)
    ensures U32(TWO32 * q + x) == U32(x)
  {
  }

  /** The characters of which the parts of a conversion consist. */
  lemma PartsBelong(s: seq<byte>)
    requires ParseConversion(s).Scanned?
    ensures var it := ParseConversion(s).item;
      && (forall c :: c in it.flags ==> c as char in "-0+#")
      && (forall c :: c in it.width ==> '0' <= c as char <= '9') && (it.width != [] ==> it.width[0] as char != '0')
      && (it.precision.Some? ==> forall c :: c in it.precision.value ==> '0' <= c as char <= '9')
      && (forall c :: c in it.modifiers ==> c as char in "lh")
  {
    ConversionParts(s);
    AllBelong(s, Flag);
    AllBelong(s[FlagsEnd(s)..], Digit);
    WidthIsNoFlag(s);
    PrecisionBelongs(s[WidthEnd(s)..]);
    AllBelong(s[PrecisionEnd(s)..], Modifier);
    hide While, ParseConversion, FlagsEnd, WidthEnd, PrecisionEnd, ModifiersEnd, PrecisionOf;
  }

  lemma WidthIsNoFlag(s: seq<byte>)
    ensures var width := While(s[FlagsEnd(s)..], Digit); width != [] ==> width[0] as char != '0'
  {
    var a := FlagsEnd(s);
    AllBelong(s[a..], Digit);
    if a < |s| {
      WhileExactly(s, Flag, a);
      assert s[a..][0] == s[a];
    }
    hide While;
  }

  lemma PrecisionBelongs(s: seq<byte>)
    ensures PrecisionOf(s).Some? ==> forall c :: c in PrecisionOf(s).value ==> '0' <= c as char <= '9'
  {
    if s != [] {
      AllBelong(s[1..], Digit);
    }
    hide While;
  }

  lemma {:induction false} AllBelong(s: seq<byte>, k: Class)
    ensures forall c :: c in While(s, k) ==> Belongs(c, k)
    ensures While(s, k) != [] ==> s != [] && While(s, k)[0] == s[0]
  {
    if s != [] && Belongs(s[0], k) {
      AllBelong(s[1..], k);
    }
  }

  /** The shortest formats: a percent sign and a letter that is no flag, digit, dot or length modifier. */
  lemma BareConversion(kind: byte, v: i32)
    requires kind as char in {'x', 'X', 'u', 'p', 'd', 'c'}
    requires Printable(Conversion([], [], None, [], kind), v)
    ensures var fmt: seq<byte> := ['%' as byte, kind];
      && CanPrint(fmt, [v]) && Output(fmt, [v]) == Render(Conversion([], [], None, [], kind), v)
  {
    var fmt: seq<byte> := ['%' as byte, kind];
    var it := Conversion([], [], None, [], kind);
    ParseBare(kind, [], true);
    assert [PERCENT, kind] + [] == fmt;
    NothingParses();
    hide Parse, Render;
    assert Parse(fmt, true) == Some([it] + []);
    NothingLeft([v][1..]);
    FitsFirst(it, [], [v]);
    RenderFirst(it, [], [v]);
  }

  /** 255 with base 16 is FF. */
  lemma HexExample()
    ensures Render(Conversion([], [], None, [], 'x' as byte), 255) == ['F' as byte, 'F' as byte]
  {
    assert Width(255, 16) == 2 && DivBase(255, 16) == 15 && ModBase(255, 16) == 15;
    assert Numeral(15, 16, 1) == [DigitChar(15)];
    assert Numeral(255, 16, 2) == [DigitChar(15)] + [DigitChar(15)];
    assert FormatNumber([]) == 0;
    var digits := DigitsOf(255, 16, 0);
    assert Repeat(SPACE, 0) == [];
    assert [] + [] + digits == digits;
  }
}
