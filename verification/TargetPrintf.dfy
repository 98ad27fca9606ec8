/** printf on the target: the number printers and the format interpreter. */
module TargetPrintf {
  import opened Bytes
  import opened Sessions
  import opened Recorder
  import opened Numbers
  import opened PrintBuffer
  import opened Formats

  /** How many digits fit the 32-bit place value. */
  function MaxDigits(base: nat): nat
    requires Base(base)
  {
    if base == 10 then 10 else 8
  }

  /** The place value of the n-th digit is a U32 exactly up to that many digits. */
  lemma PlaceValueExactly(base: nat, n: nat)
    requires Base(base) && 1 <= n
    ensures Pow(base, n - 1) < TWO32 <==> n <= MaxDigits(base)
  {
    var m := MaxDigits(base);
    assert Pow(base, 2) == base * base && Pow(base, 4) == base * (base * (base * base));
    assert Pow(base, 7) == base * (base * (base * Pow(base, 4)));
    assert Pow(base, 9) == base * (base * Pow(base, 7)) && Pow(base, 10) == base * Pow(base, 9);
    assert Pow(base, m - 1) < TWO32 <= Pow(base, m) by { assert Pow(base, 8) == base * Pow(base, 7); }
    if n <= m {
      PowMonotone(base, n - 1, m - 1);
    } else {
      PowMonotone(base, m, n - 1);
    }
  }

  /** The width loop: number of digits without leading zeros. */
  method NaturalWidth(v: u32, base: nat) returns (width: nat)
    requires Base(base)
    ensures width == Width(v, base)
  {
    var number: nat := v;
    width := 1;
    while number >= base
      invariant width + Width(number, base) == 1 + Width(v, base)
    {
      DivBaseIsDivision(number, base);
      number := number / base;
      width := width + 1;
    }
  }

  /** The place value of the first digit to print, for at least precision digits. The place value never
      overflows; the division finds out where the number starts. */
  method FirstPlace(v: u32, base: nat, precision: u32) returns (digit: u32, ghost n: nat)
    requires Base(base) && precision <= MaxDigits(base)
    ensures n + 1 == Max(precision, Width(v, base)) && digit == Pow(base, n)
  {
    digit, n := 1, 0;
    var left := precision;
    assert Pow(base, 0) == 1;
    while true
      invariant digit == Pow(base, n)
      invariant if left > 1 then left + n == precision else precision <= n + 1
      invariant n + 1 <= Max(precision, Width(v, base))
      decreases Max(precision, Width(v, base)) - n
    {
      if left > 1 {
        left := left - 1;
        PlaceValueExactly(base, n + 2);
      } else {
        WidthExactly(v, base, n + 1);
        PowStep(base, n + 1);
        SplitDivision(v, digit);
        if v / digit < base {
          Carry(v / digit, v % digit, base, digit);
          break;
        }
        MultiplyMonotone(base, v / digit, digit);
      }
      PowStep(base, n + 1);
      digit := digit * base;
      n := n + 1;
    }
  }

  /** Print the n + 1 lowest digits of v, from place value digit == base ^ n downwards. */
  method PrintDigits(b: Printer, v: u32, base: nat, digit: u32, ghost n: nat)
    requires b.Valid() && Base(base) && digit == Pow(base, n) && v < Pow(base, n + 1)
    modifies b.Frame()
    ensures b.Valid() && b.Printed() == old(b.Printed()) + Numeral(v, base, n + 1)
  {
    hide Recorder.Valid, Printer.Valid, Printer.Printed, Numeral, DivBase, ModBase;
    var place: nat, rest: nat := digit, v;
    ghost var k, done := n, [];
    while true
      invariant b.Valid() && b.Printed() == old(b.Printed()) + done
      invariant place == Pow(base, k) && rest < Pow(base, k + 1)
      invariant done + Numeral(rest, base, k + 1) == Numeral(v, base, n + 1)
      decreases k
    {
      var div := rest / place;
      DigitStep(rest, base, k);
      rest := rest - div * place;
      b.StoreChar(DigitChar(div));
      done := done + [DigitChar(div)];
      NextPlace(base, k);
      place := place / base;
      if place == 0 {
        NoDigits(rest, base);
        break;
      }
      k := k - 1;
    }
  }

  /** The quotient by the place value is the next digit, and the remainder what is left to be printed. */
  lemma DigitStep(rest: nat, base: nat, k: nat)
    requires Base(base) && rest < Pow(base, k + 1)
    ensures var place, div := Pow(base, k), rest / Pow(base, k);
      && 0 <= div < base && 0 <= rest - div * place < place
      && Numeral(rest, base, k + 1) == [DigitChar(div)] + Numeral(rest - div * place, base, k)
  {
    hide Numeral, Pow;
    var place := Pow(base, k);
    SplitDivision(rest, place);
    PowStep(base, k + 1);
    DivideBelow(rest, base, place);
    TopDigit(rest / place, rest % place, base, k);
  }

  lemma NextPlace(base: nat, k: nat)
    requires Base(base)
    ensures Pow(base, k) / base == if k == 0 then 0 else Pow(base, k - 1)
  {
    if k == 0 {
      assert Pow(base, 0) == 1;
    } else {
      PowStep(base, k);
      DivideExactly(base, Pow(base, k - 1));
    }
  }

  lemma NoDigits(v: nat, base: nat)
    requires Base(base)
    ensures Numeral(v, base, 0) == []
  {
  }

  /** Spaces or zeros needed to fill a field. */
  function Padding(width: nat, fieldWidth: nat): (r: nat)
    ensures r == Max(0, fieldWidth - width)
  {
    if width < fieldWidth then fieldWidth - width else 0
  }

  /** Padding that is only printed on a condition. */
  method Pad(b: Printer, wanted: bool, c: byte, n: nat)
    requires b.Valid()
    modifies b.Frame()
    ensures b.Valid() && b.Printed() == old(b.Printed()) + PadText(wanted, c, n)
  {
    hide Recorder.Valid, Printer.Valid, Printer.Printed, Repeat;
    if wanted {
      b.StoreChars(c, n);
    }
  }

  function PadText(wanted: bool, c: byte, n: nat): seq<byte> {
    if wanted then Repeat(c, n) else []
  }

  /** All digits of v, at least as many as the precision asks for. */
  method PrintNumeral(b: Printer, v: u32, base: nat, precision: u32)
    requires b.Valid() && Base(base) && precision <= MaxDigits(base)
    modifies b.Frame()
    ensures b.Valid() && b.Printed() == old(b.Printed()) + Numeral(v, base, Max(precision, Width(v, base)))
  {
    hide Recorder.Valid, Printer.Valid, Printer.Printed, Numeral, Width, Pow;
    var digit; ghost var n;
    digit, n := FirstPlace(v, base, precision);
    WidthExactly(v, base, n + 1);
    PrintDigits(b, v, base, digit, n);
  }

  method PrintUnsigned(b: Printer, v: u32, base: nat, precision: u32, fieldWidth: u32, flags: Flags)
    requires b.Valid() && Base(base) && precision <= MaxDigits(base)
    modifies b.Frame()
    ensures b.Valid() && b.Printed() == old(b.Printed()) + UnsignedText(v, base, precision, fieldWidth, flags)
  {
    hide Recorder.Valid, Printer.Valid, Printer.Printed, Numeral, Width, Pow, UnsignedText, PadText;
    var width := NaturalWidth(v, base);
    if precision > width {
      width := precision;
    }
    var pad := Padding(width, fieldWidth);
    Pad(b, !flags.left, PadChar(flags, precision), pad);
    PrintNumeral(b, v, base, precision);
    Pad(b, flags.left, SPACE, pad);
    ghost var lead, trail := PadText(!flags.left, PadChar(flags, precision), pad), PadText(flags.left, SPACE, pad);
    ghost var digits := Numeral(v, base, width);
    UnsignedParts(v, base, precision, fieldWidth, flags);
    assert old(b.Printed()) + lead + digits + trail == old(b.Printed()) + (lead + digits + trail);
  }

  /** In front of an unsigned number: zeros only if asked for and if no precision is given. */
  function PadChar(flags: Flags, precision: nat): byte {
    if flags.zero && precision == 0 then ZERO else SPACE
  }

  lemma UnsignedParts(v: u32, base: nat, precision: u32, fieldWidth: u32, flags: Flags)
    requires Base(base)
    ensures var n := Max(precision, Width(v, base));
      var pad := Padding(n, fieldWidth);
      PadText(!flags.left, PadChar(flags, precision), pad) + Numeral(v, base, n) + PadText(flags.left, SPACE, pad)
      == UnsignedText(v, base, precision, fieldWidth, flags)
  {
    hide Width, Numeral, Repeat, Pow;
    FieldParts(Numeral(v, base, Max(precision, Width(v, base))), precision, fieldWidth, flags);
  }

  /** Digits without a sign in a field. */
  lemma FieldParts(digits: seq<byte>, precision: nat, fieldWidth: nat, flags: Flags)
    ensures var pad := Padding(|digits|, fieldWidth);
      PadText(!flags.left, PadChar(flags, precision), pad) + digits + PadText(flags.left, SPACE, pad)
      == InField([], digits, fieldWidth, precision, flags)
  {
    hide Repeat;
    var pad := Repeat(PadChar(flags, precision), Padding(|digits|, fieldWidth));
    assert [] + digits == digits && [] + pad == pad && pad + [] == pad;
    assert pad + digits + [] == pad + digits;
  }

  method PrintSign(b: Printer, v: i32, flags: Flags)
    requires b.Valid()
    modifies b.Frame()
    ensures b.Valid() && b.Printed() == old(b.Printed()) + Sign(v, flags)
  {
    hide Recorder.Valid, Printer.Valid, Printer.Printed;
    if v < 0 {
      b.StoreChar(MINUS);
    } else if flags.plus {
      b.StoreChar(PLUS);
    }
  }

  /** What goes in front of the digits of a signed number: spaces, the sign, zeros. */
  function Lead(v: i32, precision: u32, pad: nat, flags: Flags): seq<byte> {
    PadText((!flags.zero || precision != 0) && !flags.left, SPACE, pad) + Sign(v, flags)
    + PadText(flags.zero && !flags.left && precision == 0, ZERO, pad)
  }

  method PrintLead(b: Printer, v: i32, precision: u32, pad: nat, flags: Flags)
    requires b.Valid()
    modifies b.Frame()
    ensures b.Valid() && b.Printed() == old(b.Printed()) + Lead(v, precision, pad, flags)
  {
    hide Recorder.Valid, Printer.Valid, Printer.Printed, PadText, Sign;
    var spaces, zeros := (!flags.zero || precision != 0) && !flags.left, flags.zero && !flags.left && precision == 0;
    Pad(b, spaces, SPACE, pad);
    PrintSign(b, v, flags);
    Pad(b, zeros, ZERO, pad);
    ghost var x, sign, y := PadText(spaces, SPACE, pad), Sign(v, flags), PadText(zeros, ZERO, pad);
    assert old(b.Printed()) + x + sign + y == old(b.Printed()) + (x + sign + y);
  }

  /** A signed number. The field width is used up here, unless the padding goes behind the digits. */
  method PrintInt(b: Printer, v: i32, base: nat, precision: u32, fieldWidth: u32, flags: Flags)
    requires b.Valid() && Base(base) && precision <= MaxDigits(base)
    requires v != -0x8000_0000
    modifies b.Frame()
    ensures b.Valid() && b.Printed() == old(b.Printed()) + IntText(v, base, precision, fieldWidth, flags)
  {
    hide Recorder.Valid, Printer.Valid, Printer.Printed, Width, UnsignedText, IntText, Lead;
    var width := NaturalWidth(Magnitude(v), base);
    if precision > width {
      width := precision;
    }
    var left: nat := fieldWidth;
    if left > 0 && (v < 0 || flags.plus) {
      left := left - 1;
    }
    var pad := Padding(width, left);
    PrintLead(b, v, precision, pad, flags);
    if !flags.left {
      left := left - pad;
    }
    PrintUnsigned(b, Magnitude(v), base, precision, left, flags);
    IntParts(v, base, precision, fieldWidth, left, flags);
    ghost var lead, number := Lead(v, precision, pad, flags), UnsignedText(Magnitude(v), base, precision, left, flags);
    assert old(b.Printed()) + lead + number == old(b.Printed()) + (lead + number);
  }

  /** Sign and padding, followed by the unsigned number in what is left of the field, make the signed number. */
  lemma IntParts(v: i32, base: nat, precision: u32, fieldWidth: u32, left: u32, flags: Flags)
    requires Base(base) && v != -0x8000_0000
    requires var room := if fieldWidth > 0 && (v < 0 || flags.plus) then fieldWidth - 1 else fieldWidth;
      left == room - if flags.left then 0 else Padding(Max(precision, Width(Magnitude(v), base)), room)
    ensures var room := if fieldWidth > 0 && (v < 0 || flags.plus) then fieldWidth - 1 else fieldWidth;
      var pad := Padding(Max(precision, Width(Magnitude(v), base)), room);
      Lead(v, precision, pad, flags) + UnsignedText(Magnitude(v), base, precision, left, flags)
      == IntText(v, base, precision, fieldWidth, flags)
  {
    hide Width, Pow, DigitsOf;
    var sign, digits := Sign(v, flags), DigitsOf(Magnitude(v), base, precision);
    var number := UnsignedText(Magnitude(v), base, precision, left, flags);
    assert Repeat(SPACE, 0) == Repeat(ZERO, 0) == [];
    hide Repeat, Sign;
    assert [] + digits == digits && [] + sign == sign;
    if flags.left {
      assert [] + sign + [] == sign;
      var pad := Repeat(SPACE, Padding(|digits|, left));
      assert sign + (digits + pad) == sign + digits + pad;
    } else {
      assert number == digits by { assert Repeat(SPACE, 0) + [] + digits == digits; }
      assert forall s: seq<byte> :: s + sign + [] == s + sign;
    }
  }
}
