/** Numbers as text: what a formatted number looks like and what can be read back from it. */
module Numbers {
  import opened Bytes

  const SPACE: byte := 32
  const PERCENT: byte := 37
  const PLUS: byte := 43
  const MINUS: byte := 45
  const ZERO: byte := 48

  predicate Base(base: nat) {
    base == 10 || base == 16
  }

  function Pow(base: nat, n: nat): (r: nat)
    requires 1 <= base
    ensures 1 <= r
  {
    if n == 0 then 1 else base * Pow(base, n - 1)
  }

  /** '0'..'9', 'A'..'F'. */
  function DigitChar(d: nat): byte
    requires d < 16
  {
    if d < 10 then 48 + d else 55 + d
  }

  function CharDigit(c: byte): Option<nat> {
    if 48 <= c < 58 then Some(c - 48) else if 65 <= c < 71 then Some(c - 55) else None
  }

  lemma DigitNames(d: nat)
    requires d < 16
    ensures DigitChar(d) as char == "0123456789ABCDEF"[d] && CharDigit(DigitChar(d)) == Some(d)
  {
  }

  // Small facts about multiplication and division, kept apart from everything else

  lemma MultiplyMonotone(a: nat, b: nat, p: nat)
    requires a <= b
    ensures a * p <= b * p
  {
  }

  lemma SplitDivision(v: nat, p: nat)
    requires 1 <= p
    ensures v == v / p * p + v % p && v % p < p && 0 <= v / p
  {
  }

  lemma DivideBelow(v: nat, base: nat, p: nat)
    requires 1 <= p && v < base * p
    ensures v / p < base
  {
    SplitDivision(v, p);
    if base <= v / p {
      MultiplyMonotone(base, v / p, p);
    }
  }

  lemma Carry(d: nat, r: nat, base: nat, p: nat)
    requires r < p && d < base
    ensures d * p + r < base * p
  {
    MultiplyMonotone(d + 1, base, p);
    assert (d + 1) * p == d * p + p;
  }

  lemma DivideExactly(base: nat, p: nat)
    requires Base(base)
    ensures base * p / base == p
  {
    if base == 10 {
      assert 10 * p / 10 == p;
    } else {
      assert 16 * p / 16 == p;
    }
  }

  lemma Regroup(base: nat, x: nat, p: nat, y: nat, d: nat)
    ensures base * (x * p + y) + d == x * (base * p) + (base * y + d)
  {
    assert base * (x * p + y) == base * (x * p) + base * y;
    assert base * (x * p) == x * (base * p);
  }

  function DivBase(v: nat, base: nat): (r: nat)
    requires Base(base)
    ensures v < base ==> r == 0
    ensures base <= v ==> r < v
  {
    if base == 10 then v / 10 else v / 16
  }

  function ModBase(v: nat, base: nat): (r: nat)
    requires Base(base)
    ensures r < base && v == base * DivBase(v, base) + r
  {
    if base == 10 then v % 10 else v % 16
  }

  lemma DivBaseIsDivision(v: nat, base: nat)
    requires Base(base)
    ensures v / base == DivBase(v, base)
  {
  }

  /** The n lowest digits of v, most significant first. */
  function Numeral(v: nat, base: nat, n: nat): (r: seq<byte>)
    requires Base(base)
    ensures |r| == n
  {
    if n == 0 then [] else Numeral(DivBase(v, base), base, n - 1) + [DigitChar(ModBase(v, base))]
  }

  predicate IsDigits(s: seq<byte>, base: nat) {
    forall c :: c in s ==> CharDigit(c).Some? && CharDigit(c).value < base
  }

  /** The value of a string of digits. */
  function ValueOf(s: seq<byte>, base: nat): (r: nat)
    requires Base(base) && IsDigits(s, base)
  {
    if s == [] then 0 else base * ValueOf(s[..|s| - 1], base) + CharDigit(s[|s| - 1]).value
  }

  lemma {:induction false} ValueConcat(a: seq<byte>, b: seq<byte>, base: nat)
    requires Base(base) && IsDigits(a, base) && IsDigits(b, base)
    ensures ValueOf(a + b, base) == ValueOf(a, base) * Pow(base, |b|) + ValueOf(b, base)
  {
    if b == [] {
      assert a + b == a;
    } else {
      hide Pow, CharDigit;
      var front, d := b[..|b| - 1], CharDigit(b[|b| - 1]).value;
      assert (a + b)[..|a + b| - 1] == a + front;
      ValueConcat(a, front, base);
      PowStep(base, |b|);
      Regroup(base, ValueOf(a, base), Pow(base, |front|), ValueOf(front, base), d);
    }
  }

  lemma PowStep(base: nat, n: nat)
    requires 1 <= base && 1 <= n
    ensures Pow(base, n) == base * Pow(base, n - 1)
  {
  }

  /** The numeral reads back to the number, if there are enough places. */
  lemma {:induction false} NumeralReadsBack(v: nat, base: nat, n: nat)
    requires Base(base) && v < Pow(base, n)
    ensures IsDigits(Numeral(v, base, n), base) && ValueOf(Numeral(v, base, n), base) == v
  {
    if n == 0 {
      assert Pow(base, 0) == 1;
    } else {
      PowStep(base, n);
      hide Pow;
      assert DivBase(v, base) < Pow(base, n - 1);
      hide DivBase, ModBase;
      NumeralReadsBack(DivBase(v, base), base, n - 1);
    }
  }

  lemma HornerStep(x: nat, d: nat, base: nat)
    requires Base(base) && d < base
    ensures DivBase(base * x + d, base) == x && ModBase(base * x + d, base) == d
  {
  }

  lemma NumeralStep(x: nat, d: nat, base: nat, n: nat)
    requires Base(base) && d < base
    ensures Numeral(base * x + d, base, n + 1) == Numeral(x, base, n) + [DigitChar(d)]
  {
    HornerStep(x, d, base);
  }

  lemma DigitsInFront(s: seq<byte>, base: nat)
    requires IsDigits(s, base) && s != []
    ensures IsDigits(s[..|s| - 1], base)
    ensures var c := CharDigit(s[|s| - 1]);
      c.Some? && c.value < base && (c.value < 16 ==> DigitChar(c.value) == s[|s| - 1])
  {
    assert forall c :: c in s[..|s| - 1] ==> c in s;
    assert s[|s| - 1] in s;
  }

  /** No other digits in as many places have the same value. */
  lemma {:induction false} NumeralIsUnique(s: seq<byte>, base: nat)
    requires Base(base) && IsDigits(s, base)
    ensures Numeral(ValueOf(s, base), base, |s|) == s
  {
    if s != [] {
      var front, last := s[..|s| - 1], s[|s| - 1];
      DigitsInFront(s, base);
      NumeralIsUnique(front, base);
      NumeralStep(ValueOf(front, base), CharDigit(last).value, base, |front|);
      hide Numeral;
      assert front + [last] == s;
    }
  }

  lemma OneDigit(q: nat, base: nat)
    requires Base(base) && q < base
    ensures IsDigits([DigitChar(q)], base) && ValueOf([DigitChar(q)], base) == q
  {
    assert [DigitChar(q)][..0] == [];
  }

  lemma DigitsTogether(a: seq<byte>, b: seq<byte>, base: nat)
    requires IsDigits(a, base) && IsDigits(b, base)
    ensures IsDigits(a + b, base)
  {
  }

  lemma TopValue(q: nat, r: nat, base: nat, n: nat)
    requires Base(base) && q < base && r < Pow(base, n)
    ensures var s := [DigitChar(q)] + Numeral(r, base, n);
      IsDigits(s, base) && ValueOf(s, base) == q * Pow(base, n) + r
  {
    OneDigit(q, base);
    NumeralReadsBack(r, base, n);
    hide Pow, ValueOf, Numeral, DigitChar;
    DigitsTogether([DigitChar(q)], Numeral(r, base, n), base);
    ValueConcat([DigitChar(q)], Numeral(r, base, n), base);
  }

  /** The most significant digit is the quotient by the place value, the others are the remainder. */
  lemma TopDigit(q: nat, r: nat, base: nat, n: nat)
    requires Base(base) && q < base && r < Pow(base, n)
    ensures Numeral(q * Pow(base, n) + r, base, n + 1) == [DigitChar(q)] + Numeral(r, base, n)
  {
    hide Pow, ValueOf, Numeral, DigitChar;
    TopValue(q, r, base, n);
    NumeralIsUnique([DigitChar(q)] + Numeral(r, base, n), base);
  }

  /** The number of digits of v without leading zeros. */
  function Width(v: nat, base: nat): (r: nat)
    requires Base(base)
    ensures 1 <= r
  {
    if v < base then 1 else 1 + Width(DivBase(v, base), base)
  }

  lemma {:induction false} WidthExactly(v: nat, base: nat, n: nat)
    requires Base(base) && 1 <= n
    ensures Width(v, base) <= n <==> v < Pow(base, n)
  {
    PowStep(base, n);
    if n == 1 {
      assert Pow(base, 0) == 1;
    } else if base <= v {
      WidthExactly(DivBase(v, base), base, n - 1);
    } else {
      PowMonotone(base, 1, n);
    }
  }

  lemma {:induction false} PowMonotone(base: nat, a: nat, b: nat)
    requires 1 <= base && a <= b
    ensures Pow(base, a) <= Pow(base, b)
  {
    if a < b {
      PowMonotone(base, a, b - 1);
      MultiplyMonotone(1, base, Pow(base, b - 1));
    }
  }

  // Fields --------------------------------------------------------------------------------------

  datatype Flags = Flags(left: bool, zero: bool, plus: bool, alternate: bool)

  function Repeat(c: byte, n: nat): (r: seq<byte>)
    ensures |r| == n
  {
    seq(n, _ => c)
  }

  /** Digits at the given precision. */
  function DigitsOf(v: nat, base: nat, precision: nat): (r: seq<byte>)
    requires Base(base)
    ensures |r| == Max(precision, Width(v, base))
  {
    var n := Max(precision, Width(v, base));
    WidthExactly(v, base, n);
    Numeral(v, base, n)
  }

  /** A number in its field: padded on the right, or with zeros behind the sign, or with spaces in front. */
  function InField(sign: seq<byte>, digits: seq<byte>, width: nat, precision: nat, flags: Flags): (r: seq<byte>)
    ensures |r| == Max(width, |sign| + |digits|)
  {
    var n := Max(0, width - |sign| - |digits|);
    if flags.left then sign + digits + Repeat(SPACE, n)
    else if flags.zero && precision == 0 then sign + Repeat(ZERO, n) + digits
    else Repeat(SPACE, n) + sign + digits
  }

  function UnsignedText(v: u32, base: nat, precision: nat, width: nat, flags: Flags): seq<byte>
    requires Base(base)
  {
    InField([], DigitsOf(v, base, precision), width, precision, flags)
  }

  function Sign(v: int, flags: Flags): (r: seq<byte>)
    ensures |r| <= 1
  {
    if v < 0 then [MINUS] else if flags.plus then [PLUS] else []
  }

  function Magnitude(v: int): nat {
    if v < 0 then -v else v
  }

  function IntText(v: int, base: nat, precision: nat, width: nat, flags: Flags): seq<byte>
    requires Base(base)
  {
    InField(Sign(v, flags), DigitsOf(Magnitude(v), base, precision), width, precision, flags)
  }

  /** Reading a number: skip spaces, take a sign, take digits. */
  function SkipSpaces(s: seq<byte>): seq<byte> {
    if s != [] && s[0] == SPACE then SkipSpaces(s[1..]) else s
  }

  function LeadingDigits(s: seq<byte>, base: nat): (r: seq<byte>)
    ensures IsDigits(r, base)
  {
    if s != [] && CharDigit(s[0]).Some? && CharDigit(s[0]).value < base then [s[0]] + LeadingDigits(s[1..], base)
    else []
  }

  function ReadNumber(s: seq<byte>, base: nat): int
    requires Base(base)
  {
    var t := SkipSpaces(s);
    if t != [] && t[0] == MINUS then 0 - ValueOf(LeadingDigits(t[1..], base), base) as int
    else if t != [] && t[0] == PLUS then ValueOf(LeadingDigits(t[1..], base), base)
    else ValueOf(LeadingDigits(t, base), base)
  }

  lemma {:induction false} SpacesSkipped(n: nat, s: seq<byte>)
    requires s != [] && s[0] != SPACE
    ensures SkipSpaces(Repeat(SPACE, n) + s) == s
  {
    if n == 0 {
      assert Repeat(SPACE, n) + s == s;
    } else {
      assert (Repeat(SPACE, n) + s)[1..] == Repeat(SPACE, n - 1) + s;
      SpacesSkipped(n - 1, s);
    }
  }

  lemma {:induction false} DigitsTaken(digits: seq<byte>, n: nat, base: nat)
    requires IsDigits(digits, base)
    ensures LeadingDigits(digits + Repeat(SPACE, n), base) == digits
  {
    if digits == [] {
      assert digits + Repeat(SPACE, n) == Repeat(SPACE, n);
    } else {
      assert (digits + Repeat(SPACE, n))[1..] == digits[1..] + Repeat(SPACE, n);
      assert digits[0] in digits && forall c :: c in digits[1..] ==> c in digits;
      DigitsTaken(digits[1..], n, base);
    }
  }

  lemma {:induction false} LeadingZeros(n: nat, digits: seq<byte>, base: nat)
    requires Base(base) && IsDigits(digits, base)
    ensures IsDigits(Repeat(ZERO, n) + digits, base)
    ensures ValueOf(Repeat(ZERO, n) + digits, base) == ValueOf(digits, base)
  {
    ValueConcat(Repeat(ZERO, n), digits, base);
    ZerosAreZero(n, base);
  }

  lemma {:induction false} ZerosAreZero(n: nat, base: nat)
    requires Base(base)
    ensures ValueOf(Repeat(ZERO, n), base) == 0
  {
    if n != 0 {
      assert Repeat(ZERO, n)[..n - 1] == Repeat(ZERO, n - 1);
      ZerosAreZero(n - 1, base);
    }
  }

  /** Whatever the flags, the width and the precision: the text reads back to the number. */
  lemma IntReadsBack(v: int, base: nat, precision: nat, width: nat, flags: Flags)
    requires Base(base)
    ensures ReadNumber(IntText(v, base, precision, width, flags), base) == v
  {
    var digits, sign := DigitsOf(Magnitude(v), base, precision), Sign(v, flags);
    var n := Max(precision, Width(Magnitude(v), base));
    WidthExactly(Magnitude(v), base, n);
    NumeralReadsBack(Magnitude(v), base, n);
    assert digits[0] in digits;
    FieldReadsBack(sign, digits, width, precision, flags, base);
  }

  lemma UnsignedReadsBack(v: u32, base: nat, precision: nat, width: nat, flags: Flags)
    requires Base(base)
    ensures ReadNumber(UnsignedText(v, base, precision, width, flags), base) == v
  {
    var digits, n := DigitsOf(v, base, precision), Max(precision, Width(v, base));
    WidthExactly(v, base, n);
    NumeralReadsBack(v, base, n);
    assert digits[0] in digits;
    FieldReadsBack([], digits, width, precision, flags, base);
  }

  lemma FieldReadsBack(sign: seq<byte>, digits: seq<byte>, width: nat, precision: nat, flags: Flags, base: nat)
    requires Base(base) && IsDigits(digits, base) && digits != [] && digits[0] in digits
    requires sign == [] || sign == [PLUS] || sign == [MINUS]
    ensures var value := ValueOf(digits, base);
      ReadNumber(InField(sign, digits, width, precision, flags), base)
      == if sign == [MINUS] then 0 - value as int else value
  {
    hide ReadNumber, SkipSpaces, LeadingDigits, ValueOf, CharDigit;
    var text := InField(sign, digits, width, precision, flags);
    var n := Max(0, width - |sign| - |digits|);
    if flags.left {
      DigitsTaken(digits, n, base);
      BodyReadsBack(sign, digits, Repeat(SPACE, n), base);
      assert text == sign + digits + Repeat(SPACE, n);
      assert Repeat(SPACE, 0) + text == text;
      SpacesSkipped(0, text);
    } else if flags.zero && precision == 0 {
      LeadingZeros(n, digits, base);
      DigitsTaken(Repeat(ZERO, n) + digits, 0, base);
      BodyReadsBack(sign, Repeat(ZERO, n) + digits, Repeat(SPACE, 0), base);
      assert text == sign + (Repeat(ZERO, n) + digits) + Repeat(SPACE, 0);
      assert Repeat(SPACE, 0) + text == text;
      SpacesSkipped(0, text);
    } else {
      DigitsTaken(digits, 0, base);
      BodyReadsBack(sign, digits, Repeat(SPACE, 0), base);
      assert text == Repeat(SPACE, n) + (sign + digits + Repeat(SPACE, 0));
      SpacesSkipped(n, sign + digits + Repeat(SPACE, 0));
      OnlySpacesDiffer(text, sign + digits + Repeat(SPACE, 0), base);
    }
  }

  lemma OnlySpacesDiffer(s: seq<byte>, t: seq<byte>, base: nat)
    requires Base(base) && SkipSpaces(s) == SkipSpaces(t)
    ensures ReadNumber(s, base) == ReadNumber(t, base)
  {
  }

  lemma BodyReadsBack(sign: seq<byte>, digits: seq<byte>, rest: seq<byte>, base: nat)
    requires Base(base) && IsDigits(digits, base) && digits != []
    requires sign == [] || sign == [PLUS] || sign == [MINUS]
    requires LeadingDigits(digits + rest, base) == digits
    ensures var t, value := sign + digits + rest, ValueOf(digits, base);
      && t[0] != SPACE && SkipSpaces(t) == t
      && ReadNumber(t, base) == if sign == [MINUS] then 0 - value as int else value
  {
    var t := sign + digits + rest;
    assert digits[0] in digits;
    if sign == [] {
      assert t == digits + rest;
    } else {
      assert t[1..] == digits + rest;
    }
  }
}
