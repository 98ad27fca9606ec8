/** Format strings of the target printf: how they are taken apart, and the text they stand for. */
module Formats {
  import opened Bytes
  import opened Numbers

  const DOT: byte := 46

  type i32 = x: int | -0x8000_0000 <= x < 0x8000_0000

  predicate IsFlag(c: byte) {
    c == MINUS || c == ZERO || c == PLUS || c == 35
  }

  predicate IsDigit(c: byte) {
    48 <= c <= 57
  }

  /** 'l' or 'h'. */
  predicate IsModifier(c: byte) {
    c == 108 || c == 104
  }

  /** A plain character, or a conversion with its flags, width, precision and length modifiers. */
  datatype Item =
    | Plain(c: byte)
    | Conversion(flags: seq<byte>, width: seq<byte>, precision: Option<seq<byte>>, modifiers: seq<byte>, kind: byte)

  // Parsing -------------------------------------------------------------------------------------

  datatype Class = Flag | Digit | Modifier

  predicate Belongs(c: byte, k: Class) {
    match k
    case Flag => IsFlag(c)
    case Digit => IsDigit(c)
    case Modifier => IsModifier(c)
  }

  /** The characters of class k in front. */
  function While(s: seq<byte>, k: Class): (r: seq<byte>)
    ensures r <= s
  {
    if s != [] && Belongs(s[0], k) then [s[0]] + While(s[1..], k) else []
  }

  lemma {:induction false} WhileExactly(s: seq<byte>, k: Class, i: nat)
    requires i < |s| && i <= |While(s, k)|
    ensures Belongs(s[i], k) <==> i < |While(s, k)|
  {
    if i != 0 {
      WhileExactly(s[1..], k, i - 1);
    }
  }

  function PrecisionOf(s: seq<byte>): Option<seq<byte>> {
    if s != [] && s[0] == DOT then Some(While(s[1..], Digit)) else None
  }

  function PrecisionText(precision: Option<seq<byte>>): seq<byte> {
    match precision case None => [] case Some(ds) => [DOT] + ds
  }

  /** A conversion and what follows it, or a format that ends too early. */
  datatype Scan = Incomplete | Scanned(item: Item, rest: seq<byte>)

  // Where the parts of a conversion end

  function FlagsEnd(s: seq<byte>): (r: nat)
    ensures r <= |s|
  {
    |While(s, Flag)|
  }

  function WidthEnd(s: seq<byte>): (r: nat)
    ensures FlagsEnd(s) <= r <= |s|
  {
    FlagsEnd(s) + |While(s[FlagsEnd(s)..], Digit)|
  }

  function PrecisionEnd(s: seq<byte>): (r: nat)
    ensures WidthEnd(s) <= r <= |s|
  {
    WidthEnd(s) + |PrecisionText(PrecisionOf(s[WidthEnd(s)..]))|
  }

  function ModifiersEnd(s: seq<byte>): (r: nat)
    ensures PrecisionEnd(s) <= r <= |s|
  {
    PrecisionEnd(s) + |While(s[PrecisionEnd(s)..], Modifier)|
  }

  /** The conversion behind a percent sign. */
  function ParseConversion(s: seq<byte>): (r: Scan)
    ensures r.Scanned? ==> r.item.Conversion? && |r.rest| < |s| && r.rest == s[|s| - |r.rest|..]
  {
    var a, b, c, d := FlagsEnd(s), WidthEnd(s), PrecisionEnd(s), ModifiersEnd(s);
    if d == |s| then Incomplete
    else Scanned(Conversion(s[..a], s[a..b], PrecisionOf(s[b..]), s[c..d], s[d]), s[d + 1..])
  }

  function Cons(it: Item, tail: Option<seq<Item>>): Option<seq<Item>> {
    match tail case None => None case Some(items) => Some([it] + items)
  }

  /** Take a format apart. The interpreter swallows the character behind a conversion with length modifiers;
      without swallow this is what the format means. None if the format ends too early. */
  function Parse(s: seq<byte>, swallow: bool): Option<seq<Item>>
    decreases |s|
  {
    if s == [] then Some([])
    else if s[0] != PERCENT then Cons(Plain(s[0]), Parse(s[1..], swallow))
    else match ParseConversion(s[1..])
      case Incomplete => None
      case Scanned(it, rest) =>
        if !swallow || it.modifiers == [] then Cons(it, Parse(rest, swallow))
        else if rest == [] then None
        else Cons(it, Parse(rest[1..], swallow))
  }

  /** The text of a conversion behind its percent sign. */
  function Text(it: Item): seq<byte>
    requires it.Conversion?
  {
    it.flags + it.width + PrecisionText(it.precision) + it.modifiers + [it.kind]
  }

  function UnparseItem(it: Item): seq<byte> {
    match it case Plain(c) => [c] case Conversion(_, _, _, _, _) => [PERCENT] + Text(it)
  }

  function Unparse(items: seq<Item>): seq<byte> {
    if items == [] then [] else UnparseItem(items[0]) + Unparse(items[1..])
  }

  lemma PrefixOfTail(s: seq<byte>, a: nat, t: seq<byte>)
    requires a <= |s| && t <= s[a..]
    ensures t == s[a..a + |t|]
  {
  }

  lemma ConversionText(s: seq<byte>)
    requires ParseConversion(s).Scanned?
    ensures s == Text(ParseConversion(s).item) + ParseConversion(s).rest
  {
    var b := WidthEnd(s);
    PrecisionIsText(s[b..]);
    hide While, PrecisionText, PrecisionOf, Text, FlagsEnd, WidthEnd, ModifiersEnd;
    PrefixOfTail(s, b, PrecisionText(PrecisionOf(s[b..])));
    Assemble(s, ParseConversion(s).item, FlagsEnd(s), b, PrecisionEnd(s), ModifiersEnd(s));
  }

  lemma Assemble(s: seq<byte>, it: Item, a: nat, b: nat, c: nat, d: nat)
    requires a <= b <= c <= d < |s| && it.Conversion?
    requires it.flags == s[..a] && it.width == s[a..b] && PrecisionText(it.precision) == s[b..c]
    requires it.modifiers == s[c..d] && it.kind == s[d]
    ensures s == Text(it) + s[d + 1..]
  {
    hide PrecisionText;
    assert s[..d + 1] == s[..a] + s[a..b] + s[b..c] + s[c..d] + [s[d]];
  }

  lemma PrecisionIsText(s: seq<byte>)
    ensures PrecisionText(PrecisionOf(s)) <= s
  {
    hide While;
  }

  /** The parts are what each step of a scanner takes. */
  lemma ConversionParts(s: seq<byte>)
    requires ParseConversion(s).Scanned?
    ensures var it, r := ParseConversion(s).item, ParseConversion(s).rest;
      && ModifiersEnd(s) < |s| && it.kind == s[ModifiersEnd(s)] && r == s[ModifiersEnd(s) + 1..]
      && it.flags == While(s, Flag) && it.width == While(s[FlagsEnd(s)..], Digit)
      && it.precision == PrecisionOf(s[WidthEnd(s)..]) && it.modifiers == While(s[PrecisionEnd(s)..], Modifier)
  {
    FlagsPart(s);
    WidthPart(s);
    ModifiersPart(s);
    hide While, PrecisionOf, PrecisionText, FlagsEnd, WidthEnd, PrecisionEnd, ModifiersEnd;
  }

  lemma FlagsPart(s: seq<byte>)
    ensures s[..FlagsEnd(s)] == While(s, Flag)
  {
    hide While;
  }

  lemma WidthPart(s: seq<byte>)
    ensures s[FlagsEnd(s)..WidthEnd(s)] == While(s[FlagsEnd(s)..], Digit)
  {
    hide While, FlagsEnd;
    PrefixOfTail(s, FlagsEnd(s), While(s[FlagsEnd(s)..], Digit));
  }

  lemma ModifiersPart(s: seq<byte>)
    ensures s[PrecisionEnd(s)..ModifiersEnd(s)] == While(s[PrecisionEnd(s)..], Modifier)
  {
    hide While, PrecisionEnd;
    PrefixOfTail(s, PrecisionEnd(s), While(s[PrecisionEnd(s)..], Modifier));
  }

  /** The meaning of a format accounts for each of its characters. */
  lemma {:induction false} ParseIsComplete(s: seq<byte>)
    requires Parse(s, false).Some?
    ensures Unparse(Parse(s, false).value) == s
    decreases |s|
  {
    hide ParseConversion, Text;
    if s != [] {
      if s[0] != PERCENT {
        ParseIsComplete(s[1..]);
      } else {
        ConversionText(s[1..]);
        var r := ParseConversion(s[1..]);
        ParseIsComplete(r.rest);
        assert [PERCENT] + Text(r.item) + r.rest == [PERCENT] + (Text(r.item) + r.rest) == s;
      }
    }
  }

  // Meaning -------------------------------------------------------------------------------------

  /** A decimal number in a format, in the 32-bit arithmetic of the target. */
  function FormatNumber(ds: seq<byte>): u32 {
    if ds == [] then 0 else U32(FormatNumber(ds[..|ds| - 1]) * 10 + (ds[|ds| - 1] as int - 48))
  }

  function FlagsOf(s: seq<byte>): Flags {
    Flags(MINUS in s, ZERO in s, PLUS in s, 35 in s)
  }

  const KIND_C: byte := 99
  const KIND_D: byte := 100
  const KIND_U: byte := 117
  const KIND_X: byte := 120
  const KIND_UPPER_X: byte := 88
  const KIND_P: byte := 112

  predicate TakesArgument(it: Item) {
    it.Conversion? && it.kind in {KIND_C, KIND_D, KIND_U, KIND_X, KIND_UPPER_X, KIND_P}
  }

  function FieldWidth(it: Item): u32
    requires it.Conversion?
  {
    FormatNumber(it.width)
  }

  function Precision(it: Item): u32
    requires it.Conversion?
  {
    match it.precision case None => 0 case Some(ds) => FormatNumber(ds)
  }

  /** The argument can be printed with the precision asked for. */
  predicate Printable(it: Item, v: i32) {
    it.Conversion? ==>
      && (it.kind == KIND_D ==> Precision(it) <= 10 && v != -0x8000_0000)
      && (it.kind == KIND_U ==> Precision(it) <= 10)
      && (it.kind == KIND_X || it.kind == KIND_UPPER_X ==> Precision(it) <= 8)
  }

  const NO_FLAGS: Flags := Flags(false, false, false, false)

  /** The text an item stands for. Unknown conversions stand for nothing. */
  function Render(it: Item, v: i32): seq<byte> {
    match it
    case Plain(c) => [c]
    case Conversion(flags, _, _, _, kind) =>
      if kind == KIND_C then [v % 256]
      else if kind == KIND_D then IntText(v, 10, Precision(it), FieldWidth(it), FlagsOf(flags))
      else if kind == KIND_U then UnsignedText(U32(v), 10, Precision(it), FieldWidth(it), FlagsOf(flags))
      else if kind == KIND_X || kind == KIND_UPPER_X then
        UnsignedText(U32(v), 16, Precision(it), FieldWidth(it), FlagsOf(flags))
      else if kind == KIND_P then UnsignedText(U32(v), 16, 8, 8, NO_FLAGS)
      else if kind == PERCENT then [PERCENT]
      else []
  }

  /** There are arguments for all conversions that take one, and they can be printed. */
  predicate ArgumentsFit(items: seq<Item>, args: seq<i32>) {
    items == [] ||
    (if TakesArgument(items[0]) then args != [] && Printable(items[0], args[0]) && ArgumentsFit(items[1..], args[1..])
     else ArgumentsFit(items[1..], args))
  }

  /** The reference formatter. */
  function RenderAll(items: seq<Item>, args: seq<i32>): seq<byte>
    requires ArgumentsFit(items, args)
  {
    if items == [] then []
    else if TakesArgument(items[0]) then Render(items[0], args[0]) + RenderAll(items[1..], args[1..])
    else Render(items[0], 0) + RenderAll(items[1..], args)
  }
}
