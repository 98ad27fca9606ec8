/** What length modifiers do to the output of the target printf: the interpreter swallows the character
    behind every conversion that has them. */
module LengthModifiers {
  import opened Bytes
  import opened Numbers
  import opened Formats

  predicate HasModifiers(it: Item) {
    it.Conversion? && it.modifiers != []
  }

  function Modified(items: seq<Item>): nat {
    if items == [] then 0 else (if HasModifiers(items[0]) then 1 else 0) + Modified(items[1..])
  }

  /** The number of arguments items take. */
  function Takes(items: seq<Item>): nat {
    if items == [] then 0 else (if TakesArgument(items[0]) then 1 else 0) + Takes(items[1..])
  }

  /** Some way of taking a format apart that does not end too early. */
  lemma ParseStep(s: seq<byte>, swallow: bool)
    requires s != [] && Parse(s, swallow).Some?
    ensures var items := Parse(s, swallow).value;
      && items != []
      && if s[0] != PERCENT then
           items[0] == Plain(s[0]) && Parse(s[1..], swallow) == Some(items[1..])
         else
           var r := ParseConversion(s[1..]);
           && r.Scanned? && items[0] == r.item
           && if !swallow || r.item.modifiers == [] then Parse(r.rest, swallow) == Some(items[1..])
              else r.rest != [] && Parse(r.rest[1..], swallow) == Some(items[1..])
  {
    hide ParseConversion;
  }

  /** The first item is taken the same way if it has no length modifiers. */
  lemma SameFirst(s: seq<byte>) returns (rest: seq<byte>)
    requires s != [] && Parse(s, false).Some? && !HasModifiers(Parse(s, false).value[0])
    ensures |rest| < |s| && Parse(rest, false) == Some(Parse(s, false).value[1..])
    ensures Parse(s, true) == Cons(Parse(s, false).value[0], Parse(rest, true))
  {
    hide ParseConversion;
    ParseStep(s, false);
    rest := if s[0] != PERCENT then s[1..] else ParseConversion(s[1..]).rest;
  }

  // No percent sign is swallowed -----------------------------------------------------------------

  /** Behind every conversion with length modifiers stands a plain character. */
  predicate SwallowsPlain(items: seq<Item>) {
    forall i :: 0 <= i < |items| && HasModifiers(items[i]) ==> i + 1 < |items| && items[i + 1].Plain?
  }

  /** The items without the characters that are swallowed. */
  function Kept(items: seq<Item>): seq<Item> {
    if items == [] then []
    else [items[0]] + Kept(if HasModifiers(items[0]) && 1 < |items| then items[2..] else items[1..])
  }

  /** The interpreter takes such a format apart as it is meant, but for the swallowed characters. */
  lemma {:induction false} SwallowedPlain(s: seq<byte>)
    requires Parse(s, false).Some? && SwallowsPlain(Parse(s, false).value)
    ensures Parse(s, true) == Some(Kept(Parse(s, false).value))
    decreases |s|
  {
    hide ParseConversion;
    if s != [] {
      var items := Parse(s, false).value;
      ParseStep(s, false);
      assert forall i :: 0 <= i < |items| - 1 ==> items[1..][i] == items[i + 1];
      if s[0] != PERCENT {
        SwallowedPlain(s[1..]);
      } else {
        var rest := ParseConversion(s[1..]).rest;
        if HasModifiers(items[0]) {
          assert items[1].Plain? && items[1..] != [];
          ParseStep(rest, false);
          assert forall i :: 0 <= i < |items| - 2 ==> items[2..][i] == items[i + 2];
          assert items[1..][1..] == items[2..];
          SwallowedPlain(rest[1..]);
        } else {
          SwallowedPlain(rest);
        }
      }
    }
  }

  /** Every swallowed character is missing from the output, and nothing else is. */
  lemma {:induction false} LostText(items: seq<Item>, args: seq<i32>)
    requires SwallowsPlain(items) && ArgumentsFit(items, args)
    ensures ArgumentsFit(Kept(items), args)
    ensures |RenderAll(items, args)| == |RenderAll(Kept(items), args)| + Modified(items)
    ensures Modified(items) == 0 ==> Kept(items) == items
    decreases |items|
  {
    hide Render, Printable;
    if items != [] {
      var rest := if TakesArgument(items[0]) then args[1..] else args;
      assert forall i :: 0 <= i < |items| - 1 ==> items[1..][i] == items[i + 1];
      if HasModifiers(items[0]) {
        assert items[1].Plain?;
        assert items[1..][1..] == items[2..];
        assert forall i :: 0 <= i < |items| - 2 ==> items[2..][i] == items[i + 2];
        assert |Render(items[1], 0)| == 1 by { PlainLength(items[1]); }
        LostText(items[2..], rest);
      } else {
        LostText(items[1..], rest);
      }
    }
  }

  lemma PlainLength(it: Item)
    requires it.Plain?
    ensures |Render(it, 0)| == 1 && !TakesArgument(it)
  {
  }

  /** As long as no percent sign is swallowed, the interpreter prints what the format means if and only if
      there are no length modifiers, whatever the arguments. */
  lemma ModifiersLoseCharacters(fmt: seq<byte>, args: seq<i32>)
    requires Parse(fmt, false).Some?
    requires var meant := Parse(fmt, false).value; SwallowsPlain(meant) && ArgumentsFit(meant, args)
    ensures var meant, got := Parse(fmt, false).value, Parse(fmt, true);
      && got.Some? && ArgumentsFit(got.value, args)
      && (RenderAll(got.value, args) == RenderAll(meant, args) <==> Modified(meant) == 0)
      && |RenderAll(got.value, args)| + Modified(meant) == |RenderAll(meant, args)|
  {
    hide RenderAll, ArgumentsFit, Parse, SwallowsPlain, Modified;
    SwallowedPlain(fmt);
    LostText(Parse(fmt, false).value, args);
  }

  // A percent sign is swallowed -------------------------------------------------------------------

  /** The characters of text as plain items. */
  function Plains(text: seq<byte>): seq<Item> {
    if text == [] then [] else [Plain(text[0])] + Plains(text[1..])
  }

  lemma ParsePlain(c: byte, s: seq<byte>, swallow: bool)
    requires c != PERCENT
    ensures Parse([c] + s, swallow) == Cons(Plain(c), Parse(s, swallow))
  {
    assert ([c] + s)[1..] == s;
  }

  lemma {:induction false} ParsePlains(text: seq<byte>, s: seq<byte>, swallow: bool)
    requires PERCENT !in text && Parse(s, swallow).Some?
    ensures Parse(text + s, swallow) == Some(Plains(text) + Parse(s, swallow).value)
  {
    hide Parse;
    var items := Parse(s, swallow).value;
    if text == [] {
      assert text + s == s && Plains(text) + items == items;
    } else {
      var c, rest := text[0], text[1..];
      assert text + s == [c] + (rest + s);
      ParsePlain(c, rest + s, swallow);
      ParsePlains(rest, s, swallow);
      assert [Plain(c)] + (Plains(rest) + items) == [Plain(c)] + Plains(rest) + items;
    }
  }

  lemma {:induction false} Unmodified(s: seq<byte>)
    requires Parse(s, false).Some? && Modified(Parse(s, false).value) == 0
    ensures Parse(s, true) == Parse(s, false)
    decreases |s|
  {
    hide ParseConversion;
    if s != [] {
      ParseStep(s, false);
      Unmodified(if s[0] != PERCENT then s[1..] else ParseConversion(s[1..]).rest);
    }
  }

  /** Text that takes no arguments is the same with any arguments. */
  lemma {:induction false} NoArguments(items: seq<Item>, a: seq<i32>, b: seq<i32>)
    requires Takes(items) == 0 && ArgumentsFit(items, a)
    ensures ArgumentsFit(items, b) && RenderAll(items, a) == RenderAll(items, b)
  {
    hide Render, Printable;
    if items != [] {
      NoArguments(items[1..], a, b);
    }
  }

  lemma {:induction false} PlainsRender(text: seq<byte>, items: seq<Item>, args: seq<i32>)
    requires ArgumentsFit(items, args)
    ensures ArgumentsFit(Plains(text) + items, args)
    ensures RenderAll(Plains(text) + items, args) == text + RenderAll(items, args)
  {
    hide Render, Printable, ArgumentsFit, RenderAll;
    if text == [] {
      assert Plains(text) + items == items;
    } else {
      var c, tail := text[0], Plains(text[1..]) + items;
      assert Plains(text) + items == [Plain(c)] + tail;
      PlainsRender(text[1..], items, args);
      assert Render(Plain(c), 0) == [c] by { PlainRender(c); }
      assert args[0..] == args;
      FitsFirst(Plain(c), tail, args);
      RenderFirst(Plain(c), tail, args);
      Regrouped(c, text[1..], RenderAll(items, args));
      assert [c] + text[1..] == text;
    }
  }

  lemma Regrouped(c: byte, a: seq<byte>, b: seq<byte>)
    ensures [c] + (a + b) == [c] + a + b
  {
  }

  lemma PlainRender(c: byte)
    ensures Render(Plain(c), 0) == [c]
  {
  }

  /** %c without flags, width and precision. */
  const BARE_C: Item := Conversion([], [], None, [], KIND_C)

  /** The last character of a number in its field is a digit or a space. */
  lemma LastOfNumber(sign: seq<byte>, v: nat, base: nat, precision: nat, width: nat, flags: Flags)
    requires Base(base)
    ensures var text := InField(sign, DigitsOf(v, base, precision), width, precision, flags);
      text != [] && (text[|text| - 1] == SPACE || CharDigit(text[|text| - 1]).Some?)
  {
    hide Width, Pow;
    var n := Max(precision, Width(v, base));
    WidthExactly(v, base, n);
    assert DigitsOf(v, base, precision) == Numeral(v, base, n);
    assert Numeral(v, base, n)[n - 1] == DigitChar(ModBase(v, base));
  }

  lemma LastRendered(k: Item, v: i32)
    requires TakesArgument(k) && k.kind != KIND_C
    ensures var text := Render(k, v);
      text != [] && (text[|text| - 1] == SPACE || CharDigit(text[|text| - 1]).Some?)
  {
    hide InField, DigitsOf, FormatNumber, FlagsOf;
    if k.kind == KIND_D {
      LastOfNumber(Sign(v, FlagsOf(k.flags)), Magnitude(v), 10, Precision(k), FieldWidth(k), FlagsOf(k.flags));
    } else if k.kind == KIND_U {
      LastOfNumber([], U32(v), 10, Precision(k), FieldWidth(k), FlagsOf(k.flags));
    } else if k.kind == KIND_P {
      LastOfNumber([], U32(v), 16, 8, 8, NO_FLAGS);
    } else {
      LastOfNumber([], U32(v), 16, Precision(k), FieldWidth(k), FlagsOf(k.flags));
    }
  }

  /** The only conversion that can look like its own text is a bare %c with the letter c. */
  lemma LooksLikeItself(k: Item, v: i32)
    requires k.Conversion? && k.kind != PERCENT && !HasModifiers(k)
    ensures Render(k, v) == Text(k) <==> k == BARE_C && v % 256 == KIND_C
  {
    assert Text(k)[|Text(k)| - 1] == k.kind;
    if TakesArgument(k) && k.kind != KIND_C {
      hide Render, Text;
      LastRendered(k, v);
    } else if k.kind == KIND_C {
      assert |Text(k)| == |k.flags| + |k.width| + |PrecisionText(k.precision)| + 1;
      if k == BARE_C {
        assert Text(k) == [KIND_C];
      }
    }
  }

  /** One item in front, under any way of taking a format apart. */
  lemma RenderFirst(it: Item, items: seq<Item>, args: seq<i32>)
    requires ArgumentsFit([it] + items, args)
    ensures var n := if TakesArgument(it) then 1 else 0;
      && n <= |args| && (n == 1 ==> Printable(it, args[0])) && ArgumentsFit(items, args[n..])
      && RenderAll([it] + items, args) == Render(it, if n == 1 then args[0] else 0) + RenderAll(items, args[n..])
  {
    hide Render, Printable;
    assert ([it] + items)[1..] == items && args[0..] == args;
  }

  lemma FitsFirst(it: Item, items: seq<Item>, args: seq<i32>)
    requires var n := if TakesArgument(it) then 1 else 0;
      n <= |args| && (n == 1 ==> Printable(it, args[0])) && ArgumentsFit(items, args[n..])
    ensures ArgumentsFit([it] + items, args)
  {
    hide Printable;
    assert ([it] + items)[1..] == items && args[0..] == args;
  }

  /** Texts that follow the same text are equal exactly if the whole is. */
  lemma SameFront(a: seq<byte>, x: seq<byte>, y: seq<byte>)
    ensures a + x == a + y <==> x == y
  {
    if a + x == a + y {
      assert x == (a + x)[|a|..] && y == (a + y)[|a|..];
    }
  }

  lemma SameBack(x: seq<byte>, y: seq<byte>, b: seq<byte>)
    ensures x + b == y + b <==> x == y
  {
    if x + b == y + b {
      assert |x| == |y|;
      assert x == (x + b)[..|x|] && y == (y + b)[..|y|];
    }
  }

  lemma {:induction false} WhileBelongs(s: seq<byte>, k: Class)
    ensures PERCENT !in While(s, k)
  {
    if s != [] && Belongs(s[0], k) {
      WhileBelongs(s[1..], k);
    }
  }

  lemma PrecisionBelongs(s: seq<byte>)
    ensures PERCENT !in PrecisionText(PrecisionOf(s))
  {
    if s != [] {
      WhileBelongs(s[1..], Digit);
    }
    hide While;
  }

  lemma TextBelongs(it: Item)
    requires it.Conversion? && it.kind != PERCENT && PERCENT !in it.flags && PERCENT !in it.width
    requires PERCENT !in PrecisionText(it.precision) && PERCENT !in it.modifiers
    ensures PERCENT !in Text(it)
  {
    hide PrecisionText;
  }

  /** Only the last character of a conversion can be a percent sign. */
  lemma NoPercent(s: seq<byte>)
    requires ParseConversion(s).Scanned? && ParseConversion(s).item.kind != PERCENT
    ensures PERCENT !in Text(ParseConversion(s).item)
  {
    ConversionParts(s);
    hide While, PrecisionOf, PrecisionText, ParseConversion, FlagsEnd, WidthEnd, PrecisionEnd, ModifiersEnd, Text;
    WhileBelongs(s, Flag);
    WhileBelongs(s[FlagsEnd(s)..], Digit);
    PrecisionBelongs(s[WidthEnd(s)..]);
    WhileBelongs(s[PrecisionEnd(s)..], Modifier);
    TextBelongs(ParseConversion(s).item);
  }

  lemma SwallowedFirst(s: seq<byte>, m: Item, k: Item, post: seq<Item>)
    requires Parse(s, false) == Some([m, k] + post) && Modified(post) == 0
    requires HasModifiers(m) && k.Conversion? && k.kind != PERCENT
    ensures Parse(s, true) == Some([m] + (Plains(Text(k)) + post))
  {
    hide ParseConversion, Text, Modified;
    var items := [m, k] + post;
    assert s != [] && items[1..] == [k] + post && items[1..][1..] == post;
    ParseStep(s, false);
    var t := ParseConversion(s[1..]).rest;
    assert t != [];
    ParseStep(t, false);
    var u := ParseConversion(t[1..]).rest;
    ConversionText(t[1..]);
    NoPercent(t[1..]);
    Unmodified(u);
    ParsePlains(Text(k), u, true);
    assert Parse(s, true) == Cons(m, Parse(t[1..], true));
  }

  /** Behind the conversion m with modifiers, the percent sign of the conversion k is swallowed. */
  lemma {:induction false} SwallowedPercent(s: seq<byte>, pre: seq<Item>, m: Item, k: Item, post: seq<Item>)
    requires Parse(s, false) == Some(pre + ([m, k] + post)) && Modified(pre) == 0 && Modified(post) == 0
    requires HasModifiers(m) && k.Conversion? && !HasModifiers(k) && k.kind != PERCENT
    ensures Parse(s, true) == Some(pre + ([m] + (Plains(Text(k)) + post)))
    decreases |s|
  {
    hide ParseConversion, Text, Plains;
    var items := pre + ([m, k] + post);
    assert s != [] by { NothingParses(); }
    hide Parse;
    if pre == [] {
      assert items == [m, k] + post;
      SwallowedFirst(s, m, k, post);
      assert pre + ([m] + (Plains(Text(k)) + post)) == [m] + (Plains(Text(k)) + post);
    } else {
      assert items[0] == pre[0] && items[1..] == pre[1..] + ([m, k] + post);
      var rest := SameFirst(s);
      SwallowedPercent(rest, pre[1..], m, k, post);
      var tail := [m] + (Plains(Text(k)) + post);
      assert [pre[0]] + (pre[1..] + tail) == pre + tail;
    }
  }

  /** The texts printed and meant, from the conversion with modifiers on. */
  lemma TailsAgree(m: Item, k: Item, post: seq<Item>, args: seq<i32>)
    requires k.Conversion? && !HasModifiers(k) && k.kind != PERCENT && Takes(post) == 0
    requires ArgumentsFit([m] + ([k] + post), args)
    ensures var got, meant := [m] + (Plains(Text(k)) + post), [m] + ([k] + post);
      var i := if TakesArgument(m) then 1 else 0;
      && ArgumentsFit(got, args)
      && (RenderAll(got, args) == RenderAll(meant, args) <==> k == BARE_C && i < |args| && args[i] % 256 == KIND_C)
  {
    hide Render, Text, ArgumentsFit, RenderAll, Printable;
    RenderFirst(m, [k] + post, args);
    var i := if TakesArgument(m) then 1 else 0;
    var a := args[i..];
    RenderFirst(k, post, a);
    var b := a[if TakesArgument(k) then 1 else 0..];
    NoArguments(post, b, a);
    PlainsRender(Text(k), post, a);
    FitsFirst(m, Plains(Text(k)) + post, args);
    RenderFirst(m, Plains(Text(k)) + post, args);
    var v := if TakesArgument(k) then a[0] else 0;
    var end := RenderAll(post, a);
    SameFront(Render(m, if i == 1 then args[0] else 0), Text(k) + end, Render(k, v) + end);
    SameBack(Text(k), Render(k, v), RenderAll(post, a));
    LooksLikeItself(k, v);
  }

  lemma {:induction false} FrontsAgree(pre: seq<Item>, x: seq<Item>, y: seq<Item>, args: seq<i32>)
    requires ArgumentsFit(pre + x, args)
    ensures Takes(pre) <= |args| && ArgumentsFit(x, args[Takes(pre)..])
    ensures ArgumentsFit(y, args[Takes(pre)..]) ==>
      && ArgumentsFit(pre + y, args)
      && (RenderAll(pre + x, args) == RenderAll(pre + y, args) <==>
          RenderAll(x, args[Takes(pre)..]) == RenderAll(y, args[Takes(pre)..]))
  {
    hide Render, Printable, ArgumentsFit, RenderAll;
    if pre == [] {
      assert pre + x == x && pre + y == y && args[0..] == args;
    } else {
      var it, n := pre[0], if TakesArgument(pre[0]) then 1 else 0;
      assert pre + x == [it] + (pre[1..] + x) && pre + y == [it] + (pre[1..] + y);
      RenderFirst(it, pre[1..] + x, args);
      FrontsAgree(pre[1..], x, y, args[n..]);
      assert args[n..][Takes(pre[1..])..] == args[Takes(pre)..];
      if ArgumentsFit(y, args[Takes(pre)..]) {
        FitsFirst(it, pre[1..] + y, args);
        RenderFirst(it, pre[1..] + y, args);
        SameFront(Render(it, if n == 1 then args[0] else 0), RenderAll(pre[1..] + x, args[n..]),
          RenderAll(pre[1..] + y, args[n..]));
      }
    }
  }

  /** When a percent sign is swallowed, and no arguments are used behind the conversion it belongs to, the
      interpreter still prints what is meant if and only if that conversion is a bare %c for the letter c. */
  lemma SwallowedPercentExactly(fmt: seq<byte>, pre: seq<Item>, m: Item, k: Item, post: seq<Item>, args: seq<i32>)
    requires Parse(fmt, false) == Some(pre + ([m, k] + post)) && Modified(pre) == 0 && Modified(post) == 0
    requires HasModifiers(m) && k.Conversion? && !HasModifiers(k) && k.kind != PERCENT && Takes(post) == 0
    requires ArgumentsFit(pre + ([m, k] + post), args)
    ensures var got, meant := Parse(fmt, true), pre + ([m, k] + post);
      var i := Takes(pre) + if TakesArgument(m) then 1 else 0;
      && got.Some? && ArgumentsFit(got.value, args)
      && (RenderAll(got.value, args) == RenderAll(meant, args) <==>
          k == BARE_C && i < |args| && args[i] % 256 == KIND_C)
  {
    hide RenderAll, ArgumentsFit, Parse, Modified, Takes, Text, Plains, TakesArgument;
    var x, y := [m, k] + post, [m] + (Plains(Text(k)) + post);
    SwallowedPercent(fmt, pre, m, k, post);
    FrontsAgree(pre, x, y, args);
    assert x == [m] + ([k] + post);
    TailsAgree(m, k, post, args[Takes(pre)..]);
  }

  /** %z and %lq, of which neither is known. */
  const UNKNOWN: Item := Conversion([], [], None, [], 122)
  const UNKNOWN_LONG: Item := Conversion([], [], None, [108], 113)

  lemma ParseBare(kind: byte, s: seq<byte>, swallow: bool)
    requires !IsFlag(kind) && !IsDigit(kind) && !IsModifier(kind) && kind != DOT
    ensures Parse([PERCENT, kind] + s, swallow) == Cons(Conversion([], [], None, [], kind), Parse(s, swallow))
  {
    ShortConversion([], kind, s);
    hide ParseConversion;
    var tail := [] + [kind] + s;
    assert [PERCENT, kind] + s == [PERCENT] + tail;
    assert ([PERCENT] + tail)[1..] == tail;
  }

  lemma ParseUnknownLong(s: seq<byte>, swallow: bool)
    requires s != []
    ensures Parse([PERCENT, 108, 113] + s, swallow) == Cons(UNKNOWN_LONG, Parse(if swallow then s[1..] else s, swallow))
  {
    ShortConversion([108], 113, s);
    hide ParseConversion;
    var tail := [108] + [113] + s;
    assert [PERCENT, 108, 113] + s == [PERCENT] + tail;
    assert ([PERCENT] + tail)[1..] == tail;
  }

  /** Two unknown conversions can make up for each other: "%lqz%lq%z" has length modifiers and yet prints "z",
      which is what it means. So no condition on the modifiers alone decides for all formats. */
  lemma LossesMayCancel()
    ensures var z: byte := 122;
      var back: seq<byte> := [PERCENT, 108, 113] + ([PERCENT, z] + []);
      var fmt := [PERCENT, 108, 113] + ([z] + back);
      var got, meant := Parse(fmt, true), Parse(fmt, false);
      && got.Some? && meant.Some? && Modified(meant.value) == 2
      && ArgumentsFit(got.value, []) && ArgumentsFit(meant.value, [])
      && RenderAll(got.value, []) == RenderAll(meant.value, []) == [z]
  {
    var z: byte := 122;
    var end: seq<byte> := [PERCENT, z] + [];
    var back: seq<byte> := [PERCENT, 108, 113] + end;
    ParseBare(z, [], false);
    ParsePlain(z, [], true);
    assert end[1..] == [z] + [] && ([z] + back)[1..] == back;
    ParseUnknownLong(end, false);
    ParseUnknownLong(end, true);
    ParsePlain(z, back, false);
    ParseUnknownLong([z] + back, false);
    ParseUnknownLong([z] + back, true);
    hide Parse;
    assert Parse([], true) == Parse([], false) == Some([]) by { NothingParses(); }
    CancelledTexts(z);
  }

  lemma NothingParses()
    ensures Parse([], true) == Parse([], false) == Some([])
  {
  }

  lemma CancelledTexts(z: byte)
    ensures var c, d := UNKNOWN_LONG, UNKNOWN;
      var got, meant := [c] + ([c] + ([Plain(z)] + [])), [c] + ([Plain(z)] + ([c] + ([d] + [])));
      && ArgumentsFit(got, []) && ArgumentsFit(meant, [])
      && RenderAll(got, []) == RenderAll(meant, []) == [z] && Modified(meant) == 2
  {
    var c, d := UNKNOWN_LONG, UNKNOWN;
    PlainFirst(z, []);
    UnknownFirst(c, [Plain(z)] + []);
    UnknownFirst(c, [c] + ([Plain(z)] + []));
    UnknownFirst(d, []);
    UnknownFirst(c, [d] + []);
    PlainFirst(z, [c] + ([d] + []));
    UnknownFirst(c, [Plain(z)] + ([c] + ([d] + [])));
    assert RenderAll([], []) == [] && Modified([]) == 0;
  }

  lemma UnknownFirst(it: Item, items: seq<Item>)
    requires it.Conversion? && it.kind in {113, 122} && ArgumentsFit(items, [])
    ensures ArgumentsFit([it] + items, []) && RenderAll([it] + items, []) == RenderAll(items, [])
    ensures Modified([it] + items) == (if HasModifiers(it) then 1 else 0) + Modified(items)
  {
    assert ([it] + items)[1..] == items;
  }

  lemma PlainFirst(c: byte, items: seq<Item>)
    requires ArgumentsFit(items, [])
    ensures ArgumentsFit([Plain(c)] + items, []) && RenderAll([Plain(c)] + items, []) == [c] + RenderAll(items, [])
    ensures Modified([Plain(c)] + items) == Modified(items)
  {
    assert ([Plain(c)] + items)[1..] == items;
  }

  lemma ShortConversion(modifiers: seq<byte>, kind: byte, rest: seq<byte>)
    requires modifiers == [] || modifiers == [108]
    requires !IsFlag(kind) && !IsDigit(kind) && !IsModifier(kind) && kind != DOT
    ensures ParseConversion(modifiers + [kind] + rest) == Scanned(Conversion([], [], None, modifiers, kind), rest)
  {
    var s := modifiers + [kind] + rest;
    var n := |modifiers|;
    assert s[0] == (if modifiers == [] then kind else 108) && s[0..] == s && s[n] == kind;
    assert While(s, Flag) == [];
    assert While(s, Digit) == [];
    assert FlagsEnd(s) == WidthEnd(s) == PrecisionEnd(s) == 0;
    if modifiers == [108] {
      assert s[1..] == [kind] + rest;
      assert While(s[1..], Modifier) == [];
    }
    assert While(s, Modifier) == modifiers;
  }
}
