/** The host's view of channel 0: 0xFF and an id character select the terminal
    that the following bytes belong to. */
module TerminalStream {
  import opened Bytes

  const ESCAPE: byte := 0xFF
  const NUM_TERMINALS: nat := 16

  /** '0'..'9', 'A'..'F'. */
  function TerminalId(t: nat): byte
    requires t < NUM_TERMINALS
  {
    if t < 10 then 48 + t else 55 + t
  }

  function TerminalOfId(b: byte): Option<nat> {
    if 48 <= b < 58 then Some(b - 48) else if 65 <= b < 71 then Some(b - 55) else None
  }

  /** Terminals are named by hexadecimal digits. */
  lemma TerminalNames(t: nat)
    requires t < 16
    ensures TerminalId(t) as char == "0123456789ABCDEF"[t] && TerminalOfId(TerminalId(t)) == Some(t)
  {
  }

  /** A byte together with the terminal it is shown on. */
  type Shown = (nat, byte)

  /** The host's decoder: current terminal, whether an escape byte has just been seen, and what has been shown. */
  datatype Decoder = Decoder(terminal: nat, escaped: bool, shown: seq<Shown>)

  const INITIAL: Decoder := Decoder(0, false, [])

  function DecodeByte(d: Decoder, b: byte): Decoder {
    if d.escaped then d.(escaped := false, terminal := match TerminalOfId(b) case Some(t) => t case None => d.terminal)
    else if b == ESCAPE then d.(escaped := true)
    else d.(shown := d.shown + [(d.terminal, b)])
  }

  function DecodeFrom(d: Decoder, s: seq<byte>): Decoder {
    if s == [] then d else DecodeByte(DecodeFrom(d, s[..|s| - 1]), s[|s| - 1])
  }

  function On(t: nat, text: seq<byte>): (r: seq<Shown>)
    ensures |r| == |text|
  {
    seq(|text|, i requires 0 <= i < |text| => (t, text[i]))
  }

  /** What terminal t shows. */
  function Screen(t: nat, shown: seq<Shown>): seq<byte> {
    if shown == [] then []
    else Screen(t, shown[..|shown| - 1]) + (if shown[|shown| - 1].0 == t then [shown[|shown| - 1].1] else [])
  }

  lemma {:induction false} DecodeConcat(d: Decoder, a: seq<byte>, b: seq<byte>)
    ensures DecodeFrom(d, a + b) == DecodeFrom(DecodeFrom(d, a), b)
  {
    if b == [] {
      assert a + b == a;
    } else {
      assert (a + b)[..|a + b| - 1] == a + b[..|b| - 1];
      DecodeConcat(d, a, b[..|b| - 1]);
    }
  }

  lemma SwitchDecodes(d: Decoder, t: nat)
    requires !d.escaped && t < NUM_TERMINALS
    ensures DecodeFrom(d, [ESCAPE, TerminalId(t)]) == d.(terminal := t)
  {
    assert [ESCAPE, TerminalId(t)][..1] == [ESCAPE] && [ESCAPE][..0] == [];
    assert DecodeFrom(d, [ESCAPE]) == d.(escaped := true);
  }

  /** Text reaches the current terminal unchanged exactly when it has no escape byte in it. */
  lemma {:induction false} PlainTextExactly(d: Decoder, text: seq<byte>)
    requires !d.escaped
    ensures DecodeFrom(d, text) == d.(shown := d.shown + On(d.terminal, text)) <==> ESCAPE !in text
    ensures |DecodeFrom(d, text).shown| <= |d.shown| + |text|
    ensures ESCAPE in text ==> |DecodeFrom(d, text).shown| < |d.shown| + |text|
  {
    if text == [] {
      assert d.shown + On(d.terminal, text) == d.shown;
    } else {
      var front, last := text[..|text| - 1], text[|text| - 1];
      PlainTextExactly(d, front);
      assert text == front + [last];
      assert On(d.terminal, text) == On(d.terminal, front) + [(d.terminal, last)];
      assert ESCAPE in text <==> ESCAPE in front || last == ESCAPE;
      if ESCAPE !in front {
        assert DecodeFrom(d, text) == DecodeByte(DecodeFrom(d, front), last);
      }
    }
  }

  /** The escape byte itself is never shown. */
  lemma {:induction false} EscapeIsNotShown(d: Decoder, s: seq<byte>)
    requires forall x :: x in d.shown ==> x.1 != ESCAPE
    ensures forall x :: x in DecodeFrom(d, s).shown ==> x.1 != ESCAPE
  {
    if s != [] {
      EscapeIsNotShown(d, s[..|s| - 1]);
    }
  }

  /** A host that has so far received only a prefix shows a prefix. */
  lemma {:induction false} PrefixShowsPrefix(d: Decoder, a: seq<byte>, b: seq<byte>)
    ensures DecodeFrom(d, a).shown <= DecodeFrom(d, a + b).shown
  {
    if b == [] {
      assert a + b == a;
    } else {
      assert (a + b)[..|a + b| - 1] == a + b[..|b| - 1];
      PrefixShowsPrefix(d, a, b[..|b| - 1]);
    }
  }

  /** Text on one terminal adds to that screen and to no other. */
  lemma {:induction false} ScreenOf(shown: seq<Shown>, t: nat, text: seq<byte>, u: nat)
    ensures Screen(u, shown + On(t, text)) == Screen(u, shown) + (if u == t then text else [])
  {
    if text == [] {
      assert shown + On(t, text) == shown;
    } else {
      var front := text[..|text| - 1];
      assert (shown + On(t, text))[..|shown| + |front|] == shown + On(t, front);
      ScreenOf(shown, t, front, u);
      assert front + [text[|text| - 1]] == text;
    }
  }

  /** From before to after, text has been added to the screen of terminal t and nothing to any other screen. */
  ghost predicate Grown(before: seq<Shown>, after: seq<Shown>, t: nat, text: seq<byte>) {
    forall u: nat :: Screen(u, after) == Screen(u, before) + (if u == t then text else [])
  }

  lemma ScreensGrow(shown: seq<Shown>, t: nat, text: seq<byte>)
    ensures Grown(shown, shown + On(t, text), t, text)
  {
    forall u: nat
      ensures Screen(u, shown + On(t, text)) == Screen(u, shown) + (if u == t then text else [])
    {
      ScreenOf(shown, t, text, u);
    }
  }

  /** Whatever else is sent, no stream shows text with an escape byte in it. */
  lemma NeverShown(s: seq<byte>, shown: seq<Shown>, t: nat, text: seq<byte>)
    requires ESCAPE in text
    ensures DecodeFrom(INITIAL, s).shown != shown + On(t, text)
  {
    EscapeIsNotShown(INITIAL, s);
    var i :| 0 <= i < |text| && text[i] == ESCAPE;
    var all := shown + On(t, text);
    assert all[|shown| + i] == (t, ESCAPE) && all[|shown| + i] in all;
  }
}
