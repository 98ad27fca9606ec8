/** Virtual terminals multiplexed on RTT channel 0. */
module Terminal {
  import opened Bytes
  import opened RingModel
  import opened UpBuffer
  import opened TerminalStream

  class Terminal {
    const ring: UpBuffer
    var active: nat

    /** What has been accepted for the terminals, in order. */
    ghost var accepted: seq<Shown>

    /** The host decodes everything published to exactly what was accepted, and rests on the active terminal. */
    ghost predicate Valid()
      reads this, ring, ring.buf
    {
      && ring.Valid() && active < NUM_TERMINALS
      && DecodeFrom(INITIAL, ring.accepted) == Decoder(active, false, accepted)
    }

    constructor (size: nat, flags: u32, take: nat -> nat)
      requires 2 <= size < TWO32
      ensures Valid() && accepted == [] && active == 0 && fresh(ring) && fresh(ring.buf)
      ensures ring.flags == flags && ring.take == take
    {
      ring := new UpBuffer(size, flags, take);
      active, accepted := 0, [];
    }

    function Mode(): u32
      reads ring
    {
      ring.flags % 4
    }

    /** The host shows text on terminal t behind what was shown before, and rests on the active terminal. */
    ghost predicate Shows(before: seq<Shown>, t: nat, text: seq<byte>)
      reads this, ring, ring.buf
    {
      Valid() && accepted == before + On(t, text) && Grown(before, accepted, t, text)
    }

    /** The host has decoded exactly this text for terminal t behind what was shown before. */
    ghost predicate Decoded(before: seq<Shown>, t: nat, text: seq<byte>)
      reads ring
    {
      DecodeFrom(INITIAL, ring.accepted).shown == before + On(t, text)
    }

    /** Text on channel 0 goes, as far as it is stored, to the active terminal and to no other, if and only if
        what is stored has no escape byte in it. */
    method Write(text: seq<byte>) returns (status: nat)
      requires Valid()
      requires ring.flags == MODE_BLOCK_IF_FIFO_FULL ==> |text| <= ring.Free() || ring.Fair()
      modifies this, ring, ring.buf
      ensures ring.Valid() && active == old(active) && ring.flags == old(ring.flags)
      ensures old(ring.flags) == MODE_NO_BLOCK_SKIP ==> status == if |text| <= old(ring.Free()) then |text| else 0
      ensures old(ring.flags) == MODE_NO_BLOCK_TRIM ==> status == Min(old(ring.Free()), |text|)
      ensures old(ring.flags) == MODE_BLOCK_IF_FIFO_FULL ==> status == |text|
      ensures status <= |text|
      ensures Decoded(old(accepted), active, text[..status]) <==> ESCAPE !in text[..status]
      ensures ESCAPE !in text[..status] ==> Shows(old(accepted), active, text[..status])
    {
      status := ring.WriteNoLock(text);
      assert text[..|text|] == text;
      ghost var took, d := text[..status], DecodeFrom(INITIAL, old(ring.accepted));
      if ESCAPE in took {
        NeverShown(ring.accepted, old(accepted), active, took);
      } else {
        DecodeConcat(INITIAL, old(ring.accepted), took);
        PlainTextExactly(d, took);
        accepted := accepted + On(active, took);
        ScreensGrow(old(accepted), active, took);
      }
    }

    /** Select the terminal for channel 0. Fails for an unknown terminal, and without waiting when
        the ring has no room for the switch and the mode is not the blocking one. */
    method SetTerminal(id: byte) returns (r: int)
      requires Valid()
      requires Mode() == MODE_BLOCK_IF_FIFO_FULL ==> 2 <= ring.Free() || ring.Fair()
      modifies this, ring, ring.buf
      ensures Valid() && accepted == old(accepted) && ring.flags == old(ring.flags)
      ensures r == 0 <==> id < NUM_TERMINALS && (old(Mode()) == MODE_BLOCK_IF_FIFO_FULL || 2 <= old(ring.Free()))
      ensures active == if r == 0 then id else old(active)
      ensures r == 0 || r == -1
    {
      r := 0;
      if id < NUM_TERMINALS {
        var ac := [ESCAPE, TerminalId(id)];
        ghost var d := DecodeFrom(INITIAL, ring.accepted);
        DecodeConcat(INITIAL, ring.accepted, ac);
        SwitchDecodes(d, id);
        if Mode() == MODE_BLOCK_IF_FIFO_FULL {
          active := id;
          var _ := ring.WriteBlocking(ac);
        } else {
          var avail := ring.GetAvailWriteSpace();
          if avail >= 2 {
            active := id;
            ring.WriteNoCheck(ac);
          } else {
            r := -1;
          }
        }
      } else {
        r := -1;
      }
    }

    /** Decoding a switch, text and the switch back. */
    lemma SandwichDecodes(id: byte, text: seq<byte>)
      requires Valid() && id < NUM_TERMINALS && ESCAPE !in text
      ensures DecodeFrom(INITIAL, ring.accepted + [ESCAPE, TerminalId(id)] + text + [ESCAPE, TerminalId(active)])
        == Decoder(active, false, accepted + On(id, text))
    {
      var before, there, back := ring.accepted, [ESCAPE, TerminalId(id)], [ESCAPE, TerminalId(active)];
      var d := DecodeFrom(INITIAL, before);
      var d' := d.(terminal := id);
      DecodeConcat(INITIAL, before, there);
      DecodeConcat(INITIAL, before + there, text);
      DecodeConcat(INITIAL, before + there + text, back);
      SwitchDecodes(d, id);
      PlainTextExactly(d', text);
      SwitchDecodes(d'.(shown := d.shown + On(id, text)), active);
    }

    /** Switch to terminal id, write text, switch back to the active terminal. */
    method Sandwich(id: byte, text: seq<byte>)
      requires Valid() && id < NUM_TERMINALS
      requires |text| + 4 <= ring.Free() || ring.Fair()
      modifies this`accepted, ring, ring.buf
      ensures ring.Valid() && ring.flags == old(ring.flags)
      ensures Decoded(old(accepted), id, text) <==> ESCAPE !in text
      ensures ESCAPE !in text ==> Shows(old(accepted), id, text)
    {
      hide DecodeFrom, Contents;
      if ESCAPE !in text {
        SandwichDecodes(id, text);
        accepted := accepted + On(id, text);
        ScreensGrow(old(accepted), id, text);
      }
      var _ := ring.WriteBlocking([ESCAPE, TerminalId(id)]);
      var _ := ring.WriteBlocking(text);
      var _ := ring.WriteBlocking([ESCAPE, TerminalId(active)]);
      if ESCAPE in text {
        NeverShown(ring.accepted, old(accepted), id, text);
      }
    }

    /** Write text to a terminal without changing the active one. Skip mode stores all or nothing, trim mode
        always includes both switches, and neither ever waits for the host. */
    method TerminalOut(id: byte, text: seq<byte>) returns (status: int)
      requires Valid() && |text| + 4 < TWO32
      requires Mode() == MODE_BLOCK_IF_FIFO_FULL ==> |text| + 4 <= ring.Free() || ring.Fair()
      modifies this`accepted, ring, ring.buf
      ensures ring.Valid() && ring.flags == old(ring.flags)
      ensures id >= NUM_TERMINALS || old(Mode()) > MODE_BLOCK_IF_FIFO_FULL ==> status == -1
      ensures id < NUM_TERMINALS && old(Mode()) == MODE_NO_BLOCK_SKIP ==>
        status == if |text| + 4 <= old(ring.Free()) then |text| else 0
      ensures id < NUM_TERMINALS && old(Mode()) == MODE_NO_BLOCK_TRIM ==>
        status == if 4 <= old(ring.Free()) then Min(|text|, old(ring.Free()) - 4) else -1
      ensures id < NUM_TERMINALS && old(Mode()) == MODE_BLOCK_IF_FIFO_FULL ==> status == |text|
      ensures status <= |text|
      ensures var took := text[..Max(status, 0)];
        && (Decoded(old(accepted), id, took) <==> ESCAPE !in took)
        && (ESCAPE !in took ==> Shows(old(accepted), id, took))
    {
      hide DecodeFrom, Contents;
      assert text[..|text|] == text;
      ScreensGrow(accepted, id, []);
      assert accepted + On(id, []) == accepted;
      if id < NUM_TERMINALS {
        var avail := ring.GetAvailWriteSpace();
        if Mode() == MODE_NO_BLOCK_SKIP {
          if avail < |text| + 4 {
            status := 0;
          } else {
            Sandwich(id, text);
            status := |text|;
          }
        } else if Mode() == MODE_NO_BLOCK_TRIM {
          if avail < 4 {
            status := -1;
          } else {
            status := if |text| < avail - 4 then |text| else avail - 4;
            Sandwich(id, text[..status]);
          }
        } else if Mode() == MODE_BLOCK_IF_FIFO_FULL {
          Sandwich(id, text);
          status := |text|;
        } else {
          status := -1;
        }
      } else {
        status := -1;
      }
    }

    /** The screens a host has built up from what it has received so far. */
    lemma HostScreens(t: nat)
      requires Valid()
      ensures var seen := DecodeFrom(INITIAL, ring.consumed).shown;
        seen <= accepted && Screen(t, seen) <= Screen(t, accepted)
    {
      PrefixShowsPrefix(INITIAL, ring.consumed, Contents(ring.buf[..], ring.wrOff, ring.rdOff));
      var seen := DecodeFrom(INITIAL, ring.consumed).shown;
      ScreenPrefix(t, seen, accepted[|seen|..]);
      assert seen + accepted[|seen|..] == accepted;
    }
  }

  lemma {:induction false} ScreenPrefix(t: nat, a: seq<Shown>, b: seq<Shown>)
    ensures Screen(t, a) <= Screen(t, a + b)
  {
    if b == [] {
      assert a + b == a;
    } else {
      assert (a + b)[..|a + b| - 1] == a + b[..|b| - 1];
      ScreenPrefix(t, a, b[..|b| - 1]);
    }
  }
}
