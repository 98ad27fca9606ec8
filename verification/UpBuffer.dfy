/** A target-to-host ring of SEGGER RTT. The target writes; a debug probe reads concurrently and
    may move the read offset between any two steps of the target. */
module UpBuffer {
  import opened Bytes
  import opened RingModel
  import opened OverwriteModel

  const MODE_NO_BLOCK_SKIP: u32 := 0
  const MODE_NO_BLOCK_TRIM: u32 := 1
  const MODE_BLOCK_IF_FIFO_FULL: u32 := 2

  /** The host takes something at or after its i-th turn. */
  ghost predicate TakesFrom(take: nat -> nat, i: nat) {
    exists j: nat :: i <= j && 1 <= take(j)
  }

  /** kept is what single-character writes have kept of the first i characters: in any case as many as there was
      room for at the beginning, no more if the host is idle, and all if it is eager. */
  predicate Keeps(data: seq<byte>, i: nat, room: nat, idle: bool, eager: bool, kept: seq<byte>)
    requires i <= |data|
  {
    && |kept| <= i && data[..Min(room, i)] <= kept
    && (i <= room || idle ==> kept == data[..Min(room, i)])
    && (eager ==> kept == data[..i])
  }

  lemma KeepsNothing(data: seq<byte>, room: nat, idle: bool, eager: bool)
    ensures Keeps(data, 0, room, idle, eager, [])
  {
  }

  lemma KeepsNext(data: seq<byte>, i: nat, room: nat, idle: bool, eager: bool, kept: seq<byte>)
    requires i < |data| && Keeps(data, i, room, idle, eager, kept)
    ensures !(idle && room <= i) ==> Keeps(data, i + 1, room, idle, eager, kept + [data[i]])
    ensures !eager && room <= i ==> Keeps(data, i + 1, room, idle, eager, kept)
    ensures idle ==> |kept| == Min(room, i)
  {
    assert data[..i] + [data[i]] == data[..i + 1];
  }

  lemma KeepsAll(data: seq<byte>, room: nat, idle: bool, eager: bool, kept: seq<byte>)
    requires Keeps(data, |data|, room, idle, eager, kept)
    ensures Min(room, |data|) <= |kept| <= |data| && data[..Min(room, |data|)] <= kept
    ensures |data| <= room || idle ==> |kept| == Min(room, |data|) && kept == data[..|kept|]
    ensures eager ==> kept == data
  {
    assert data[..|data|] == data;
  }

  class UpBuffer {
    const buf: array<byte>
    var wrOff: nat
    var rdOff: nat
    var flags: u32

    /** The host's schedule: at its i-th turn it takes up to take(i) unread bytes. */
    const take: nat -> nat
    var turns: nat

    /** Everything ever published, and the part of it the host has read. */
    ghost var accepted: seq<byte>
    ghost var consumed: seq<byte>

    ghost predicate Valid()
      reads this, buf
    {
      && 2 <= buf.Length < TWO32
      && wrOff < buf.Length && rdOff < buf.Length
      && accepted == consumed + Contents(buf[..], wrOff, rdOff)
    }

    ghost function Free(): nat
      reads this, buf
      requires Valid()
    {
      Avail(buf.Length, wrOff, rdOff)
    }

    ghost predicate Fair() {
      forall i: nat :: TakesFrom(take, i)
    }

    ghost predicate HostIdle() {
      forall i: nat :: take(i) == 0
    }

    /** The host empties the ring at each of its turns. */
    ghost predicate Eager() {
      forall i: nat :: buf.Length <= take(i)
    }

    /** Nothing but the host has acted on the ring. */
    twostate predicate HostOnly()
      reads this
    {
      && wrOff == old(wrOff) && flags == old(flags)
      && accepted == old(accepted) && old(consumed) <= consumed
      && old(turns) <= turns
      && (HostIdle() ==> rdOff == old(rdOff) && consumed == old(consumed))
    }

    /** The target has published data, and nothing else but the host has acted. */
    twostate predicate Appended(data: seq<byte>)
      reads this, buf
      requires old(Valid()) && |data| < buf.Length
    {
      && Valid()
      && accepted == old(accepted) + data && old(consumed) <= consumed
      && wrOff == Wrap(old(wrOff) + |data|, buf.Length) && flags == old(flags)
      && buf[..] == Store(old(buf[..]), old(wrOff), data)
      && (HostIdle() ==> rdOff == old(rdOff) && consumed == old(consumed))
    }

    /** What a target write of data does to the history, however the host reads meanwhile. */
    twostate predicate Wrote(data: seq<byte>)
      reads this, buf
    {
      && Valid() && accepted == old(accepted) + data && old(consumed) <= consumed && flags == old(flags)
    }

    constructor (size: nat, flags: u32, take: nat -> nat)
      requires 2 <= size < TWO32
      ensures Valid() && fresh(buf) && buf.Length == size && this.take == take && this.flags == flags
      ensures accepted == consumed == []
    {
      buf := new byte[size];
      wrOff, rdOff, turns := 0, 0, 0;
      this.flags, this.take := flags, take;
      accepted, consumed := [], [];
    }

    /** One turn of the host: it reads the oldest bytes it wants, never past the write offset. */
    method HostTurn()
      requires Valid()
      modifies this`rdOff, this`turns, this`consumed
      ensures Valid() && HostOnly() && turns == old(turns) + 1
      ensures Free() == old(Free()) + Min(take(old(turns)), |old(Contents(buf[..], wrOff, rdOff))|)
      ensures Eager() ==> consumed == accepted
    {
      var k := Min(take(turns), Used(buf.Length, wrOff, rdOff));
      ContentsAfterRead(buf[..], wrOff, rdOff, k);
      consumed := consumed + Contents(buf[..], wrOff, rdOff)[..k];
      rdOff := Wrap(rdOff + k, buf.Length);
      turns := turns + 1;
    }

    /** memcpy into the ring, one byte at a time, the host acting before each byte.
        Only cells of the free space may be written: no byte the host has yet to read is touched. */
    method CopyIn(off: nat, src: seq<byte>)
      requires Valid() && off + |src| <= buf.Length
      requires src != [] ==> Offset(off, wrOff, buf.Length) + |src| <= Free()
      modifies this`rdOff, this`turns, this`consumed, buf
      ensures Valid() && HostOnly() && old(Free()) <= Free()
      ensures src == [] ==> turns == old(turns)
      ensures buf[..] == Patch(old(buf[..]), off, src)
    {
      for i := 0 to |src|
        invariant Valid() && HostOnly() && old(Free()) <= Free()
        invariant i == 0 ==> turns == old(turns)
        invariant buf[..] == Patch(old(buf[..]), off, src[..i])
      {
        HostTurn();
        ghost var before := buf[..];
        WriteFreeCell(before, wrOff, rdOff, off + i, src[i]);
        PatchNext(old(buf[..]), off, src, i);
        buf[off + i] := src[i];
        assert buf[..] == before[off + i := src[i]];
      }
      assert src[..|src|] == src;
    }

    /** Make freshly copied bytes visible to the host by moving the write offset. */
    method Publish(wr: nat, ghost data: seq<byte>, ghost before: seq<byte>)
      requires Valid() && |data| <= Free() && wr == Wrap(wrOff + |data|, buf.Length)
      requires |before| == buf.Length && buf[..] == Store(before, wrOff, data)
      modifies this`wrOff, this`accepted
      ensures Valid() && wrOff == wr && accepted == old(accepted) + data
    {
      PublishAppends(before, buf[..], wrOff, rdOff, data);
      wrOff := wr;
      accepted := accepted + data;
    }

    method GetAvailWriteSpace() returns (r: nat)
      requires Valid()
      ensures r == Free()
      ensures r == buf.Length - 1 - |Contents(buf[..], wrOff, rdOff)|
    {
      if rdOff <= wrOff {
        r := buf.Length - 1 - wrOff + rdOff;
      } else {
        r := rdOff - wrOff - 1;
      }
    }

    /** Copy data in one piece at the write offset, then publish it. */
    method PutRun(data: seq<byte>)
      requires Valid() && |data| <= Free() && wrOff + |data| < buf.Length
      modifies this, buf
      ensures Appended(data)
    {
      StoreByCopies(buf[..], wrOff, data);
      CopyIn(wrOff, data);
      HostTurn();
      Publish(wrOff + |data|, data, old(buf[..]));
    }

    /** Copy data that ends at or before the end of the buffer, wrap the write offset, then publish. */
    method PutPiece(data: seq<byte>)
      requires Valid() && |data| <= Free() && wrOff + |data| <= buf.Length
      modifies this, buf
      ensures Wrote(data) && old(Free()) - |data| <= Free()
      ensures data == [] ==> turns == old(turns)
    {
      StoreByCopies(buf[..], wrOff, data);
      var wr := wrOff;
      CopyIn(wr, data);
      wr := wr + |data|;
      if wr == buf.Length {
        wr := 0;
      }
      if data != [] {  // nothing becomes visible otherwise
        HostTurn();
      }
      Publish(wr, data, old(buf[..]));
    }

    /** Copy data in two pieces, the second one from the start of the buffer, then publish both. */
    method PutSplit(data: seq<byte>, rem: nat)
      requires Valid() && rem == buf.Length - wrOff <= |data| <= Free()
      modifies this, buf
      ensures Appended(data)
    {
      StoreByCopies(buf[..], wrOff, data);
      CopyIn(wrOff, data[..rem]);
      CopyIn(0, data[rem..]);
      HostTurn();
      Publish(|data| - rem, data, old(buf[..]));
    }

    method WriteNoCheck(data: seq<byte>)
      requires Valid() && |data| <= Free()
      modifies this, buf
      ensures Appended(data)
    {
      var rem := buf.Length - wrOff;
      if rem > |data| {
        PutRun(data);
      } else {
        PutSplit(data, rem);
      }
    }

    /** The hand-optimised skip write. It reads both offsets once and copies in one or two chunks.
        The result is 1 or 0, not the byte count its comment announces. */
    method WriteSkipNoLock(data: seq<byte>) returns (status: nat)
      requires Valid()
      modifies this, buf
      ensures status == if |data| <= old(Free()) then 1 else 0
      ensures if status == 1 then Appended(data) else Valid() && unchanged(this) && unchanged(buf)
      ensures old(Free()) <= Free() + (if status == 1 then |data| else 0)
    {
      var rd, wr := rdOff, wrOff;
      if rd <= wr {
        var avail := buf.Length - 1 - wr;
        if avail >= |data| {
          PutRun(data);
          return 1;
        }
        avail := avail + rd;
        if avail >= |data| {
          var rem := buf.Length - wr;
          if rem > |data| {
            assert false;  // the first test has already taken everything that fits before the end
          } else {
            PutSplit(data, rem);
          }
          return 1;
        }
      } else {
        var avail := rd - wr - 1;
        if avail >= |data| {
          PutRun(data);
          return 1;
        }
      }
      return 0;
    }

    /** Write according to the mode in flags; the result is the number of bytes stored. */
    method WriteNoLock(data: seq<byte>) returns (status: nat)
      requires Valid()
      requires flags == MODE_BLOCK_IF_FIFO_FULL ==> |data| <= Free() || Fair()
      modifies this, buf
      ensures old(flags) == MODE_NO_BLOCK_SKIP ==> status == if |data| <= old(Free()) then |data| else 0
      ensures old(flags) == MODE_NO_BLOCK_TRIM ==> status == Min(old(Free()), |data|)
      ensures old(flags) == MODE_BLOCK_IF_FIFO_FULL ==> status == |data|
      ensures old(flags) > MODE_BLOCK_IF_FIFO_FULL ==> status == 0
      ensures status <= |data|
      ensures if old(flags) == MODE_BLOCK_IF_FIFO_FULL then Wrote(data) else Appended(data[..status])
    {
      if flags == MODE_NO_BLOCK_SKIP {
        var avail := GetAvailWriteSpace();
        if avail < |data| {
          status := 0;
        } else {
          status := |data|;
          WriteNoCheck(data);
        }
      } else if flags == MODE_NO_BLOCK_TRIM {
        var avail := GetAvailWriteSpace();
        status := if avail < |data| then avail else |data|;
        WriteNoCheck(data[..status]);
      } else if flags == MODE_BLOCK_IF_FIFO_FULL {
        status := WriteBlocking(data);
      } else {
        status := 0;
      }
    }

    /** The host's next turn, at or after turn i, at which it takes something. */
    ghost function NextTake(i: nat): (j: nat)
      requires Fair()
      ensures i <= j && 1 <= take(j)
    {
      assert TakesFrom(take, i);
      var j: nat :| i <= j && 1 <= take(j); j
    }

    /** One round of the blocking write: look at the read offset, copy as much as fits before it and before
        the end of the buffer, publish. A round that copies nothing has met a full ring and a host that took nothing. */
    method BlockingRound(data: seq<byte>) returns (n: nat)
      requires Valid()
      modifies this, buf
      ensures n <= |data| && Wrote(data[..n]) && old(Free()) <= Free() + n
      ensures n == 0 && data != [] ==> old(Free()) == 0 && turns == old(turns) + 1 && take(old(turns)) == 0
    {
      HostTurn();  // the host may have moved the read offset since it was last looked at
      var rd, wr := rdOff, wrOff;
      n := if rd > wr then rd - wr - 1 else buf.Length - (wr - rd + 1);
      n := Min(n, buf.Length - wr);
      n := Min(n, |data|);
      PutPiece(data[..n]);
    }

    /** Stores all of data, waiting for the host whenever the ring is full. It needs the host's help only
        when data does not fit; each round either moves a byte or brings the host's next read nearer. */
    method WriteBlocking(data: seq<byte>) returns (written: nat)
      requires Valid()
      requires |data| <= Free() || Fair()
      modifies this, buf
      ensures written == |data| && Wrote(data)
    {
      written := 0;
      ghost var target := if Fair() then NextTake(turns) else turns;
      while true
        invariant Valid() && written <= |data| && Wrote(data[..written])
        invariant if Fair() then turns <= target && 1 <= take(target) else |data| - written <= Free()
        decreases |data| - written, target - turns
      {
        var n := BlockingRound(data[written..]);
        assert data[..written] + data[written..][..n] == data[..written + n];
        written := written + n;
        if written == |data| {
          assert data[..written] == data;
          break;
        }
        if Fair() && n != 0 {
          target := NextTake(turns);
        }
      }
    }

    /** Store one character or drop it. */
    method PutCharSkipNoLock(c: byte) returns (status: nat)
      requires Valid()
      modifies this, buf
      ensures status == if 1 <= old(Free()) then 1 else 0
      ensures if status == 1 then Appended([c]) else Valid() && unchanged(this) && unchanged(buf)
    {
      var wr := wrOff + 1;
      if wr == buf.Length {
        wr := 0;
      }
      if wr != rdOff {
        StoreByCopies(buf[..], wrOff, [c]);
        CopyIn(wrOff, [c]);
        HostTurn();
        Publish(wr, [c], old(buf[..]));
        status := 1;
      } else {
        status := 0;
      }
    }

    /** Store one character, waiting for room in blocking mode only. */
    method PutChar(c: byte) returns (status: nat)
      requires Valid()
      requires flags == MODE_BLOCK_IF_FIFO_FULL ==> 1 <= Free() || Fair()
      modifies this, buf
      ensures status == if 1 <= old(Free()) || old(flags) == MODE_BLOCK_IF_FIFO_FULL then 1 else 0
      ensures Wrote(if status == 1 then [c] else [])
    {
      var wr := wrOff + 1;
      if wr == buf.Length {
        wr := 0;
      }
      if flags == MODE_BLOCK_IF_FIFO_FULL {
        ghost var target := if Fair() then NextTake(turns) else turns;
        while wr == rdOff
          invariant Valid() && HostOnly() && old(Free()) <= Free()
          invariant wr == Wrap(wrOff + 1, buf.Length)
          invariant wr == rdOff ==> old(Free()) == 0 && turns <= target && 1 <= take(target)
          decreases target - turns
        {
          HostTurn();
        }
      }
      status := PutCharSkipNoLock(c);
    }

    /** The ring once data has been put into the cells it had, from the write offset it had. */
    ghost predicate Holds(cells: seq<byte>, wr: nat, data: seq<byte>)
      reads this, buf
    {
      && wr < |cells| == buf.Length && |data| < |cells|
      && buf[..] == Store(cells, wr, data) && wrOff == Wrap(wr + |data|, buf.Length)
    }

    /** The host has its turn, then one more character is stored or dropped; on top of data, if that is what the
        ring holds. */
    method TryNext(c: byte, ghost cells: seq<byte>, ghost wr: nat, ghost data: seq<byte>) returns (status: nat)
      requires Valid()
      modifies this, buf
      ensures Valid() && status <= 1 && accepted == old(accepted) + (if status == 1 then [c] else [])
      ensures old(consumed) <= consumed && flags == old(flags) && old(Free()) <= Free() + status
      ensures 1 <= old(Free()) || Eager() ==> status == 1
      ensures HostIdle() ==>
        status == Min(old(Free()), 1) && Free() + status == old(Free()) && unchanged(this`rdOff, this`consumed)
      ensures old(Holds(cells, wr, data)) && status == 0 ==> Holds(cells, wr, data)
      ensures old(Holds(cells, wr, data)) && status == 1 && |data| + 1 < |cells| ==> Holds(cells, wr, data + [c])
    {
      if Holds(cells, wr, data) && |data| + 1 < |cells| {
        StoreTwice(cells, wr, data, [c]);
      }
      hide Store, Contents;
      HostTurn();
      status := PutCharSkipNoLock(c);
    }

    /** Characters put one at a time until they are all tried, the host acting before each of them. What fits at
        the beginning is stored in any case; later characters are stored too if the host has made room. */
    method PutChars(data: seq<byte>) returns (stored: nat)
      requires Valid()
      modifies this, buf
      ensures Valid() && Min(old(Free()), |data|) <= stored <= |data|
      ensures |accepted| == |old(accepted)| + stored
      ensures old(accepted) + data[..Min(old(Free()), |data|)] <= accepted
      ensures |data| <= old(Free()) || HostIdle() ==>
        stored == Min(old(Free()), |data|) && Appended(data[..stored])
      ensures Eager() ==> stored == |data| && accepted == old(accepted) + data
    {
      ghost var cells, wr, room := buf[..], wrOff, Free();
      StoreNothing(cells, wr);
      ghost var idle, eager := HostIdle(), Eager();
      KeepsNothing(data, room, idle, eager);
      hide Store, Contents, UpBuffer.Valid, Avail, UpBuffer.Holds, UpBuffer.HostIdle, UpBuffer.Eager, Keeps;
      stored := 0;
      ghost var kept: seq<byte> := [];
      for i := 0 to |data|
        invariant Valid() && flags == old(flags) && old(consumed) <= consumed
        invariant |kept| == stored && accepted == old(accepted) + kept && Keeps(data, i, room, idle, eager, kept)
        invariant i <= room ==> room <= i + Free()
        invariant i <= room || idle ==> Holds(cells, wr, kept)
        invariant idle ==> stored + Free() == room && unchanged(this`rdOff, this`consumed)
      {
        KeepsNext(data, i, room, idle, eager, kept);
        var status := TryNext(data[i], cells, wr, kept);
        kept := if status == 1 then kept + [data[i]] else kept;
        stored := stored + status;
      }
      KeepsAll(data, room, idle, eager, kept);
      FreeIsLess();
    }

    lemma FreeIsLess()
      requires Valid()
      ensures Free() < buf.Length
    {
    }

    /** Move the read offset on until n bytes fit. */
    method MakeRoom(n: nat)
      requires 2 <= buf.Length < TWO32 && wrOff < buf.Length && rdOff < buf.Length && n < TWO32
      modifies this`rdOff
      ensures rdOff == PushedRead(buf.Length, wrOff, old(rdOff), n)
    {
      var avail := if wrOff == rdOff then buf.Length - 1
                   else if wrOff < rdOff then rdOff - wrOff - 1
                   else Add32(Sub32(Sub32(rdOff, wrOff), 1), buf.Length);
      if n > avail {
        rdOff := U32(rdOff + (n - avail));
        while rdOff >= buf.Length
          invariant Reduce(rdOff, buf.Length) == Reduce(U32(old(rdOff) + (n - avail)), buf.Length)
        {
          rdOff := rdOff - buf.Length;
        }
      }
    }

    /** The copying rounds of the overwriting write. */
    method OverwriteCells(data: seq<byte>)
      requires 2 <= buf.Length && wrOff < buf.Length
      modifies this`wrOff, buf
      ensures Cells(buf[..], wrOff) == Overwritten(old(buf[..]), old(wrOff), data)
    {
      var rest := data;
      var avail := buf.Length - wrOff;
      while true
        invariant wrOff < buf.Length && 0 < avail && wrOff + avail <= buf.Length
        invariant Rounds(Cells(buf[..], wrOff), avail, rest) == Overwritten(old(buf[..]), old(wrOff), data)
        decreases |rest|
      {
        ghost var before := buf[..];
        if avail > |rest| {
          forall i | 0 <= i < |rest| {
            buf[wrOff + i] := rest[i];
          }
          assert buf[..] == Patch(before, wrOff, rest);
          wrOff := wrOff + |rest|;
          break;
        }
        forall i | 0 <= i < avail {
          buf[wrOff + i] := rest[i];
        }
        assert buf[..] == Patch(before, wrOff, rest[..avail]);
        wrOff := 0;
        rest := rest[avail..];
        avail := buf.Length - 1;
        if rest == [] {
          break;
        }
      }
    }

    /** Write without regard to unread bytes, for a ring nobody reads: the read offset is pushed on first
        when there is too little room. The history starts afresh with what the ring then holds. */
    method WriteWithOverwriteNoLock(data: seq<byte>)
      requires Valid() && |data| < TWO32
      modifies this`rdOff, this`wrOff, this`consumed, this`accepted, buf
      ensures Valid() && Cells(buf[..], wrOff) == Overwritten(old(buf[..]), old(wrOff), data)
      ensures rdOff == PushedRead(buf.Length, old(wrOff), old(rdOff), |data|)
      ensures consumed == [] && accepted == AfterOverwrite(old(buf[..]), old(wrOff), old(rdOff), data)
    {
      MakeRoom(|data|);
      OverwriteCells(data);
      consumed := [];
      accepted := Contents(buf[..], wrOff, rdOff);
    }
  }

  /** On equal rings the hand-optimised skip write and the plain one in skip mode agree on acceptance and leave
      the same cells and write offsets, however the hosts read meanwhile. */
  method SkipWritesAgree(fast: UpBuffer, plain: UpBuffer, data: seq<byte>) returns (a: nat, b: nat)
    requires fast.Valid() && plain.Valid() && fast != plain && fast.buf != plain.buf
    requires plain.flags == MODE_NO_BLOCK_SKIP
    requires fast.buf[..] == plain.buf[..] && fast.wrOff == plain.wrOff && fast.rdOff == plain.rdOff
    modifies fast, fast.buf, plain, plain.buf
    ensures a == 1 <==> b == |data|
    ensures a == 0 || a == 1
    ensures fast.buf[..] == plain.buf[..] && fast.wrOff == plain.wrOff
    ensures fast.HostIdle() && plain.HostIdle() ==> fast.rdOff == plain.rdOff
  {
    a := fast.WriteSkipNoLock(data);
    b := plain.WriteNoLock(data);
  }

  /** On equal rings one write in trim mode keeps a prefix of what as many single-character skip writes keep,
      however the hosts read meanwhile. They keep the same, and leave the same cells and write offset, whenever
      the data fits or nobody reads. */
  method TrimIsCharByChar(whole: UpBuffer, single: UpBuffer, data: seq<byte>) returns (a: nat, b: nat)
    requires whole.Valid() && single.Valid() && whole != single && whole.buf != single.buf
    requires whole.flags == MODE_NO_BLOCK_TRIM
    requires whole.buf[..] == single.buf[..] && whole.wrOff == single.wrOff && whole.rdOff == single.rdOff
    modifies whole, whole.buf, single, single.buf
    ensures a == Min(old(single.Free()), |data|) <= b <= |data| && |single.accepted| == |old(single.accepted)| + b
    ensures whole.accepted == old(whole.accepted) + data[..a]
    ensures old(single.accepted) + data[..a] <= single.accepted
    ensures |data| <= old(single.Free()) || single.HostIdle() ==>
      a == b && whole.buf[..] == single.buf[..] && whole.wrOff == single.wrOff
    ensures whole.HostIdle() && single.HostIdle() ==> whole.rdOff == single.rdOff
    ensures single.Eager() ==> b == |data|
  {
    a := whole.WriteNoLock(data);
    b := single.PutChars(data);
  }

  /** They differ whenever the data does not fit and the host empties the ring at each of its turns. */
  method TrimMayKeepLess(whole: UpBuffer, single: UpBuffer, data: seq<byte>) returns (a: nat, b: nat)
    requires whole.Valid() && single.Valid() && whole != single && whole.buf != single.buf
    requires whole.flags == MODE_NO_BLOCK_TRIM && single.Eager()
    requires whole.buf[..] == single.buf[..] && whole.wrOff == single.wrOff && whole.rdOff == single.rdOff
    modifies whole, whole.buf, single, single.buf
    ensures a < b == |data| <==> old(whole.Free()) < |data|
  {
    a, b := TrimIsCharByChar(whole, single, data);
  }
}
