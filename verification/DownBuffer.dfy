/** A host-to-target ring of SEGGER RTT. A debug probe publishes commands concurrently;
    the target reads. */
module DownBuffer {
  import opened Bytes
  import opened RingModel
  import opened Commands

  /** Length of the first piece of a read: nothing unless the unread bytes go past the end. */
  function FirstPiece(size: nat, wr: nat, rd: nat, limit: nat): nat
    requires wr < size && rd < size
  {
    if rd > wr then Min(size - rd, limit) else 0
  }

  /** Length of the second piece, starting at offset rd, in the 32-bit arithmetic of the target. */
  function SecondPiece(wr: u32, rd: u32, left: nat): nat {
    Min(Sub32(wr, rd), left)
  }

  /** Where the second piece starts. */
  function SecondStart(size: nat, wr: nat, rd: nat, limit: nat): (r: nat)
    requires wr < size && rd < size
    ensures r < size
  {
    if rd > wr then Wrap(rd + FirstPiece(size, wr, rd, limit), size) else rd
  }

  /** Together the pieces are what was asked for, as far as there is any. The subtraction underflows only
      when nothing is left to be read. */
  lemma PiecesAddUp(size: nat, wr: nat, rd: nat, limit: nat)
    requires wr < size < TWO32 && rd < size
    ensures var a, start := FirstPiece(size, wr, rd, limit), SecondStart(size, wr, rd, limit);
      var b := SecondPiece(wr, start, limit - a);
      && a + b == Min(limit, Used(size, wr, rd))
      && (b != 0 ==> start == Wrap(rd + a, size) && start + b <= size)
      && (a + b != 0 ==> start + b == Wrap(rd + a + b, size))
  {
  }

  lemma Joined(s: seq<byte>, a: seq<byte>, b: seq<byte>)
    requires |a| + |b| <= |s| && a == s[..|a|] && b == s[|a|..|a| + |b|]
    ensures a + b == s[..|a| + |b|]
  {
  }

  class DownBuffer {
    const buf: array<byte>
    var wrOff: nat
    var rdOff: nat

    /** The host's schedule: at its i-th turn it publishes publish(i) if all of it fits, else nothing. */
    const publish: nat -> seq<byte>
    var turns: nat

    /** Everything ever published, and the part of it the target has read. */
    ghost var sent: seq<byte>
    ghost var taken: seq<byte>

    ghost predicate Valid()
      reads this, buf
    {
      && 2 <= buf.Length < TWO32
      && wrOff < buf.Length && rdOff < buf.Length
      && sent == taken + Contents(buf[..], wrOff, rdOff)
      && (WholeSchedule() ==> Complete(sent))
    }

    ghost function Unread(): (r: seq<byte>)
      reads this, buf
      requires Valid()
      ensures sent == taken + r
    {
      Contents(buf[..], wrOff, rdOff)
    }

    /** The host publishes the bytes of a command together, never a part of one. */
    ghost predicate WholeSchedule() {
      forall i: nat :: Complete(publish(i))
    }

    /** Only the host has acted: it has appended to the unread bytes. */
    twostate predicate HostOnly()
      reads this, buf
      requires old(Valid())
    {
      && Valid() && rdOff == old(rdOff) && taken == old(taken)
      && old(Unread()) <= Unread()
    }

    constructor (size: nat, publish: nat -> seq<byte>)
      requires 2 <= size < TWO32
      ensures Valid() && fresh(buf) && buf.Length == size && this.publish == publish
      ensures sent == taken == [] && turns == 0
    {
      buf := new byte[size];
      wrOff, rdOff, turns := 0, 0, 0;
      this.publish := publish;
      sent, taken := [], [];
    }

    /** SEGGER_RTT_HASDATA: the offsets differ. */
    method HasData() returns (r: bool)
      requires Valid()
      ensures r <==> Unread() != []
    {
      r := Sub32(wrOff, rdOff) != 0;
    }

    method HostStore(chunk: seq<byte>)
      requires wrOff < buf.Length && rdOff < buf.Length && |chunk| <= Avail(buf.Length, wrOff, rdOff)
      modifies this`wrOff, buf
      ensures wrOff < buf.Length
      ensures Contents(buf[..], wrOff, rdOff) == old(Contents(buf[..], wrOff, rdOff)) + chunk
    {
      StoreAppends(buf[..], wrOff, rdOff, chunk);
      ghost var before := buf[..];
      forall j | 0 <= j < buf.Length && Offset(j, wrOff, buf.Length) < |chunk| {
        buf[j] := chunk[Offset(j, wrOff, buf.Length)];
      }
      assert buf[..] == Store(before, wrOff, chunk);
      wrOff := Wrap(wrOff + |chunk|, buf.Length);
    }

    method HostTurn()
      requires Valid()
      modifies this`wrOff, this`turns, this`sent, buf
      ensures HostOnly() && turns == old(turns) + 1
      ensures var chunk := publish(old(turns));
        Unread() == old(Unread()) + if |chunk| < buf.Length - |old(Unread())| then chunk else []
    {
      var chunk := publish(turns);
      assert WholeSchedule() ==> Complete(chunk);
      hide Complete, WholeSchedule;
      if |chunk| <= Avail(buf.Length, wrOff, rdOff) {
        if WholeSchedule() {
          CompleteConcat(sent, chunk);
        }
        HostStore(chunk);
        sent := sent + chunk;
      }
      turns := turns + 1;
    }

    /** memcpy out of the ring, the host acting before each byte. The copied cells hold unread bytes
        number k to k + n - 1. */
    method CopyOut(off: nat, n: nat, ghost k: nat) returns (s: seq<byte>)
      requires Valid() && off + n <= buf.Length && k + n <= |Unread()|
      requires n != 0 ==> rdOff + k < 2 * buf.Length && off == Wrap(rdOff + k, buf.Length)
      modifies this`wrOff, this`turns, this`sent, buf
      ensures HostOnly() && s == old(Unread())[k..k + n]
    {
      s := [];
      for i := 0 to n
        invariant HostOnly() && s == old(Unread())[k..k + i]
      {
        HostTurn();
        ContentsAt(buf[..], wrOff, rdOff, k + i);
        assert Unread()[k + i] == buf[off + i];
        s := s + [buf[off + i]];
      }
    }

    method Advance(rd: nat, ghost data: seq<byte>)
      requires Valid() && data <= Unread() && rd == Wrap(rdOff + |data|, buf.Length)
      modifies this`rdOff, this`taken
      ensures Valid() && taken == old(taken) + data && Unread() == old(Unread())[|data|..]
    {
      ContentsAfterRead(buf[..], wrOff, rdOff, |data|);
      rdOff := rd;
      taken := taken + data;
    }

    /** The first piece: unread bytes up to the end of the buffer. */
    method ReadToEnd(size: u32) returns (data: seq<byte>, rd: nat)
      requires Valid()
      modifies this`wrOff, this`turns, this`sent, buf
      ensures HostOnly() && data == old(Unread())[..FirstPiece(buf.Length, old(wrOff), rdOff, size)]
      ensures rd == SecondStart(buf.Length, old(wrOff), rdOff, size)
    {
      data, rd := [], rdOff;
      if rd > wrOff {
        var n := Min(buf.Length - rd, size);
        data := CopyOut(rd, n, 0);
        rd := rd + n;
        if rd == buf.Length {
          rd := 0;
        }
      }
    }

    /** The second piece: n unread bytes behind those of the first. */
    method ReadOn(first: seq<byte>, rd: nat, n: nat) returns (data: seq<byte>, end: nat)
      requires Valid() && first <= Unread() && |first| + n <= |Unread()| && rd + n <= buf.Length
      requires n != 0 ==> rdOff + |first| < 2 * buf.Length && rd == Wrap(rdOff + |first|, buf.Length)
      modifies this`wrOff, this`turns, this`sent, buf
      ensures HostOnly() && data == old(Unread())[..|first| + n] && end == rd + n
    {
      data, end := first, rd;
      if n > 0 {
        ghost var unread := Unread();
        var second := CopyOut(rd, n, |first|);
        Joined(unread, first, second);
        data, end := first + second, rd + n;
      }
    }

    /** Copy out at most size bytes, in at most two pieces, and say where reading would go on.
        Both offsets are looked at once. When the first piece is cut short, the subtraction of the
        offsets wraps around, but then nothing is left of the size limit. */
    method Gather(size: u32) returns (data: seq<byte>, rd: nat)
      requires Valid()
      modifies this`wrOff, this`turns, this`sent, buf
      ensures HostOnly() && data == old(Unread())[..Min(size, |old(Unread())|)]
      ensures data != [] ==> rd == Wrap(rdOff + |data|, buf.Length)
    {
      PiecesAddUp(buf.Length, wrOff, rdOff, size);
      assert |Unread()| == Used(buf.Length, wrOff, rdOff);
      hide FirstPiece, SecondPiece, SecondStart, Used, Wrap;
      var wr := wrOff;
      data, rd := ReadToEnd(size);
      data, rd := ReadOn(data, rd, SecondPiece(wr, rd, size - |data|));
    }

    /** Read the oldest unread bytes, at most size of them. */
    method ReadNoLock(size: u32) returns (data: seq<byte>)
      requires Valid()
      modifies this, buf
      ensures Valid() && data == old(Unread())[..Min(size, |old(Unread())|)]
      ensures taken == old(taken) + data
      ensures old(Unread())[|data|..] <= Unread()
    {
      var rd;
      data, rd := Gather(size);
      if |data| != 0 {
        Advance(rd, data);
      }
    }
  }
}
