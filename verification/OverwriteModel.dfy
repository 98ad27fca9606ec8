/** What the overwriting write of the post-mortem mode leaves in a ring, and exactly when that is
    the newest data. */
module OverwriteModel {
  import opened Bytes
  import opened RingModel

  /** Repeated subtraction of size. */
  function Reduce(x: nat, size: nat): (r: nat)
    requires 0 < size
    ensures r < size
    ensures x < 2 * size ==> r == Wrap(x, size)
  {
    if x < size then x else Reduce(x - size, size)
  }

  /** The read offset after room for n bytes has been made by force, in the 32-bit arithmetic of the target. */
  function PushedRead(size: nat, wr: nat, rd: nat, n: nat): (r: nat)
    requires wr < size && rd < size
    ensures r < size
  {
    if n <= Avail(size, wr, rd) then rd else Reduce(U32(rd + n - Avail(size, wr, rd)), size)
  }

  /** Pushing the read offset on takes it past 2^32, which can only happen in a buffer of more than 2 GiB. */
  predicate Overruns(size: nat, wr: nat, rd: nat, n: nat)
    requires wr < size && rd < size
  {
    Avail(size, wr, rd) < n && TWO32 <= rd + n - Avail(size, wr, rd)
  }

  datatype Cells = Cells(buf: seq<byte>, wr: nat)

  /** Cells and write offset after all rounds. A round that reaches its limit starts over at cell 0;
      every round but the first is limited to size - 1 bytes. */
  function Rounds(c: Cells, limit: nat, data: seq<byte>): (r: Cells)
    requires 2 <= |c.buf| && 0 < limit && c.wr + limit <= |c.buf|
    ensures |r.buf| == |c.buf| && r.wr < |r.buf|
    decreases |data|
  {
    if limit > |data| then Cells(Patch(c.buf, c.wr, data), c.wr + |data|)
    else
      var c' := Cells(Patch(c.buf, c.wr, data[..limit]), 0);
      if |data| == limit then c' else Rounds(c', |c.buf| - 1, data[limit..])
  }

  function Overwritten(buf: seq<byte>, wr: nat, data: seq<byte>): (r: Cells)
    requires 2 <= |buf| && wr < |buf|
    ensures |r.buf| == |buf| && r.wr < |buf|
  {
    Rounds(Cells(buf, wr), |buf| - wr, data)
  }

  /** The unread bytes after overwriting. */
  function AfterOverwrite(buf: seq<byte>, wr: nat, rd: nat, data: seq<byte>): seq<byte>
    requires 2 <= |buf| && wr < |buf| && rd < |buf|
  {
    var c := Overwritten(buf, wr, data);
    Contents(c.buf, c.wr, PushedRead(|buf|, wr, rd, |data|))
  }

  function Newest(s: seq<byte>, n: nat): (r: seq<byte>)
    ensures |r| == Min(|s|, n)
  {
    if |s| <= n then s else s[|s| - n..]
  }

  /** The ring ends up holding the newest size - 1 bytes of what it held followed by data. */
  ghost predicate KeepsNewest(buf: seq<byte>, wr: nat, rd: nat, data: seq<byte>)
    requires 2 <= |buf| && wr < |buf| && rd < |buf|
  {
    AfterOverwrite(buf, wr, rd, data) == Newest(Contents(buf, wr, rd) + data, |buf| - 1)
  }

  lemma OverwrittenOnce(buf: seq<byte>, wr: nat, data: seq<byte>)
    requires 2 <= |buf| && wr < |buf| && |data| + wr <= 2 * |buf| - 2
    ensures var c := Overwritten(buf, wr, data);
      c.wr == Wrap(wr + |data|, |buf|) &&
      forall j :: 0 <= j < |buf| ==>
        c.buf[j] == if j < wr + |data| - |buf| then data[j + |buf| - wr]
                    else if wr <= j < wr + |data| then data[j - wr] else buf[j]
  {
    var rem := |buf| - wr;
    if rem < |data| {
      var c' := Cells(Patch(buf, wr, data[..rem]), 0);
      assert Overwritten(buf, wr, data) == Rounds(c', |buf| - 1, data[rem..]);
      assert Rounds(c', |buf| - 1, data[rem..]) == Cells(Patch(c'.buf, 0, data[rem..]), |data| - rem);
    } else if rem == |data| {
      assert data[..rem] == data;
    }
  }

  /** Overwriting a ring that has too little room leaves it full, starting one cell after the write offset. */
  lemma PushedReadIsNext(size: nat, wr: nat, rd: nat, n: nat)
    requires 2 <= size < TWO32 && wr < size && rd < size && Avail(size, wr, rd) < n && n + wr <= 2 * size - 2
    ensures PushedRead(size, wr, rd, n) == Wrap(Wrap(wr + n, size) + 1, size) <==> !Overruns(size, wr, rd, n)
  {
    var x := rd + n - Avail(size, wr, rd);
    assert x < 2 * size && Wrap(x, size) == Wrap(Wrap(wr + n, size) + 1, size);
    if x < TWO32 {
      assert PushedRead(size, wr, rd, n) == Wrap(x, size);
    } else {
      assert U32(x) == x - TWO32 && PushedRead(size, wr, rd, n) == x - TWO32;
    }
    hide PushedRead, Reduce;
  }

  lemma KeepsAllWhenItFits(buf: seq<byte>, wr: nat, rd: nat, data: seq<byte>)
    requires 2 <= |buf| && wr < |buf| && rd < |buf| && |data| <= Avail(|buf|, wr, rd)
    ensures AfterOverwrite(buf, wr, rd, data) == Contents(buf, wr, rd) + data
  {
    var c := Overwritten(buf, wr, data);
    OverwrittenOnce(buf, wr, data);
    assert c.buf == Store(buf, wr, data);
    StoreAppends(buf, wr, rd, data);
  }

  lemma KeepsNewestWithinLimit(buf: seq<byte>, wr: nat, rd: nat, data: seq<byte>)
    requires 2 <= |buf| < TWO32 && wr < |buf| && rd < |buf| && |data| + wr <= 2 * |buf| - 2
    requires !Overruns(|buf|, wr, rd, |data|)
    ensures KeepsNewest(buf, wr, rd, data)
  {
    var size, all := |buf|, Contents(buf, wr, rd) + data;
    if |data| <= Avail(size, wr, rd) {
      KeepsAllWhenItFits(buf, wr, rd, data);
    } else {
      OverwrittenOnce(buf, wr, data);
      PushedReadIsNext(size, wr, rd, |data|);
      var left, right := AfterOverwrite(buf, wr, rd, data), Newest(all, size - 1);
      assert |left| == |right|;
      forall i | 0 <= i < size - 1
        ensures left[i] == right[i]
      {
        FullRingCell(buf, wr, rd, data, i);
      }
    }
  }

  /** Where byte i of a ring lies that n bytes have filled to the brim. */
  function FullCell(size: nat, wr: nat, n: nat, i: nat): (j: nat)
    requires wr < size && n + wr <= 2 * size - 2 && i < size - 1
    ensures j < size
  {
    Wrap(Wrap(Wrap(wr + n, size) + 1, size) + i, size)
  }

  /** Byte i is an old one, or one of the n new ones. */
  lemma FullCellIs(size: nat, wr: nat, rd: nat, n: nat, i: nat)
    requires wr < size && rd < size && Avail(size, wr, rd) < n && n + wr <= 2 * size - 2 && i < size - 1
    ensures var q, j := i + n - Avail(size, wr, rd), FullCell(size, wr, n, i);
      if q < Used(size, wr, rd) then j == Wrap(rd + q, size) && wr + n - size <= j && !(wr <= j < wr + n)
      else if j < wr + n - size then j + size - wr == q - Used(size, wr, rd)
      else wr <= j < wr + n && j - wr == q - Used(size, wr, rd)
  {
  }

  /** Cell i of the ring that overwriting has filled to the brim. */
  lemma FullRingCell(buf: seq<byte>, wr: nat, rd: nat, data: seq<byte>, i: nat)
    requires 2 <= |buf| && wr < |buf| && rd < |buf| && |data| + wr <= 2 * |buf| - 2
    requires Avail(|buf|, wr, rd) < |data| && i < |buf| - 1
    ensures var q := i + |data| - Avail(|buf|, wr, rd);
      Overwritten(buf, wr, data).buf[FullCell(|buf|, wr, |data|, i)] == (Contents(buf, wr, rd) + data)[q]
  {
    OverwrittenOnce(buf, wr, data);
    FullCellIs(|buf|, wr, rd, |data|, i);
    hide Overwritten, FullCell;
    var q := i + |data| - Avail(|buf|, wr, rd);
    if q < Used(|buf|, wr, rd) {
      ContentsAt(buf, wr, rd, q);
    }
  }

  /** The last cell, once written in the first round, is never written again. */
  lemma LastCellStays(c: Cells, data: seq<byte>)
    requires 2 <= |c.buf| && c.wr == 0
    ensures var r := Rounds(c, |c.buf| - 1, data);
      r.buf[|c.buf| - 1] == c.buf[|c.buf| - 1] && r.wr < |c.buf| - 1
    decreases |data|
  {
    var limit := |c.buf| - 1;
    if limit < |data| {
      LastCellStays(Cells(Patch(c.buf, 0, data[..limit]), 0), data[limit..]);
    }
  }

  /** Data whose only 1 lands in the last cell and should have been pushed out of the ring. */
  function Marked(n: nat, k: nat): (r: seq<byte>)
    requires k < n
    ensures |r| == n
  {
    seq(n, i => if i == k then 1 else 0)
  }

  /** The marked byte is not among the newest size ones. */
  lemma MarkIsOld(before: seq<byte>, n: nat, k: nat, size: nat)
    requires k + size < n
    ensures 1 !in Newest(before + Marked(n, k), size)
  {
  }

  lemma LosesNewestBeyondLimit(buf: seq<byte>, wr: nat, rd: nat, n: nat)
    requires 2 <= |buf| && wr < |buf| && rd < |buf| && 2 * |buf| - 2 < n + wr
    ensures !KeepsNewest(buf, wr, rd, Marked(n, |buf| - 1 - wr))
  {
    var size, k := |buf|, |buf| - 1 - wr;
    hide Overwritten, PushedRead, Newest, Marked, KeepsNewest;
    var data := Marked(n, k);
    MarkStays(buf, wr, n);
    MarkIsOld(Contents(buf, wr, rd), n, k, size - 1);
    if KeepsNewest(buf, wr, rd, data) {
      KeptIsNewest(buf, wr, rd, data);
      var c := Overwritten(buf, wr, data);
      LastCellIsRead(c.buf, c.wr, PushedRead(size, wr, rd, n));
    }
  }

  lemma KeptIsNewest(buf: seq<byte>, wr: nat, rd: nat, data: seq<byte>)
    requires 2 <= |buf| && wr < |buf| && rd < |buf| && |buf| <= |data| + 1 && KeepsNewest(buf, wr, rd, data)
    ensures var c := Overwritten(buf, wr, data);
      var kept := Contents(c.buf, c.wr, PushedRead(|buf|, wr, rd, |data|));
      kept == Newest(Contents(buf, wr, rd) + data, |buf| - 1) && |kept| == |buf| - 1
  {
    hide Overwritten, PushedRead, Contents;
  }

  /** The mark ends up in the last cell. */
  lemma MarkStays(buf: seq<byte>, wr: nat, n: nat)
    requires 2 <= |buf| && wr < |buf| && 2 * |buf| - 2 < n + wr
    ensures var c := Overwritten(buf, wr, Marked(n, |buf| - 1 - wr));
      c.wr < |buf| - 1 && c.buf[|buf| - 1] == 1
  {
    var size, data := |buf|, Marked(n, |buf| - 1 - wr);
    var c' := Cells(Patch(buf, wr, data[..size - wr]), 0);
    assert Overwritten(buf, wr, data) == Rounds(c', size - 1, data[size - wr..]);
    LastCellStays(c', data[size - wr..]);
  }

  /** A full ring whose write offset is not at the last cell has that cell among its unread bytes. */
  lemma LastCellIsRead(buf: seq<byte>, wr: nat, rd: nat)
    requires 2 <= |buf| && wr < |buf| - 1 && rd < |buf| && Used(|buf|, wr, rd) == |buf| - 1
    ensures buf[|buf| - 1] in Contents(buf, wr, rd)
  {
    var i := |buf| - 1 - rd;
    assert Wrap(rd + i, |buf|) == |buf| - 1;
    assert Contents(buf, wr, rd)[i] == buf[|buf| - 1];
  }

  /** Once the read offset has run over, the ring does not even hold as many bytes as it should. */
  lemma OverrunLosesNewest(buf: seq<byte>, wr: nat, rd: nat, data: seq<byte>)
    requires 2 <= |buf| < TWO32 && wr < |buf| && rd < |buf| && |data| + wr <= 2 * |buf| - 2
    requires Overruns(|buf|, wr, rd, |data|)
    ensures !KeepsNewest(buf, wr, rd, data)
  {
    var size, c, rd' := |buf|, Overwritten(buf, wr, data), PushedRead(|buf|, wr, rd, |data|);
    OverwrittenOnce(buf, wr, data);
    PushedReadIsNext(size, wr, rd, |data|);
    hide Overwritten, PushedRead, Reduce;
    assert c.wr == Wrap(wr + |data|, size) && rd' != Wrap(c.wr + 1, size);
    assert Used(size, c.wr, rd') != size - 1;
    if KeepsNewest(buf, wr, rd, data) {
      KeptIsNewest(buf, wr, rd, data);
    }
  }

  /** For a given state and length, every byte string of that length survives exactly when at most one extra
      round is needed, that round stays short of its limit, and the read offset does not run over. */
  lemma OverwriteExactly(buf: seq<byte>, wr: nat, rd: nat, n: nat)
    requires 2 <= |buf| < TWO32 && wr < |buf| && rd < |buf|
    ensures (forall data: seq<byte> | |data| == n :: KeepsNewest(buf, wr, rd, data))
      <==> n + wr <= 2 * |buf| - 2 && !Overruns(|buf|, wr, rd, n)
  {
    hide KeepsNewest, Overruns;
    if 2 * |buf| - 2 < n + wr {
      LosesNewestBeyondLimit(buf, wr, rd, n);
    } else if Overruns(|buf|, wr, rd, n) {
      var data: seq<byte> := seq(n, _ => 0);
      OverrunLosesNewest(buf, wr, rd, data);
    } else {
      forall data: seq<byte> | |data| == n
        ensures KeepsNewest(buf, wr, rd, data)
      {
        KeepsNewestWithinLimit(buf, wr, rd, data);
      }
    }
  }

  /** Up to 2 GiB anything shorter than the buffer is safe wherever the offsets happen to be. */
  lemma ShortDataIsKept(buf: seq<byte>, wr: nat, rd: nat, data: seq<byte>)
    requires 2 <= |buf| < TWO32 && wr < |buf| && rd < |buf| && |data| < |buf|
    requires |buf| <= 0x8000_0000 || rd <= wr
    ensures KeepsNewest(buf, wr, rd, data)
  {
    KeepsNewestWithinLimit(buf, wr, rd, data);
  }
}
