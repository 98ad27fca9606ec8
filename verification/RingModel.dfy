/** The abstract value of an RTT ring: which bytes are unread, and what storing does to the cells.
    One cell always stays free, so a ring of `size` cells holds at most size - 1 bytes. */
module RingModel {
  import opened Bytes

  /** Cell reached from offset i, for offsets less than one turn past the end. */
  function Wrap(i: nat, size: nat): nat
    requires i < 2 * size
  {
    if i < size then i else i - size
  }

  /** How far cell j lies after offset off, going round. */
  function Offset(j: nat, off: nat, size: nat): nat
    requires j < size && off < size
  {
    if off <= j then j - off else j + size - off
  }

  function Used(size: nat, wr: nat, rd: nat): nat
    requires wr < size && rd < size
  {
    Offset(wr, rd, size)
  }

  function Avail(size: nat, wr: nat, rd: nat): nat
    requires wr < size && rd < size
  {
    size - 1 - Used(size, wr, rd)
  }

  /** The unread bytes, oldest first. */
  function Contents(buf: seq<byte>, wr: nat, rd: nat): (r: seq<byte>)
    requires wr < |buf| && rd < |buf|
    ensures |r| == Used(|buf|, wr, rd)
  {
    seq(Used(|buf|, wr, rd), i requires 0 <= i < Used(|buf|, wr, rd) => buf[Wrap(rd + i, |buf|)])
  }

  /** The cells after data has been laid down from wr on, wrapping at the end. */
  function Store(buf: seq<byte>, wr: nat, data: seq<byte>): (r: seq<byte>)
    requires wr < |buf|
    ensures |r| == |buf|
  {
    seq(|buf|, j requires 0 <= j < |buf| =>
      if Offset(j, wr, |buf|) < |data| then data[Offset(j, wr, |buf|)] else buf[j])
  }

  /** The cells after a plain copy of src to offset off. */
  function Patch(buf: seq<byte>, off: nat, src: seq<byte>): (r: seq<byte>)
    requires off + |src| <= |buf|
    ensures |r| == |buf|
  {
    seq(|buf|, j requires 0 <= j < |buf| => if off <= j < off + |src| then src[j - off] else buf[j])
  }

  lemma PatchNext(buf: seq<byte>, off: nat, src: seq<byte>, i: nat)
    requires off + |src| <= |buf| && i < |src|
    ensures Patch(buf, off, src[..i])[off + i := src[i]] == Patch(buf, off, src[..i + 1])
  {
  }

  /** A store that reaches the end of the buffer is two copies, otherwise it is one. */
  lemma StoreByCopies(buf: seq<byte>, wr: nat, data: seq<byte>)
    requires wr < |buf| && |data| < |buf|
    ensures var rem := |buf| - wr;
      Store(buf, wr, data) == if |data| <= rem then Patch(buf, wr, data)
                              else Patch(Patch(buf, wr, data[..rem]), 0, data[rem..])
  {
  }

  /** Going on from the read offset past all unread bytes is going on from the write offset. */
  lemma PastUnread(size: nat, wr: nat, rd: nat, i: nat)
    requires wr < size && rd < size && Used(size, wr, rd) <= i < size
    ensures Wrap(rd + i, size) == Wrap(wr + (i - Used(size, wr, rd)), size)
  {
  }

  lemma StoredAt(buf: seq<byte>, wr: nat, data: seq<byte>, i: nat)
    requires wr < |buf| && |data| <= |buf| && i < |data|
    ensures Store(buf, wr, data)[Wrap(wr + i, |buf|)] == data[i]
  {
    assert Offset(Wrap(wr + i, |buf|), wr, |buf|) == i;
  }

  lemma PublishedAt(before: seq<byte>, buf: seq<byte>, wr: nat, rd: nat, data: seq<byte>, i: nat)
    requires wr < |buf| && rd < |buf| && |data| <= Avail(|buf|, wr, rd)
    requires |before| == |buf| && buf == Store(before, wr, data) && i < Used(|buf|, wr, rd) + |data|
    ensures buf[Wrap(rd + i, |buf|)] == (Contents(buf, wr, rd) + data)[i]
  {
    var used := Used(|buf|, wr, rd);
    if i < used {
      ContentsAt(buf, wr, rd, i);
    } else {
      PastUnread(|buf|, wr, rd, i);
      StoredAt(before, wr, data, i - used);
    }
  }

  lemma UsedAfterPublish(size: nat, wr: nat, rd: nat, n: nat)
    requires wr < size && rd < size && n <= Avail(size, wr, rd)
    ensures Used(size, Wrap(wr + n, size), rd) == Used(size, wr, rd) + n
  {
  }

  /** Moving the write offset over freshly filled cells appends exactly those cells to the unread bytes. */
  lemma PublishAppends(before: seq<byte>, buf: seq<byte>, wr: nat, rd: nat, data: seq<byte>)
    requires wr < |buf| && rd < |buf| && |data| <= Avail(|buf|, wr, rd)
    requires |before| == |buf| && buf == Store(before, wr, data)
    ensures Contents(buf, Wrap(wr + |data|, |buf|), rd) == Contents(buf, wr, rd) + data
  {
    var size, wr' := |buf|, Wrap(wr + |data|, |buf|);
    UsedAfterPublish(size, wr, rd, |data|);
    var left, right := Contents(buf, wr', rd), Contents(buf, wr, rd) + data;
    hide Contents, Store, Used, Avail;
    forall i | 0 <= i < |left|
      ensures left[i] == right[i]
    {
      ContentsAt(buf, wr', rd, i);
      PublishedAt(before, buf, wr, rd, data, i);
    }
  }

  /** Storing into the free space, then publishing, appends to the unread bytes. */
  lemma StoreAppends(buf: seq<byte>, wr: nat, rd: nat, data: seq<byte>)
    requires wr < |buf| && rd < |buf| && |data| <= Avail(|buf|, wr, rd)
    ensures Contents(Store(buf, wr, data), Wrap(wr + |data|, |buf|), rd) == Contents(buf, wr, rd) + data
  {
    var after := Store(buf, wr, data);
    PublishAppends(buf, after, wr, rd, data);
    forall i | 0 <= i < Used(|buf|, wr, rd)
      ensures Contents(after, wr, rd)[i] == Contents(buf, wr, rd)[i]
    {
      assert Offset(Wrap(rd + i, |buf|), wr, |buf|) >= |data|;
    }
    assert Contents(after, wr, rd) == Contents(buf, wr, rd);
  }

  /** Storing two pieces one after the other is storing their concatenation. */
  lemma StoreTwice(buf: seq<byte>, wr: nat, a: seq<byte>, b: seq<byte>)
    requires wr < |buf| && |a| + |b| < |buf|
    ensures Store(Store(buf, wr, a), Wrap(wr + |a|, |buf|), b) == Store(buf, wr, a + b)
  {
  }

  lemma StoreOneMore(buf: seq<byte>, wr: nat, data: seq<byte>, k: nat)
    requires wr < |buf| && k < |data| && k + 1 < |buf|
    ensures Store(Store(buf, wr, data[..k]), Wrap(wr + k, |buf|), [data[k]]) == Store(buf, wr, data[..k + 1])
    ensures Wrap(Wrap(wr + k, |buf|) + 1, |buf|) == Wrap(wr + k + 1, |buf|)
    ensures data[..k] + [data[k]] == data[..k + 1]
  {
    StoreTwice(buf, wr, data[..k], [data[k]]);
    assert data[..k] + [data[k]] == data[..k + 1];
  }

  lemma StoreNothing(buf: seq<byte>, wr: nat)
    requires wr < |buf|
    ensures Store(buf, wr, []) == buf
  {
  }

  lemma ContentsAt(buf: seq<byte>, wr: nat, rd: nat, i: nat)
    requires wr < |buf| && rd < |buf| && i < Used(|buf|, wr, rd)
    ensures Contents(buf, wr, rd)[i] == buf[Wrap(rd + i, |buf|)]
  {
  }

  /** Writing a cell of the free space leaves the unread bytes alone. */
  lemma WriteFreeCell(buf: seq<byte>, wr: nat, rd: nat, j: nat, x: byte)
    requires wr < |buf| && rd < |buf| && j < |buf|
    requires Offset(j, wr, |buf|) < Avail(|buf|, wr, rd)
    ensures Contents(buf[j := x], wr, rd) == Contents(buf, wr, rd)
  {
    var left, right := Contents(buf[j := x], wr, rd), Contents(buf, wr, rd);
    forall i | 0 <= i < |left|
      ensures left[i] == right[i]
    {
      assert Wrap(rd + i, |buf|) != j;
    }
  }

  /** A reader that moves on by k drops exactly the k oldest bytes. */
  lemma ContentsAfterRead(buf: seq<byte>, wr: nat, rd: nat, k: nat)
    requires wr < |buf| && rd < |buf| && k <= Used(|buf|, wr, rd)
    ensures Contents(buf, wr, Wrap(rd + k, |buf|)) == Contents(buf, wr, rd)[k..]
  {
    var size, rd' := |buf|, Wrap(rd + k, |buf|);
    var left, right := Contents(buf, wr, rd'), Contents(buf, wr, rd)[k..];
    assert |left| == |right|;
    forall i | 0 <= i < |left|
      ensures left[i] == right[i]
    {
      assert Wrap(rd' + i, size) == Wrap(rd + (k + i), size);
      assert right[i] == Contents(buf, wr, rd)[k + i];
    }
  }
}
