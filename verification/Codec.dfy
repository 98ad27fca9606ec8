/** Variable-length encodings of SystemView: unsigned LEB128 (section 7.6 of DWARF 4) for numbers,
    a count followed by the characters for strings. */
module Codec {
  import opened Bytes

  const QUANTA_U32: nat := 5
  const MAX_STRING_LEN: nat := 128

  datatype Decoded<+T> = Short | Got(value: T, rest: seq<byte>)

  function EncodeU32(v: nat): (r: seq<byte>)
    ensures 1 <= |r|
  {
    if v > 0x7F then [v % 128 + 128] + EncodeU32(v / 128) else [v]
  }

  /** The reader's side; Short when the bytes end in the middle of a number. */
  function DecodeU32(s: seq<byte>): Decoded<nat> {
    if s == [] then Short
    else if s[0] < 128 then Got(s[0], s[1..])
    else match DecodeU32(s[1..])
      case Short => Short
      case Got(v, rest) => Got(s[0] - 128 + 128 * v, rest)
  }

  lemma {:induction false} U32RoundTrip(v: nat, rest: seq<byte>)
    ensures DecodeU32(EncodeU32(v) + rest) == Got(v, rest)
  {
    var s := EncodeU32(v) + rest;
    if v > 0x7F {
      assert s[1..] == EncodeU32(v / 128) + rest;
      U32RoundTrip(v / 128, rest);
    } else {
      assert s[1..] == rest;
    }
  }

  function Pow128(n: nat): (r: nat)
    ensures 1 <= r
  {
    if n == 0 then 1 else 128 * Pow128(n - 1)
  }

  /** A number takes at most n bytes exactly when it has at most 7 n bits. */
  lemma {:induction false} U32LengthExactly(v: nat, n: nat)
    requires 1 <= n
    ensures |EncodeU32(v)| <= n <==> v < Pow128(n)
  {
    if 0x7F < v && 1 < n {
      U32LengthExactly(v / 128, n - 1);
    }
  }

  lemma U32Length(v: u32)
    ensures |EncodeU32(v)| <= QUANTA_U32
    ensures |EncodeU32(v)| <= 1 <==> v < 0x80
    ensures |EncodeU32(v)| <= 2 <==> v < 0x4000
  {
    assert Pow128(2) == 0x4000 && Pow128(3) == 0x20_0000;
    assert Pow128(4) == 0x1000_0000 && Pow128(5) == 0x8_0000_0000;
    U32LengthExactly(v, 1);
    U32LengthExactly(v, 2);
    U32LengthExactly(v, 5);
  }

  /** More input never changes what has already been decoded. */
  lemma {:induction false} DecodeU32Extends(s: seq<byte>, more: seq<byte>)
    requires DecodeU32(s).Got?
    ensures DecodeU32(s + more) == Got(DecodeU32(s).value, DecodeU32(s).rest + more)
    ensures |DecodeU32(s).rest| < |s| && s == s[..|s| - |DecodeU32(s).rest|] + DecodeU32(s).rest
  {
    assert (s + more)[1..] == s[1..] + more;
    if 128 <= s[0] {
      DecodeU32Extends(s[1..], more);
    }
  }

  /** The number made of 7-bit groups, the least significant first. */
  function Groups(s: seq<byte>): nat {
    if s == [] then 0 else s[0] % 128 + 128 * Groups(s[1..])
  }

  /** The encoding is that of section 7.6 of DWARF 4: groups of 7 bits from the least significant on, with the high
      bit set in all bytes but the last, and no superfluous group. */
  lemma {:induction false} EncodingIsLeb128(v: nat)
    ensures var r := EncodeU32(v);
      && Groups(r) == v && r[|r| - 1] < 128 && (|r| == 1 || r[|r| - 1] != 0)
      && forall i :: 0 <= i < |r| - 1 ==> 128 <= r[i]
  {
    if 127 < v {
      EncodingIsLeb128(v / 128);
      var r, tail := EncodeU32(v), EncodeU32(v / 128);
      assert r[1..] == tail;
      assert forall i :: 1 <= i < |r| ==> r[i] == tail[i - 1];
    } else {
      assert EncodeU32(v)[1..] == [];
    }
  }

  /** The examples of that section. */
  lemma Leb128Examples()
    ensures EncodeU32(2) == [2] && EncodeU32(127) == [127] && EncodeU32(128) == [128, 1]
    ensures EncodeU32(129) == [129, 1] && EncodeU32(12857) == [57 + 128, 100]
  {
  }

  /** A string is its length and its characters; lengths from 255 on are 255 and two bytes, the lower one first. */
  lemma StrBytes(text: seq<byte>, limit: nat)
    ensures var r, len := EncodeStr(text, limit), if |text| <= limit then |text| else limit;
      if len < 255 then r == [len] + text[..len]
      else len < 65536 ==>
        |r| == 3 + len && r[0] == 255 && r[1] as int + 256 * (r[2] as int) == len && r[3..] == text[..len]
  {
  }

  /** What has been decoded does not depend on the bytes that were left. */
  lemma {:induction false} DecodeU32Shrinks(a: seq<byte>, b: seq<byte>)
    requires DecodeU32(a + b).Got? && |b| <= |DecodeU32(a + b).rest|
    ensures var v, rest := DecodeU32(a + b).value, DecodeU32(a + b).rest;
      rest == rest[..|rest| - |b|] + b && DecodeU32(a) == Got(v, rest[..|rest| - |b|])
  {
    if a == [] {
      assert a + b == b;
      DecodeU32Extends(b, []);
    } else {
      assert (a + b)[1..] == a[1..] + b;
      if 128 <= a[0] {
        DecodeU32Shrinks(a[1..], b);
      }
    }
  }

  /** No number can be decoded from fewer bytes than its encoding has. */
  lemma {:induction false} DecodedIsNotShorter(s: seq<byte>)
    requires DecodeU32(s).Got?
    ensures |DecodeU32(s).rest| + |EncodeU32(DecodeU32(s).value)| <= |s|
  {
    if 128 <= s[0] {
      DecodedIsNotShorter(s[1..]);
    }
  }

  /** The length of text is cut to limit; lengths below 255 take one byte, others two more. */
  function EncodeStr(text: seq<byte>, limit: nat): (r: seq<byte>)
    ensures |r| <= Min(|text|, limit) + 3
    ensures Min(|text|, limit) < 255 ==> |r| == Min(|text|, limit) + 1
  {
    var len := Min(|text|, limit);
    (if len < 255 then [len] else [255, len % 256, len / 256 % 256]) + text[..len]
  }

  function DecodeStr(s: seq<byte>): Decoded<seq<byte>> {
    if s == [] then Short
    else if s[0] < 255 then Take(s[1..], s[0])
    else if |s| < 3 then Short
    else Take(s[3..], s[1] as int + 256 * (s[2] as int))
  }

  function Take(s: seq<byte>, n: nat): Decoded<seq<byte>> {
    if |s| < n then Short else Got(s[..n], s[n..])
  }

  /** A string reads back exactly when its length fits the two length bytes. */
  lemma StrRoundTripExactly(text: seq<byte>, limit: nat, rest: seq<byte>)
    ensures DecodeStr(EncodeStr(text, limit) + rest) == Got(text[..Min(|text|, limit)], rest)
      <==> Min(|text|, limit) <= 65535
  {
    var len := Min(|text|, limit);
    var s := EncodeStr(text, limit) + rest;
    if len < 255 {
      assert s[1..] == text[..len] + rest;
    } else {
      assert s[3..] == text[..len] + rest;
      assert DecodeStr(s) == Take(text[..len] + rest, len % 65536) by {
        assert len % 256 + 256 * (len / 256 % 256) == len % 65536;
      }
      if 65535 < len {
        assert len % 65536 < len;
      }
    }
  }

  lemma TakeExtends(s: seq<byte>, more: seq<byte>, n: nat)
    requires n <= |s|
    ensures Take(s + more, n) == Got(s[..n], s[n..] + more)
  {
    assert (s + more)[..n] == s[..n] && (s + more)[n..] == s[n..] + more;
  }

  lemma DecodeStrExtends(s: seq<byte>, more: seq<byte>)
    requires DecodeStr(s).Got?
    ensures DecodeStr(s + more) == Got(DecodeStr(s).value, DecodeStr(s).rest + more)
    ensures |DecodeStr(s).rest| < |s| && s == s[..|s| - |DecodeStr(s).rest|] + DecodeStr(s).rest
  {
    var k := if s[0] < 255 then 1 else 3;
    var n := if s[0] < 255 then s[0] else s[1] as int + 256 * (s[2] as int);
    assert (s + more)[k..] == s[k..] + more;
    TakeExtends(s[k..], more, n);
  }

  lemma DecodeStrShrinks(a: seq<byte>, b: seq<byte>)
    requires DecodeStr(a + b).Got? && |b| <= |DecodeStr(a + b).rest|
    ensures var t, rest := DecodeStr(a + b).value, DecodeStr(a + b).rest;
      rest == rest[..|rest| - |b|] + b && DecodeStr(a) == Got(t, rest[..|rest| - |b|])
  {
    var s := a + b;
    DecodeStrExtends(s, []);
    assert a != [];
    var k := if s[0] < 255 then 1 else 3;
    var n := if s[0] < 255 then s[0] else s[1] as int + 256 * (s[2] as int);
    assert k + n <= |a| && s[k..] == a[k..] + b;
    TakeExtends(a[k..], b, n);
    var kept := a[k..][n..];
    assert DecodeStr(s) == Got(a[k..][..n], kept + b) && DecodeStr(a) == Got(a[k..][..n], kept);
    assert (kept + b)[..|kept|] == kept;
    hide DecodeStr, Take;
  }

  /** ENCODE_U32: append the encoding of v to the payload being built in p, returning the next free position. */
  method PutU32(p: array<byte>, at: nat, v: u32) returns (next: nat)
    requires at + QUANTA_U32 <= p.Length
    modifies p
    ensures at < next <= at + QUANTA_U32
    ensures p[..next] == old(p[..at]) + EncodeU32(v)
    ensures forall k :: next <= k < p.Length ==> p[k] == old(p[k])
  {
    U32Length(v);
    next := at;
    var rest := v;
    while rest > 0x7F
      invariant at <= next && next + |EncodeU32(rest)| == at + |EncodeU32(v)|
      invariant p[..next] + EncodeU32(rest) == old(p[..at]) + EncodeU32(v)
      invariant forall k :: next <= k < p.Length ==> p[k] == old(p[k])
    {
      ghost var front, tail := p[..next], EncodeU32(rest / 128);
      p[next] := rest % 128 + 128;  // the low byte of rest | 0x80
      next := next + 1;
      assert p[..next] == front + [rest % 128 + 128];
      rest := rest / 128;
    }
    ghost var front := p[..next];
    p[next] := rest;
    next := next + 1;
    assert p[..next] == front + [rest];
  }

  /** _EncodeStr: append a string of at most limit characters to the payload being built in p. */
  method PutStr(p: array<byte>, at: nat, text: seq<byte>, limit: nat) returns (next: nat)
    requires at + |EncodeStr(text, limit)| <= p.Length
    modifies p
    ensures next == at + |EncodeStr(text, limit)|
    ensures p[..next] == old(p[..at]) + EncodeStr(text, limit)
    ensures forall k :: next <= k < p.Length ==> p[k] == old(p[k])
  {
    var len := |text|;
    if len > limit {
      len := limit;
    }
    next := at;
    if len < 255 {
      p[next] := len;
      next := next + 1;
    } else {
      p[next] := 255;
      p[next + 1] := len % 256;
      p[next + 2] := len / 256 % 256;
      next := next + 3;
    }
    ghost var front := p[..next];
    for n := 0 to len
      invariant next == |front| + n
      invariant p[..next] == front + text[..n]
      invariant forall k :: next <= k < p.Length ==> p[k] == old(p[k])
    {
      p[next] := text[n];
      next := next + 1;
    }
  }
}
