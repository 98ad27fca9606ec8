/** The registry of middleware modules: a linked list that new modules are put in front of. */
module Modules {
  import opened Bytes
  import opened Packets

  const MODULE_EVENT_OFFSET: u32 := 512

  class Module {
    const name: seq<byte>
    const numEvents: u32
    /** What its pfSendModuleDesc callback records; nothing if there is no callback. */
    const description: seq<Recording>
    var eventOffset: u32
    var next: Module?

    constructor (name: seq<byte>, numEvents: u32, description: seq<Recording>)
      ensures this.name == name && this.numEvents == numEvents && this.description == description
    {
      this.name, this.numEvents, this.description := name, numEvents, description;
    }
  }

  /** The event ids offset .. offset + count - 1 of a module. */
  datatype Range = Range(offset: u32, count: u32)

  function Sum(rs: seq<Range>): nat {
    if rs == [] then 0 else rs[0].count + Sum(rs[1..])
  }

  /** Each range starts where the one registered before it, which is the next in the list, ends. */
  predicate Chained(rs: seq<Range>) {
    rs != [] ==>
      && Chained(rs[1..])
      && rs[0].offset == if |rs| == 1 then MODULE_EVENT_OFFSET else Add32(rs[1].offset, rs[1].count)
  }

  lemma ChainedFirst(r: Range, rs: seq<Range>)
    requires Chained(rs)
    requires r.offset == if rs == [] then MODULE_EVENT_OFFSET else Add32(rs[0].offset, rs[0].count)
    ensures ([r] + rs)[1..] == rs && Chained([r] + rs)
  {
    assert ([r] + rs)[1..] == rs;
  }

  /** Offsets are the number of events registered before, counted from 512 modulo 2^32. */
  lemma {:induction false} OffsetCountsEarlierEvents(rs: seq<Range>)
    requires Chained(rs) && rs != []
    ensures rs[0].offset == U32(MODULE_EVENT_OFFSET + Sum(rs[1..]))
  {
    if |rs| > 1 {
      OffsetCountsEarlierEvents(rs[1..]);
    }
  }

  predicate Covers(r: Range, id: nat) {
    r.offset <= id < r.offset + r.count
  }

  function Owners(rs: seq<Range>, id: nat): nat {
    if rs == [] then 0 else (if Covers(rs[0], id) then 1 else 0) + Owners(rs[1..], id)
  }

  /** The number of modules an id should belong to when sum events have been registered. */
  function Expected(sum: nat, id: nat): nat {
    if MODULE_EVENT_OFFSET <= id < MODULE_EVENT_OFFSET + sum then 1 else 0
  }

  /** No module with events has an offset that has run over. */
  predicate NoneWraps(rs: seq<Range>) {
    rs != [] ==> NoneWraps(rs[1..]) && (rs[0].count > 0 ==> MODULE_EVENT_OFFSET + Sum(rs[1..]) < TWO32)
  }

  lemma {:induction false} RangesTile(rs: seq<Range>, id: nat)
    requires Chained(rs) && NoneWraps(rs)
    ensures Owners(rs, id) == Expected(Sum(rs), id)
  {
    if rs != [] {
      OffsetCountsEarlierEvents(rs);
      RangesTile(rs[1..], id);
    }
  }

  lemma {:induction false} WrappedRangesOverlap(rs: seq<Range>) returns (id: nat)
    requires Chained(rs) && !NoneWraps(rs)
    ensures Expected(Sum(rs), id) < Owners(rs, id) && id < TWO32 <= MODULE_EVENT_OFFSET + Sum(rs)
  {
    if NoneWraps(rs[1..]) {
      id := rs[0].offset;
      RangesTile(rs[1..], id);
    } else {
      id := WrappedRangesOverlap(rs[1..]);
    }
  }

  /** Every id from 512 up to the number of registered events belongs to exactly one module and every other id
      to none, if and only if no module with events has got an offset that has run over. */
  lemma RangesTileExactly(rs: seq<Range>)
    requires Chained(rs)
    ensures (forall id: nat :: Owners(rs, id) == Expected(Sum(rs), id)) <==> NoneWraps(rs)
  {
    if NoneWraps(rs) {
      forall id: nat
        ensures Owners(rs, id) == Expected(Sum(rs), id)
      {
        RangesTile(rs, id);
      }
    } else {
      var id := WrappedRangesOverlap(rs);
    }
  }

  function U8(x: nat): byte {
    x % 256
  }

  /** U8 increment. */
  function Next(x: byte): byte {
    if x == 255 then 0 else x + 1
  }

  lemma Bump(k: nat)
    ensures U8(k + 1) == Next(U8(k))
  {
  }

  /** rs are the event ids of the modules ms. */
  ghost predicate Ranged(ms: seq<Module>, rs: seq<Range>)
    reads set m | m in ms
  {
    |rs| == |ms| && forall i :: 0 <= i < |ms| ==> rs[i] == Range(ms[i].eventOffset, ms[i].numEvents)
  }

  lemma RangedFirst(m: Module, ms: seq<Module>, rs: seq<Range>)
    requires Ranged(ms, rs)
    ensures Ranged([m] + ms, [Range(m.eventOffset, m.numEvents)] + rs)
  {
  }

  class Registry {
    var first: Module?
    var numModules: byte
    /** The modules in list order, and the event ids they have been given. */
    ghost var list: seq<Module>
    ghost var ranges: seq<Range>

    /** The pointers make up the list: it is acyclic and ends with null. */
    ghost predicate Linked()
      reads this, set m | m in list
    {
      && (forall i, j :: 0 <= i < j < |list| ==> list[i] != list[j])
      && first == At(0)
      && (forall i :: 0 <= i < |list| ==> list[i].next == At(i + 1))
    }

    ghost predicate Valid()
      reads this, set m | m in list
    {
      && Linked() && numModules == U8(|list|)
      && Ranged(list, ranges) && Chained(ranges)
    }

    ghost function At(i: nat): Module?
      reads this
    {
      if i < |list| then list[i] else null
    }

    constructor ()
      ensures Valid() && list == []
    {
      first, numModules, list, ranges := null, 0, [], [];
    }

    method Register(m: Module)
      requires Valid() && m !in list
      modifies this, m
      ensures Valid() && list == [m] + old(list)
      ensures |ranges| == |old(ranges)| + 1 && ranges[1..] == old(ranges) && numModules == U8(|old(list)| + 1)
      ensures m.eventOffset == if old(list) == [] then MODULE_EVENT_OFFSET
                               else Add32(old(list)[0].eventOffset, old(list)[0].numEvents)
    {
      assert |ranges| == |list| && (list != [] ==> ranges[0] == Range(list[0].eventOffset, list[0].numEvents));
      hide Linked, Ranged, Chained;
      Stamp(m);
      PutFirst(m);
      ghost var range := Range(m.eventOffset, m.numEvents);
      ChainedFirst(range, ranges);
      RangedFirst(m, list[1..], ranges);
      ranges := [range] + ranges;
    }

    /** Count the module and give it its event offset. */
    method Stamp(m: Module)
      requires Valid() && m !in list
      modifies this`numModules, m`eventOffset
      ensures Linked() && Ranged(list, ranges) && numModules == U8(|list| + 1)
      ensures m.eventOffset == if list == [] then MODULE_EVENT_OFFSET
                               else Add32(list[0].eventOffset, list[0].numEvents)
    {
      hide Chained, Ranged;
      Bump(|list|);
      numModules := if first == null then 1 else Next(numModules);
      m.eventOffset := if first == null then MODULE_EVENT_OFFSET else Add32(first.eventOffset, first.numEvents);
    }

    /** Put the module in front of the list. */
    method PutFirst(m: Module)
      requires Linked() && Ranged(list, ranges) && m !in list
      modifies this`first, this`list, m`next
      ensures Linked() && list == [m] + old(list) && Ranged(list[1..], ranges)
    {
      hide Ranged;
      ghost var rest := list;
      m.next := first;
      first := m;
      list := [m] + list;
      assert list[1..] == rest;
    }

    method First() returns (m: Module?)
      requires Valid()
      ensures m == At(0)
    {
      m := first;
    }

    method After(m: Module, ghost k: nat) returns (n: Module?)
      requires Valid() && At(k) == m
      ensures n == At(k + 1)
    {
      n := m.next;
    }

    /** The module with the given index, counted from the one registered last; null if there is none. */
    method Find(id: byte) returns (m: Module?)
      requires Linked()
      ensures m == At(id)
    {
      m := first;
      if first != null {
        var n := 0;
        while n < id
          invariant 0 <= n <= id && n < |list| && m == list[n]
        {
          m := m.next;
          if m == null {
            break;
          }
          n := n + 1;
        }
      }
    }

    /** The position of a module in the list, modulo 256; past the end for a module that is not registered. */
    method IndexOf(m: Module) returns (id: byte)
      requires Linked() && first != null
      ensures m !in list ==> id == U8(|list|)
      ensures forall pos :: 0 <= pos < |list| && list[pos] == m ==> id == U8(pos)
    {
      var p := first;
      ghost var pos := 0;
      id := 0;
      while true
        invariant 0 <= pos < |list| && p == list[pos] && id == U8(pos)
        invariant forall i :: 0 <= i < pos ==> list[i] != m
        decreases |list| - pos
      {
        if p == m {
          break;
        }
        id := Next(id);
        Bump(pos);
        pos := pos + 1;
        p := p.next;
        if p == null {
          break;
        }
      }
    }

    /** The index sent for a registered module is the one under which the host finds it. */
    method IndexToSend(m: Module) returns (id: byte)
      requires Valid() && first != null
      ensures forall k :: 0 <= k < |list| && list[k] == m ==> id == U8(k)
      ensures m !in list ==> id == U8(|list|)
      ensures m in list && |list| <= 256 ==> At(id) == m
    {
      hide Chained, Ranged;
      id := IndexOf(m);
      if m in list && |list| <= 256 {
        ghost var k :| 0 <= k < |list| && list[k] == m;
        assert id == U8(k) == k;
      }
    }
  }
}
