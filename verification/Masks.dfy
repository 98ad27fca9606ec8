/** The mask of disabled events. */
module Masks {
  import opened Bytes
  import opened Bits

  /** The mask of a single event. */
  function Mask(id: u32): bv32
    requires id < 32
  {
    1 << id
  }

  /** The event is disabled. */
  predicate Masked(disabled: bv32, id: u32) {
    id < 32 && Hits(disabled, Mask(id))
  }

  /** Bit number id of a mask. */
  predicate Bit(mask: bv32, id: u32) {
    id < 32 && (mask >> id) & 1 == 1
  }

  lemma ShiftOf(id: u32) returns (t: bv6)
    requires id < 32
    ensures t <= 31 && t == id as bv6
  {
    t := id as bv6;
  }

  lemma MaskedHits(d: bv32, id: u32, t: bv6)
    requires id < 32 && t <= 31 && t == id as bv6
    ensures Masked(d, id) <==> Hits(d, Power(t))
  {
    MaskIsPower(id, t);
    hide Mask, Power, Hits;
  }

  lemma MaskIsPower(id: u32, t: bv6)
    requires id < 32 && t <= 31 && t == id as bv6
    ensures Mask(id) == Power(t)
  {
  }

  lemma BitIsAt(d: bv32, id: u32, t: bv6)
    requires id < 32 && t <= 31 && t == id as bv6
    ensures Bit(d, id) <==> BitAt(d, t)
  {
  }

  /** An event is masked if and only if its bit is set; ids from 32 on have none. */
  lemma MaskedExactly(disabled: bv32, id: u32)
    ensures Masked(disabled, id) <==> Bit(disabled, id)
    ensures !Masked(0, id) && (32 <= id ==> !Masked(disabled, id))
  {
    if id < 32 {
      hide *;
      var t := ShiftOf(id);
      MaskedHits(disabled, id, t);
      MaskedHits(0, id, t);
      BitIsAt(disabled, id, t);
      BitHits(disabled, t);
      NothingHits(Power(t));
    }
  }

  /** Disabling a mask adds the events whose bits are set in it, and no others. */
  lemma MaskedByOr(disabled: bv32, mask: bv32, id: u32)
    ensures Masked(disabled | mask, id) <==> Masked(disabled, id) || Bit(mask, id)
  {
    hide Masked, Bit;
    MaskedWith(disabled, mask, id);
  }

  lemma MaskedWith(disabled: bv32, mask: bv32, id: u32)
    ensures Masked(With(disabled, mask), id) <==> Masked(disabled, id) || Bit(mask, id)
  {
    MaskedExactly(mask, id);
    MaskedExactly(disabled, id);
    MaskedExactly(With(disabled, mask), id);
    if id < 32 {
      hide *;
      var t := ShiftOf(id);
      MaskedHits(disabled, id, t);
      MaskedHits(mask, id, t);
      MaskedHits(With(disabled, mask), id, t);
      HitsWith(disabled, mask, Power(t));
    } else {
      hide Masked, Bit, With;
    }
  }

  /** Enabling a mask removes the events whose bits are set in it, and no others. */
  lemma MaskedByAndNot(disabled: bv32, mask: bv32, id: u32)
    ensures Masked(disabled & !mask, id) <==> Masked(disabled, id) && !Bit(mask, id)
  {
    hide Masked, Bit;
    MaskedWithout(disabled, mask, id);
  }

  lemma MaskedWithout(disabled: bv32, mask: bv32, id: u32)
    ensures Masked(Without(disabled, mask), id) <==> Masked(disabled, id) && !Bit(mask, id)
  {
    MaskedExactly(mask, id);
    MaskedExactly(disabled, id);
    MaskedExactly(Without(disabled, mask), id);
    if id < 32 {
      hide *;
      var t := ShiftOf(id);
      MaskedHits(disabled, id, t);
      MaskedHits(mask, id, t);
      MaskedHits(Without(disabled, mask), id, t);
      PowerIsSingle(t);
      HitsWithout(disabled, mask, Power(t));
    } else {
      hide Masked, Bit, Without;
    }
  }

  /** The event of a mask. */
  lemma OneEvent(disabled: bv32, id: u32)
    requires id < 32
    ensures Masked(disabled | Mask(id), id) && !Masked(disabled & !Mask(id), id)
  {
    OwnBit(id);
    hide *;
    MaskedByOr(disabled, Mask(id), id);
    MaskedByAndNot(disabled, Mask(id), id);
  }

  lemma OwnBit(id: u32)
    requires id < 32
    ensures Bit(Mask(id), id)
  {
  }
}
