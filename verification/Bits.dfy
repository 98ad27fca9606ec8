/** Single bits of 32-bit masks. */
module Bits {

  function Common(d: bv32, w: bv32): bv32 {
    d & w
  }

  function With(d: bv32, m: bv32): bv32 {
    d | m
  }

  function Without(d: bv32, m: bv32): bv32 {
    d & !m
  }

  /** The masks have a bit in common. */
  predicate Hits(d: bv32, w: bv32) {
    Common(d, w) != 0
  }

  /** At most one bit. */
  predicate Single(w: bv32) {
    w & (w - 1) == 0
  }

  lemma AndOr(d: bv32, m: bv32, w: bv32)
    ensures (d | m) & w == (d & w) | (m & w)
  {
  }

  lemma OrIsZero(x: bv32, y: bv32)
    ensures x | y == 0 <==> x == 0 && y == 0
  {
  }

  lemma AndAndNot(d: bv32, m: bv32, w: bv32)
    requires m & w == 0
    ensures (d & !m) & w == d & w
  {
  }

  lemma Distribute(d: bv32, m: bv32, w: bv32)
    ensures Common(With(d, m), w) == With(Common(d, w), Common(m, w))
  {
    AndOr(d, m, w);
  }

  lemma WithIsZero(x: bv32, y: bv32)
    ensures With(x, y) == 0 <==> x == 0 && y == 0
  {
    OrIsZero(x, y);
  }

  lemma HitsWith(d: bv32, m: bv32, w: bv32)
    ensures Hits(With(d, m), w) <==> Hits(d, w) || Hits(m, w)
  {
    hide Common, With;
    Distribute(d, m, w);
    WithIsZero(Common(d, w), Common(m, w));
  }

  lemma SingleBit(m: bv32, w: bv32)
    requires Single(w)
    ensures Common(m, w) == 0 || Common(m, w) == w
  {
  }

  lemma Kept(d: bv32, m: bv32, w: bv32)
    requires Common(m, w) == 0
    ensures Common(Without(d, m), w) == Common(d, w)
  {
    AndAndNot(d, m, w);
  }

  lemma Removed(d: bv32, m: bv32, w: bv32)
    requires Common(m, w) == w
    ensures Common(Without(d, m), w) == 0
  {
  }

  lemma HitsWithout(d: bv32, m: bv32, w: bv32)
    requires Single(w)
    ensures Hits(Without(d, m), w) <==> Hits(d, w) && !Hits(m, w)
  {
    hide Common, Without, Single;
    SingleBit(m, w);
    if Common(m, w) == 0 {
      Kept(d, m, w);
    } else {
      Removed(d, m, w);
    }
  }

  lemma NothingHits(w: bv32)
    ensures !Hits(0, w)
  {
  }

  function Power(t: bv6): bv32
    requires t <= 31
  {
    1 << t
  }

  predicate BitAt(d: bv32, t: bv6)
    requires t <= 31
  {
    (d >> t) & 1 == 1
  }

  lemma PowerIsSingle(t: bv6)
    requires t <= 31
    ensures Single(Power(t))
  {
  }

  lemma BitHits(d: bv32, t: bv6)
    requires t <= 31
    ensures BitAt(d, t) <==> Hits(d, Power(t))
  {
  }
}
