/** The colours as lgc.h packs them into the byte `marked`, and the bit tricks
    that stand for the operations on colours. */
module GcBits {
  import opened GcHeap
  import opened GcLists

  const WHITEBITS: bv8 := 0x03
  const BLACKBIT: bv8 := 0x04
  const FIXEDBIT: bv8 := 0x20

  /** The byte `b` holds the colour `c` and the fixed bit. */
  predicate Encodes(b: bv8, c: Colour, fixed: bool) {
    && (b & 0x07 == match c case White0 => 0x01 case White1 => 0x02 case Gray => 0x00 case Black => 0x04)
    && (b & FIXEDBIT != 0 <==> fixed)
  }

  /** The bytes of all objects. */
  ghost predicate EncodesAll(bytes: map<Id, bv8>, marked: map<Id, Colour>, fixed: set<Id>) {
    forall x :: x in marked ==> x in bytes && Encodes(bytes[x], marked[x], x in fixed)
  }

  /** `currentwhite` carries the fixed bit along, for the sake of the sweep. */
  predicate EncodesWhite(g: bv8, cw: Colour) {
    (cw == White0 && g == 0x21) || (cw == White1 && g == 0x22)
  }

  function OtherWhite(g: bv8): bv8 {
    g ^ WHITEBITS
  }

  predicate IsDead(g: bv8, b: bv8) {
    b & OtherWhite(g) & WHITEBITS != 0
  }

  /** The test of sweeplist, one expression for "not dead, or fixed". */
  predicate SweepKeeps(g: bv8, b: bv8) {
    (b ^ WHITEBITS) & OtherWhite(g) != 0
  }

  function MakeWhite(g: bv8, b: bv8): bv8 {
    (b & 0xF8) | (g & WHITEBITS)
  }

  lemma SweepTest(g: bv8, cw: Colour, b: bv8, c: Colour, fixed: bool)
    requires EncodesWhite(g, cw) && Encodes(b, c, fixed)
    ensures SweepKeeps(g, b) <==> c != Other(cw) || fixed
    ensures IsDead(g, b) <==> c == Other(cw)
    ensures (b ^ 3) & (g ^ 3) != 0 <==> c != Other(cw) || b & 32 != 0
    ensures b & (g ^ 3) & 3 != 0 <==> c == Other(cw)
  {
    var w, f := b & 0x03, b & 0x20;
    assert (b ^ 0x03) & 0x22 == ((w ^ 0x03) & 0x02) | f;
    assert (b ^ 0x03) & 0x21 == ((w ^ 0x03) & 0x01) | f;
    assert w == (b & 0x07) & 0x03;
    assert b & 0x22 & 0x03 == w & 0x02;
    assert b & 0x21 & 0x03 == w & 0x01;
  }

  /** Turning the white around keeps the fixed bit where the sweep needs it. */
  lemma FlipWhite(g: bv8, cw: Colour)
    requires EncodesWhite(g, cw)
    ensures EncodesWhite(OtherWhite(g), Other(cw))
  {
    assert 0x21 ^ 0x03 == 0x22 as bv8 && 0x22 ^ 0x03 == 0x21 as bv8;
  }

  /** makewhite gives the current white and keeps the other bits: whether the
      object is fixed and how a table is weak. */
  lemma Whitened(g: bv8, cw: Colour, b: bv8, c: Colour, fixed: bool)
    requires EncodesWhite(g, cw) && Encodes(b, c, fixed)
    ensures Encodes(MakeWhite(g, b), cw, fixed)
    ensures MakeWhite(g, b) & 0xF8 == b & 0xF8
  {
    assert ((b & 0xF8) | 0x01) & 0x07 == 0x01 && ((b & 0xF8) | 0x02) & 0x07 == 0x02;
    assert ((b & 0xF8) | 0x01) & 0x20 == b & 0x20 && ((b & 0xF8) | 0x02) & 0x20 == b & 0x20;
    assert ((b & 0xF8) | 0x01) & 0xF8 == b & 0xF8 && ((b & 0xF8) | 0x02) & 0xF8 == b & 0xF8;
    assert 0x21 & 0x03 == 0x01 as bv8 && 0x22 & 0x03 == 0x02 as bv8;
  }

  /** changewhite on a dead object, and the steps between gray and black. */
  lemma Recoloured(b: bv8, c: Colour, fixed: bool)
    requires Encodes(b, c, fixed)
    ensures IsWhite(c) ==> Encodes(b ^ WHITEBITS, Other(c), fixed)
    ensures IsWhite(c) ==> Encodes(b & !WHITEBITS, Gray, fixed)
    ensures c == Gray ==> Encodes(b | BLACKBIT, Black, fixed)
    ensures c == Black ==> Encodes(b & !BLACKBIT, Gray, fixed)
    ensures IsWhite(c) <==> b & 3 != 0
    ensures c == Black <==> b & 4 != 0
  {
    assert (b ^ 0x03) & 0x07 == (b & 0x07) ^ 0x03 && (b ^ 0x03) & 0x20 == b & 0x20;
    assert b & 0x03 == (b & 0x07) & 0x03 && b & 0x04 == (b & 0x07) & 0x04;
    assert !(0x03 as bv8) == 0xFC && !(0x04 as bv8) == 0xFB;
    assert (b & 0xFC) & 0x07 == (b & 0x07) & 0x04 && (b & 0xFC) & 0x20 == b & 0x20;
    assert (b | 0x04) & 0x07 == (b & 0x07) | 0x04 && (b | 0x04) & 0x20 == b & 0x20;
    assert (b & 0xFB) & 0x07 == (b & 0x07) & 0x03 && (b & 0xFB) & 0x20 == b & 0x20;
  }
}
