/**
 * The hash functions of Hasher.java that the map family offers as key
 * strategies: the default one, which passes the key's own hash code through,
 * and the spreading one, which runs the hash code through a fixed six-step
 * 32-bit mix so that hash codes differing only in their high bits land in
 * different buckets of a small power-of-two table.
 *
 * A Java `int` is modelled by its bit pattern, a `bv32`: `+` and `<<` wrap
 * modulo 2^32 exactly as Java's do, and `>>` on a bit-vector is the logical
 * shift `>>>`. Every function here has no precondition, so the mix is defined
 * for every `int` input.
 */
module Hashing {

  /** `h += (h << 15) ^ 0xffffcd7d` */
  function AddShifted15(h: bv32): (r: bv32)
    ensures UndoAddShifted15(r) == h
  {
    UndoAddShifted15Inverts(h);
    h + ((h << 15) ^ 0xffff_cd7d)
  }

  lemma UndoAddShifted15Inverts(h: bv32)
    ensures UndoAddShifted15(h + ((h << 15) ^ 0xffff_cd7d)) == h
  {
  }

  /**
   * Inverse of AddShifted15: writing y for its result, the low 15 bits of
   * `(h << 15) ^ c` are those of c, so `y - c` has the right low 15 bits; each
   * further round `y - ((x << 15) ^ c)` fixes 15 more.
   */
  function UndoAddShifted15(y: bv32): bv32
  {
    var x0 := y - 0xffff_cd7d;
    var x1 := y - ((x0 << 15) ^ 0xffff_cd7d);
    y - ((x1 << 15) ^ 0xffff_cd7d)
  }

  /** `h ^= (h >>> 10)` */
  function XorShift10(h: bv32): (r: bv32)
    ensures UndoXorShift10(r) == h
  {
    UndoXorShift10Inverts(h);
    h ^ (h >> 10)
  }

  lemma UndoXorShift10Inverts(h: bv32)
    ensures UndoXorShift10(h ^ (h >> 10)) == h
  {
  }

  function UndoXorShift10(y: bv32): bv32
  {
    y ^ (y >> 10) ^ (y >> 20) ^ (y >> 30)
  }

  /** `h += (h << 3)`, that is, multiplication by 9 modulo 2^32 */
  function AddShifted3(h: bv32): (r: bv32)
    ensures UndoAddShifted3(r) == h
  {
    h + (h << 3)
  }

  /** Multiplication by the inverse of 9 modulo 2^32. */
  function UndoAddShifted3(y: bv32): bv32
  {
    y * 0x38e3_8e39
  }

  /** `h ^= (h >>> 6)` */
  function XorShift6(h: bv32): (r: bv32)
    ensures UndoXorShift6(r) == h
  {
    UndoXorShift6Inverts(h);
    h ^ (h >> 6)
  }

  lemma UndoXorShift6Inverts(h: bv32)
    ensures UndoXorShift6(h ^ (h >> 6)) == h
  {
  }

  function UndoXorShift6(y: bv32): bv32
  {
    y ^ (y >> 6) ^ (y >> 12) ^ (y >> 18) ^ (y >> 24) ^ (y >> 30)
  }

  /** `h += (h << 2) + (h << 14)`, that is, multiplication by 16389 modulo 2^32 */
  function AddShifted2And14(h: bv32): (r: bv32)
    ensures r == h * 16389
  {
    ShiftsAreProducts(h);
    h + ((h << 2) + (h << 14))
  }

  lemma ShiftsAreProducts(h: bv32)
    ensures h << 2 == h * 4 && h << 14 == h * 16384
    ensures h + (h * 4 + h * 16384) == h * 16389
  {
  }

  /** Multiplication by the inverse of 16389 modulo 2^32. */
  function UndoAddShifted2And14(y: bv32): bv32
  {
    y * 0x45c2_8ccd
  }

  lemma UndoTimes16389(h: bv32)
    ensures UndoAddShifted2And14(h * 16389) == h
  {
  }

  /**
   * The final step `h ^ (h >>> 16)`: the top 16 bits of h are kept and XORed
   * into the low 16 bits.
   */
  function FinalMix(h: bv32): (r: bv32)
    ensures UndoFinalMix(r) == h
  {
    UndoFinalMixInverts(h);
    h ^ (h >> 16)
  }

  lemma UndoFinalMixInverts(h: bv32)
    ensures UndoFinalMix(h ^ (h >> 16)) == h
  {
  }

  /** The final step is its own inverse. */
  function UndoFinalMix(y: bv32): bv32
  {
    y ^ (y >> 16)
  }

  lemma FinalMixBits(h: bv32)
    ensures FinalMix(h) >> 16 == h >> 16
    ensures FinalMix(h) & 0xffff == (h & 0xffff) ^ (h >> 16)
  {
  }

  /** SpreadingHasher.hashCode, given the key's own hash code. */
  function Spread(hashCode: bv32): bv32
  {
    FinalMix(AddShifted2And14(XorShift6(AddShifted3(XorShift10(AddShifted15(hashCode))))))
  }

  /** The steps of Spread undone in reverse order. */
  function Unspread(h: bv32): bv32
  {
    UndoAddShifted15(UndoXorShift10(UndoAddShifted3(UndoXorShift6(UndoAddShifted2And14(UndoFinalMix(h))))))
  }

  /** Spreading loses nothing: the original hash code can be recovered. */
  lemma UnspreadSpread(hashCode: bv32)
    ensures Unspread(Spread(hashCode)) == hashCode
  {
    var h1 := AddShifted15(hashCode);
    var h2 := XorShift10(h1);
    var h3 := AddShifted3(h2);
    var h4 := XorShift6(h3);
    var h5 := AddShifted2And14(h4);
    assert UndoFinalMix(FinalMix(h5)) == h5;
    UndoTimes16389(h4);
    assert UndoAddShifted2And14(h5) == h4;
    assert UndoXorShift6(h4) == h3;
    assert UndoAddShifted3(h3) == h2;
    assert UndoXorShift10(h2) == h1;
    assert UndoAddShifted15(h1) == hashCode;
  }

  /**
   * Spreading neither merges nor splits hash codes: two keys get the same
   * spread hash exactly when their own hash codes are equal.
   */
  lemma SpreadInjective(a: bv32, b: bv32)
    ensures Spread(a) == Spread(b) <==> a == b
  {
    if Spread(a) == Spread(b) {
      UnspreadSpread(a);
      UnspreadSpread(b);
    }
  }

  /** DefaultHasher.hashCode: the key's own hash code, unchanged. */
  function DefaultHashCode<T>(obj: T, hashCode: T -> bv32): bv32
  {
    hashCode(obj)
  }

  /** SpreadingHasher.hashCode: the key's own hash code, spread. */
  function SpreadingHashCode<T>(obj: T, hashCode: T -> bv32): bv32
  {
    Spread(hashCode(obj))
  }

  /**
   * The spreading hasher depends on nothing but the key's hash code, and it
   * identifies exactly the keys the default hasher identifies.
   */
  lemma SpreadingAgreesWithDefault<T>(a: T, b: T, hashCode: T -> bv32)
    ensures SpreadingHashCode(a, hashCode) == SpreadingHashCode(b, hashCode)
        <==> DefaultHashCode(a, hashCode) == DefaultHashCode(b, hashCode)
  {
    SpreadInjective(hashCode(a), hashCode(b));
  }
}
