/**
  Fixed-width unsigned hash words and the displacement formula
  (src/generate.rs, `displace`).

  The source is generic over the hash word type `H`; the model fixes a
  32-bit word.  No proof depends on the particular width.
*/
module Words {

  /** 2^32: the number of distinct hash words. */
  const Modulus: nat := 0x1_0000_0000

  /** `H::max_value()`. */
  const HashMax: nat := Modulus - 1

  type Word = x: nat | x < Modulus

  /** `wrapping_mul` on hash words. */
  function WrappingMul(a: Word, b: Word): Word
  {
    (a * b) % Modulus
  }

  /** `wrapping_add` on hash words. */
  function WrappingAdd(a: Word, b: Word): Word
  {
    (a + b) % Modulus
  }

  /** `usize as H`: truncation of a machine index to a hash word. */
  function AsWord(x: nat): (w: Word)
    ensures x < Modulus ==> w == x
  {
    x % Modulus
  }

  /** `f1.wrapping_mul(d1).wrapping_add(f2).wrapping_add(d2)`. */
  function Displace(f1: Word, f2: Word, d1: Word, d2: Word): Word
  {
    WrappingAdd(WrappingAdd(WrappingMul(f1, d1), f2), d2)
  }

  /** Reducing a left operand before an addition does not change the residue. */
  lemma ModAddLeft(x: nat, y: nat)
    ensures (x % Modulus + y) % Modulus == (x + y) % Modulus
  {
    var q := x / Modulus;
    assert x == q * Modulus + x % Modulus;
    ShiftMod(q, x % Modulus + y);
  }

  /** Adding a multiple of the modulus does not change the residue. */
  lemma {:induction false} ShiftMod(q: nat, z: nat)
    ensures (q * Modulus + z) % Modulus == z % Modulus
  {
    if q > 0 {
      ShiftMod(q - 1, z);
      assert q * Modulus + z == ((q - 1) * Modulus + z) + Modulus;
    }
  }

  /**
    The three wrapping operations of `displace` together compute the affine
    map f1 * d1 + f2 + d2 reduced once modulo 2^32.
  */
  lemma DisplaceIsAffine(f1: Word, f2: Word, d1: Word, d2: Word)
    ensures Displace(f1, f2, d1, d2) == (f1 * d1 + f2 + d2) % Modulus
  {
    ModAddLeft(f1 * d1, f2);
    ModAddLeft(f1 * d1 + f2, d2);
  }
}
