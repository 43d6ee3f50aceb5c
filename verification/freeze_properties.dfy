/**
 Properties of the freeze routine that relate several calls or compare it
 with the reference decomposition: the dropped carry, canonicity,
 idempotence, equality modulo p, and the boundary inputs 0, p - 1 and p.
 */
module FreezeProperties {
  import opened Words
  import opened Field
  import opened FreezeRoutine

  /** The all-zero field element. */
  const ZeroLimbs: Limbs := [0, 0, 0, 0, 0, 0, 0, 0, 0, 0, 0, 0]

  /** The limbs of p - 1: p's limbs with limb 0 lowered by one. */
  const ModulusMinusOneLimbs: Limbs := [
    0x7ff_fff6, 0x7ff_ffff, 0x7ff_ffff, 0x3ff_ffff,
    0x7ff_ffff, 0x7ff_ffff, 0x7ff_ffff, 0x3ff_ffff,
    0x7ff_ffff, 0x7ff_ffff, 0x7ff_ffff, 0x3ff_ffff]

  /**
   The carry out of the last limb of the add-back chain, which the routine
   discards, always equals the borrow out of the last limb of the subtract
   chain: the 2^321 the subtraction borrowed is exactly what the addition
   carries out, so dropping it loses nothing.
   */
  lemma FinalCarryCancelsBorrow(x: Limbs)
    requires Tight(x)
    ensures
      var sub := SubtractModulus(x);
      AddModulusMasked(sub.limbs, BorrowMask(sub.flag)).flag == sub.flag
  {
    var sub := SubtractModulus(x);
    var add := AddModulusMasked(sub.limbs, BorrowMask(sub.flag));
    TightBound(x);
    TightBound(sub.limbs);
    TightBound(add.limbs);
    ConditionalReduction(Eval(x), sub.flag, Eval(sub.limbs), add.flag, Eval(add.limbs));
  }

  /**
   Freeze agrees with the reference: its output is the tight decomposition
   of the input's value modulo p.
   */
  lemma FreezeIsCanonical(x: Limbs)
    requires Tight(x)
    ensures Freeze(x) == ToLimbs(Eval(x) % Modulus)
  {
    ToLimbsOfEval(Freeze(x));
  }

  /** Freeze leaves its input unchanged exactly when the input is already below p. */
  lemma FreezeFixesCanonical(x: Limbs)
    requires Tight(x)
    ensures Freeze(x) == x <==> Eval(x) < Modulus
  {
    TightUnique(Freeze(x), x);
    ModOneWrap(Eval(x), Modulus);
  }

  /** Freezing twice is the same as freezing once. */
  lemma FreezeIdempotent(x: Limbs)
    requires Tight(x)
    ensures Freeze(Freeze(x)) == Freeze(x)
  {
    FreezeFixesCanonical(Freeze(x));
  }

  /** Two tight inputs freeze to the same limbs exactly when they are congruent modulo p. */
  lemma FreezeDecidesCongruence(x: Limbs, y: Limbs)
    requires Tight(x) && Tight(y)
    ensures Freeze(x) == Freeze(y) <==> Eval(x) % Modulus == Eval(y) % Modulus
  {
    TightUnique(Freeze(x), Freeze(y));
  }

  /** The all-zero limbs are tight and represent 0. */
  lemma ZeroLimbsValue(z: Limbs)
    requires z == ZeroLimbs
    ensures Tight(z) && Eval(z) == 0
  {
    EvalExpanded(z);
  }

  /** The limbs of p - 1 are tight and represent p - 1. */
  lemma ModulusMinusOneLimbsValue(x: Limbs)
    requires x == ModulusMinusOneLimbs
    ensures Tight(x) && Eval(x) == Modulus - 1
  {
    var p := ModulusLimbs;
    ModulusLimbsTight();
    ModulusLimbsValue();
    assert x[1..] == p[1..];
    assert x == [x[0]] + p[1..] && p == [p[0]] + p[1..];
    EvalSuffixStep(x, 0);
    EvalSuffixStep(p, 0);
    assert x[0..] == x && p[0..] == p;
  }

  /** Zero is left as zero. */
  lemma FreezeOfZero(z: Limbs)
    requires z == ZeroLimbs
    ensures Freeze(z) == z
  {
    ZeroLimbsValue(z);
    FreezeFixesCanonical(z);
  }

  /** p - 1, the largest canonical value, is left unchanged. */
  lemma FreezeOfModulusMinusOne(x: Limbs)
    requires x == ModulusMinusOneLimbs
    ensures Freeze(x) == x
  {
    ModulusMinusOneLimbsValue(x);
    FreezeFixesCanonical(x);
  }

  /** p itself, the non-canonical form of zero that fits below 2^321, maps to zero. */
  lemma FreezeOfModulus(x: Limbs)
    requires x == ModulusLimbs
    ensures Freeze(x) == ZeroLimbs
  {
    ModulusLimbsTight();
    ModulusLimbsValue();
    ZeroLimbsValue(ZeroLimbs);
    TightUnique(Freeze(x), ZeroLimbs);
  }
}
