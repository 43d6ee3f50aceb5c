/**
 Representation of elements of the field of integers modulo the Solinas
 prime p = 2^321 - 9 as twelve limbs in mixed radix. Limbs 3, 7 and 11 are
 26 bits wide and the other nine are 27 bits wide, so limb i sits at bit
 offset 0, 27, 54, 81, 107, 134, 161, 188, 214, 241, 268 or 295.
 */
module Field {
  import opened Words

  // Three quantities appear here in two forms each: p's limbs as the table
  // ModulusLimb(i) and as the literal ModulusLimbs, the radix as the literal
  // Radix(i) beside Pow2(Width(i)), and 2^321 as the literal TwoTo321 beside
  // Pow2(321). The literal forms keep the solver's work small; the lemmas
  // ModulusLimbsDecomposeModulus, RadixIsPow2 and ModulusIsSolinas prove
  // each pair equal, so the two forms cannot drift apart.

  const LimbCount: nat := 12

  /** A field element in limb form: exactly twelve limbs. */
  type Limbs = s: seq<nat> | |s| == LimbCount witness [0, 0, 0, 0, 0, 0, 0, 0, 0, 0, 0, 0]

  /** Bit width of limb i. */
  function Width(i: nat): nat
    requires i < LimbCount
  {
    if i % 4 == 3 then 26 else 27
  }

  /** 2^Width(i), the radix of limb i. */
  function Radix(i: nat): nat
    requires i < LimbCount
  {
    if i % 4 == 3 then 0x400_0000 else 0x800_0000
  }

  /** Bit offset of limb i; Offset(LimbCount) is the total width. */
  function Offset(i: nat): nat
    requires i <= LimbCount
  {
    if i == 0 then 0 else Offset(i - 1) + Width(i - 1)
  }

  /** 2^321, the total capacity of twelve tight limbs. */
  const TwoTo321: nat := 0x2_0000_0000_0000_0000_0000_0000_0000_0000_0000_0000_0000_0000_0000_0000_0000_0000_0000_0000_0000_0000

  /** The Solinas prime p = 2^321 - 9. */
  const Modulus: nat := TwoTo321 - 9

  /**
   Limb i of p, which is also the constant the routine subtracts from and
   adds back to limb i: 0x7fffff7 = 2^27 - 9 for limb 0, 0x3ffffff for the
   26-bit limbs 3, 7 and 11, and 0x7ffffff for the other 27-bit limbs.
   */
  function ModulusLimb(i: nat): nat
    requires i < LimbCount
  {
    if i == 0 then 0x7ff_fff7
    else if i % 4 == 3 then 0x3ff_ffff
    else 0x7ff_ffff
  }

  /** The value of p's limbs i .. 11 (limb i counting 1), in Horner form. */
  function ModulusFrom(i: nat): nat
    requires i <= LimbCount
    decreases LimbCount - i
  {
    if i == LimbCount then 0 else ModulusLimb(i) + Radix(i) * ModulusFrom(i + 1)
  }

  /** The limbs of p as a field element. */
  const ModulusLimbs: Limbs := [
    0x7ff_fff7, 0x7ff_ffff, 0x7ff_ffff, 0x3ff_ffff,
    0x7ff_ffff, 0x7ff_ffff, 0x7ff_ffff, 0x3ff_ffff,
    0x7ff_ffff, 0x7ff_ffff, 0x7ff_ffff, 0x3ff_ffff]

  /** Number of distinct values that limbs i .. 11 can hold together. */
  function Capacity(i: nat): nat
    requires i <= LimbCount
    decreases LimbCount - i
  {
    if i == LimbCount then 1 else Radix(i) * Capacity(i + 1)
  }

  /**
   Value of the limbs s when s[0] is limb number i: Horner evaluation,
   each limb counting 2^Width times as much as the one below it.
   */
  function EvalAt(s: seq<nat>, i: nat): nat
    requires i + |s| <= LimbCount
    decreases |s|
  {
    if |s| == 0 then 0 else s[0] + Radix(i) * EvalAt(s[1..], i + 1)
  }

  /** The integer a full limb vector represents. */
  function Eval(x: Limbs): nat
  {
    EvalAt(x, 0)
  }

  /** Each limb of s, s[0] being limb number i, fits in its width. */
  ghost predicate TightAt(s: seq<nat>, i: nat)
    requires i + |s| <= LimbCount
  {
    forall k :: 0 <= k < |s| ==> s[k] < Radix(i + k)
  }

  /** Each limb is below its radix cap (2^26 or 2^27). */
  ghost predicate Tight(x: Limbs)
  {
    TightAt(x, 0)
  }

  /** The value Σ s[k]·2^Offset(i + k), written as a positional sum. */
  function WeightedSum(s: seq<nat>, i: nat): nat
    requires i + |s| <= LimbCount
    decreases |s|
  {
    if |s| == 0 then 0 else s[0] * Pow2(Offset(i)) + WeightedSum(s[1..], i + 1)
  }

  /**
   Tight limbs of n starting at limb i: the reference decomposition, taking
   each limb as the remainder by its radix and passing the quotient up.
   */
  function ToLimbsAt(n: nat, i: nat): (r: seq<nat>)
    requires i <= LimbCount
    ensures |r| == LimbCount - i
    ensures TightAt(r, i)
    decreases LimbCount - i
  {
    if i == LimbCount then []
    else
      var rest := ToLimbsAt(n / Radix(i), i + 1);
      assert forall k :: 1 <= k < |rest| + 1 ==> ([n % Radix(i)] + rest)[k] == rest[k - 1];
      [n % Radix(i)] + rest
  }

  /** The tight limb vector of n (the low 321 bits of n). */
  function ToLimbs(n: nat): (r: Limbs)
    ensures Tight(r)
  {
    ToLimbsAt(n, 0)
  }

  // ---------------------------------------------------------------------
  // Constants
  // ---------------------------------------------------------------------

  /** The offsets are 0, 27, ..., 295 and the limbs span 321 bits. */
  lemma OffsetValues()
    ensures Offset(0) == 0 && Offset(1) == 27 && Offset(2) == 54 && Offset(3) == 81
    ensures Offset(4) == 107 && Offset(5) == 134 && Offset(6) == 161 && Offset(7) == 188
    ensures Offset(8) == 214 && Offset(9) == 241 && Offset(10) == 268 && Offset(11) == 295
    ensures Offset(LimbCount) == 321
  {
  }

  /** The radix of each limb is 2 to its width. */
  lemma RadixIsPow2(i: nat)
    requires i < LimbCount
    ensures Radix(i) == Pow2(Width(i))
  {
    Pow2Values();
  }

  /** The capacity of limbs i .. 11 is 2 to the number of bits they span. */
  lemma {:induction false} CapacityIsPow2(i: nat)
    requires i <= LimbCount
    ensures Offset(i) <= 321
    ensures Capacity(i) == Pow2(321 - Offset(i))
    decreases LimbCount - i
  {
    OffsetValues();
    if i < LimbCount {
      CapacityIsPow2(i + 1);
      assert 321 - Offset(i) == Width(i) + (321 - Offset(i + 1));
      Pow2Add(Width(i), 321 - Offset(i + 1));
      RadixIsPow2(i);
    }
  }

  /** Twelve tight limbs hold exactly 2^321 values. */
  lemma CapacityValue()
    ensures Capacity(0) == TwoTo321
  {
    assert Capacity(11) == 0x400_0000;
    assert Capacity(10) == 0x800_0000 * 0x400_0000;
    assert Capacity(9) == 0x800_0000 * Capacity(10);
    assert Capacity(8) == 0x800_0000 * Capacity(9);
    assert Capacity(7) == 0x400_0000 * Capacity(8);
    assert Capacity(6) == 0x800_0000 * Capacity(7);
    assert Capacity(5) == 0x800_0000 * Capacity(6);
    assert Capacity(4) == 0x800_0000 * Capacity(5);
    assert Capacity(3) == 0x400_0000 * Capacity(4);
    assert Capacity(2) == 0x800_0000 * Capacity(3);
    assert Capacity(1) == 0x800_0000 * Capacity(2);
    assert Capacity(0) == 0x800_0000 * Capacity(1);
  }

  /** TwoTo321 really is 2^321, and p is its difference with 9. */
  lemma ModulusIsSolinas()
    ensures TwoTo321 == Pow2(321)
    ensures Modulus == Pow2(321) - 9
  {
    CapacityValue();
    CapacityIsPow2(0);
  }

  // ---------------------------------------------------------------------
  // Evaluation
  // ---------------------------------------------------------------------

  /** Horner evaluation from limb i, scaled by 2^Offset(i), is the positional sum. */
  lemma {:induction false} EvalAtIsWeightedSum(s: seq<nat>, i: nat)
    requires i + |s| <= LimbCount
    ensures EvalAt(s, i) * Pow2(Offset(i)) == WeightedSum(s, i)
    decreases |s|
  {
    if |s| > 0 {
      EvalAtIsWeightedSum(s[1..], i + 1);
      Pow2Add(Offset(i), Width(i));
      assert Offset(i + 1) == Offset(i) + Width(i);
      RadixIsPow2(i);
      ScaleHornerStep(s[0], Radix(i), EvalAt(s[1..], i + 1), Pow2(Offset(i)));
    }
  }

  /** A field element's value is Σ x[i]·2^Offset(i). */
  lemma EvalIsWeightedSum(x: Limbs)
    ensures Eval(x) == WeightedSum(x, 0)
  {
    EvalAtIsWeightedSum(x, 0);
  }

  /** Eval written out with the twelve limb weights 2^0, 2^27, ..., 2^295 as constants. */
  lemma EvalExpanded(x: Limbs)
    ensures Eval(x) ==
      x[0]
      + 0x800_0000 * x[1]
      + 0x40_0000_0000_0000 * x[2]
      + 0x2_0000_0000_0000_0000_0000 * x[3]
      + 0x800_0000_0000_0000_0000_0000_0000 * x[4]
      + 0x40_0000_0000_0000_0000_0000_0000_0000_0000 * x[5]
      + 0x2_0000_0000_0000_0000_0000_0000_0000_0000_0000_0000 * x[6]
      + 0x1000_0000_0000_0000_0000_0000_0000_0000_0000_0000_0000_0000 * x[7]
      + 0x40_0000_0000_0000_0000_0000_0000_0000_0000_0000_0000_0000_0000_0000 * x[8]
      + 0x2_0000_0000_0000_0000_0000_0000_0000_0000_0000_0000_0000_0000_0000_0000_0000 * x[9]
      + 0x1000_0000_0000_0000_0000_0000_0000_0000_0000_0000_0000_0000_0000_0000_0000_0000_0000 * x[10]
      + 0x80_0000_0000_0000_0000_0000_0000_0000_0000_0000_0000_0000_0000_0000_0000_0000_0000_0000_0000 * x[11]
  {
    assert x[12..] == [];
    assert x[0..] == x;
    EvalSuffixStep(x, 0);
    EvalSuffixStep(x, 1);
    EvalSuffixStep(x, 2);
    EvalSuffixStep(x, 3);
    EvalSuffixStep(x, 4);
    EvalSuffixStep(x, 5);
    EvalSuffixStep(x, 6);
    EvalSuffixStep(x, 7);
    EvalSuffixStep(x, 8);
    EvalSuffixStep(x, 9);
    EvalSuffixStep(x, 10);
    EvalSuffixStep(x, 11);
    HornerDigits(
      x[0], EvalAt(x[0..], 0),
      x[1], EvalAt(x[1..], 1),
      x[2], EvalAt(x[2..], 2),
      x[3], EvalAt(x[3..], 3),
      x[4], EvalAt(x[4..], 4),
      x[5], EvalAt(x[5..], 5),
      x[6], EvalAt(x[6..], 6),
      x[7], EvalAt(x[7..], 7),
      x[8], EvalAt(x[8..], 8),
      x[9], EvalAt(x[9..], 9),
      x[10], EvalAt(x[10..], 10),
      x[11], EvalAt(x[11..], 11));
  }

  /** Horner evaluation of twelve digits in the 27/27/27/26 radix pattern, multiplied out. */
  lemma HornerDigits(
    x0: int, e0: int,
    x1: int, e1: int,
    x2: int, e2: int,
    x3: int, e3: int,
    x4: int, e4: int,
    x5: int, e5: int,
    x6: int, e6: int,
    x7: int, e7: int,
    x8: int, e8: int,
    x9: int, e9: int,
    x10: int, e10: int,
    x11: int, e11: int)
    requires e11 == x11
    requires e10 == x10 + 0x800_0000 * e11
    requires e9 == x9 + 0x800_0000 * e10
    requires e8 == x8 + 0x800_0000 * e9
    requires e7 == x7 + 0x400_0000 * e8
    requires e6 == x6 + 0x800_0000 * e7
    requires e5 == x5 + 0x800_0000 * e6
    requires e4 == x4 + 0x800_0000 * e5
    requires e3 == x3 + 0x400_0000 * e4
    requires e2 == x2 + 0x800_0000 * e3
    requires e1 == x1 + 0x800_0000 * e2
    requires e0 == x0 + 0x800_0000 * e1
    ensures e0 ==
      x0
      + 0x800_0000 * x1
      + 0x40_0000_0000_0000 * x2
      + 0x2_0000_0000_0000_0000_0000 * x3
      + 0x800_0000_0000_0000_0000_0000_0000 * x4
      + 0x40_0000_0000_0000_0000_0000_0000_0000_0000 * x5
      + 0x2_0000_0000_0000_0000_0000_0000_0000_0000_0000_0000 * x6
      + 0x1000_0000_0000_0000_0000_0000_0000_0000_0000_0000_0000_0000 * x7
      + 0x40_0000_0000_0000_0000_0000_0000_0000_0000_0000_0000_0000_0000_0000 * x8
      + 0x2_0000_0000_0000_0000_0000_0000_0000_0000_0000_0000_0000_0000_0000_0000_0000 * x9
      + 0x1000_0000_0000_0000_0000_0000_0000_0000_0000_0000_0000_0000_0000_0000_0000_0000_0000 * x10
      + 0x80_0000_0000_0000_0000_0000_0000_0000_0000_0000_0000_0000_0000_0000_0000_0000_0000_0000_0000 * x11
  {
  }

  /** One Horner step on the suffix of x that starts at limb k. */
  lemma EvalSuffixStep(x: Limbs, k: nat)
    requires k < LimbCount
    ensures EvalAt(x[k..], k) == x[k] + Radix(k) * EvalAt(x[k + 1..], k + 1)
  {
    assert x[k..][1..] == x[k + 1..];
  }

  /** Tight limbs from position i represent a value below the capacity of those positions. */
  lemma {:induction false} TightAtBound(s: seq<nat>, i: nat)
    requires i + |s| == LimbCount
    requires TightAt(s, i)
    ensures EvalAt(s, i) < Capacity(i)
    decreases |s|
  {
    if |s| > 0 {
      assert TightAt(s[1..], i + 1) by {
        forall k | 0 <= k < |s[1..]|
          ensures s[1..][k] < Radix(i + 1 + k)
        {
          assert s[1..][k] == s[k + 1];
        }
      }
      TightAtBound(s[1..], i + 1);
      MulMonotone(Radix(i), EvalAt(s[1..], i + 1) + 1, Capacity(i + 1));
    }
  }

  /** A tight field element is below 2^321. */
  lemma TightBound(x: Limbs)
    requires Tight(x)
    ensures Eval(x) < TwoTo321
  {
    TightAtBound(x, 0);
    CapacityValue();
  }

  // ---------------------------------------------------------------------
  // Round trips between values and tight limbs
  // ---------------------------------------------------------------------

  /** Decomposing n < Capacity(i) into tight limbs and evaluating gives n back. */
  lemma {:induction false} EvalOfToLimbsAt(n: nat, i: nat)
    requires i <= LimbCount
    requires n < Capacity(i)
    ensures EvalAt(ToLimbsAt(n, i), i) == n
    decreases LimbCount - i
  {
    if i < LimbCount {
      var radix := Radix(i);
      DivModSplit(n, radix, Capacity(i + 1));
      EvalOfToLimbsAt(n / radix, i + 1);
      var r := ToLimbsAt(n, i);
      assert r[1..] == ToLimbsAt(n / radix, i + 1);
    }
  }

  /** Evaluating tight limbs and decomposing the value gives the same limbs back. */
  lemma {:induction false} ToLimbsAtOfEval(s: seq<nat>, i: nat)
    requires i + |s| == LimbCount
    requires TightAt(s, i)
    ensures ToLimbsAt(EvalAt(s, i), i) == s
    decreases |s|
  {
    if |s| > 0 {
      assert TightAt(s[1..], i + 1) by {
        forall k | 0 <= k < |s[1..]|
          ensures s[1..][k] < Radix(i + 1 + k)
        {
          assert s[1..][k] == s[k + 1];
        }
      }
      var radix := Radix(i);
      var hi := EvalAt(s[1..], i + 1);
      DivModOfDigit(s[0], radix, hi);
      ToLimbsAtOfEval(s[1..], i + 1);
      assert ToLimbsAt(EvalAt(s, i), i) == [s[0]] + s[1..];
    }
  }

  /** Every value below 2^321 has tight limbs that evaluate to it. */
  lemma EvalOfToLimbs(n: nat)
    requires n < TwoTo321
    ensures Eval(ToLimbs(n)) == n
  {
    CapacityValue();
    EvalOfToLimbsAt(n, 0);
  }

  /** Tight limbs are the decomposition of their own value. */
  lemma ToLimbsOfEval(x: Limbs)
    requires Tight(x)
    ensures ToLimbs(Eval(x)) == x
  {
    ToLimbsAtOfEval(x, 0);
  }

  /** Two tight limb vectors are equal exactly when they represent the same integer. */
  lemma TightUnique(x: Limbs, y: Limbs)
    requires Tight(x) && Tight(y)
    ensures x == y <==> Eval(x) == Eval(y)
  {
    if Eval(x) == Eval(y) {
      ToLimbsOfEval(x);
      ToLimbsOfEval(y);
    }
  }

  /** Limb 0 of p is 2^27 - 9 and every other limb is all ones in its width. */
  lemma ModulusLimbsPattern()
    ensures ModulusLimbs[0] == Radix(0) - 9
    ensures forall i :: 1 <= i < LimbCount ==> ModulusLimbs[i] == Radix(i) - 1
    ensures forall i :: 0 <= i < LimbCount ==> ModulusLimbs[i] == ModulusLimb(i)
  {
  }

  /** Each limb constant of p fits its limb. */
  lemma ModulusLimbBound(i: nat)
    requires i < LimbCount
    ensures ModulusLimb(i) < Radix(i)
  {
  }

  /** The Horner value of p's limb constants from limb 0 is p. */
  lemma ModulusFromValue()
    ensures ModulusFrom(0) == Modulus
  {
    assert ModulusFrom(11) == 0x3ff_ffff;
    assert ModulusFrom(8) == 0x7ff_ffff + 0x800_0000 * (0x7ff_ffff + 0x800_0000 * (0x7ff_ffff + 0x800_0000 * 0x3ff_ffff));
    assert ModulusFrom(4) == 0x7ff_ffff + 0x800_0000 * (0x7ff_ffff + 0x800_0000 * (0x7ff_ffff + 0x800_0000 * (0x3ff_ffff + 0x400_0000 * ModulusFrom(8))));
    assert ModulusFrom(0) == 0x7ff_fff7 + 0x800_0000 * (0x7ff_ffff + 0x800_0000 * (0x7ff_ffff + 0x800_0000 * (0x3ff_ffff + 0x400_0000 * ModulusFrom(4))));
  }

  /** p's limbs fit their widths. */
  lemma ModulusLimbsTight()
    ensures Tight(ModulusLimbs)
  {
  }

  /** p's limbs evaluate to p = 2^321 - 9. */
  lemma ModulusLimbsValue()
    ensures Eval(ModulusLimbs) == Modulus
  {
    EvalExpanded(ModulusLimbs);
  }

  /**
   The constants of the routine are p's own limbs: the literal limbs agree
   with the per-limb table the chains use, limb 0 is 2^27 - 9, each other
   limb is all ones in its width, they are tight, they evaluate to
   p = 2^321 - 9, and they are the reference decomposition of p.
   */
  lemma ModulusLimbsDecomposeModulus()
    ensures forall i :: 0 <= i < LimbCount ==> ModulusLimbs[i] == ModulusLimb(i)
    ensures ModulusLimbs[0] == Radix(0) - 9
    ensures forall i :: 1 <= i < LimbCount ==> ModulusLimbs[i] == Radix(i) - 1
    ensures Tight(ModulusLimbs)
    ensures Eval(ModulusLimbs) == Modulus
    ensures ToLimbs(Modulus) == ModulusLimbs
  {
    ModulusLimbsPattern();
    ModulusLimbsTight();
    ModulusLimbsValue();
    ToLimbsOfEval(ModulusLimbs);
  }
}
