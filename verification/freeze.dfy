/**
 The freeze routine for p = 2^321 - 9: it subtracts p from a tightly bounded
 limb vector with a borrow chain, turns the final borrow into an all-zeros or
 all-ones mask, and adds p back under that mask with a carry chain whose final
 carry is dropped. The result is the canonical limb vector of the input's
 value modulo p.

 The C code unrolls both chains into twelve straight-line steps; here each
 chain is one step per limb, recursing on the limb index, so that the same
 per-limb argument covers all twelve.
 */
module FreezeRoutine {
  import opened Words
  import opened Field

  /** The limbs a chain produces (from some starting limb up) and the borrow or carry out of limb 11. */
  datatype ChainOut = ChainOut(limbs: seq<nat>, flag: nat)

  /**
   One limb of a borrow chain, scaled into Horner form: if the limbs above
   satisfy the chain equation and this limb does too, so do both together.
   */
  lemma BorrowStep(dk: int, pk: int, bk: int, xk: int, bNext: int, radix: int,
                   dHi: int, pHi: int, xHi: int, bLast: int, capHi: int)
    requires dk + pk + bk == xk + bNext * radix
    requires dHi + pHi + bNext == xHi + bLast * capHi
    ensures (dk + radix * dHi) + (pk + radix * pHi) + bk == (xk + radix * xHi) + bLast * (radix * capHi)
  {
    assert radix * (dHi + pHi) == radix * (xHi + bLast * capHi) - radix * bNext;
  }

  /**
   One limb of a carry chain, scaled into Horner form: if the limbs above
   satisfy the chain equation and this limb does too, so do both together.
   */
  lemma CarryStep(ok: int, cNext: int, radix: int, dk: int, ek: int, ck: int,
                  oHi: int, cLast: int, capHi: int, dHi: int, eHi: int)
    requires ok + cNext * radix == dk + ek + ck
    requires oHi + cLast * capHi == dHi + eHi + cNext
    ensures (ok + radix * oHi) + cLast * (radix * capHi) == (dk + radix * dHi) + (ek + radix * eHi) + ck
  {
    assert radix * (oHi + cLast * capHi) == radix * (dHi + eHi) + radix * cNext;
  }

  /** Prepending a limb that fits limb i to tight limbs from i + 1 gives tight limbs from i. */
  lemma TightAtCons(w: nat, rest: seq<nat>, i: nat)
    requires i + 1 + |rest| <= LimbCount
    requires w < Radix(i)
    requires TightAt(rest, i + 1)
    ensures TightAt([w] + rest, i)
  {
    assert forall k :: 1 <= k < |rest| + 1 ==> ([w] + rest)[k] == rest[k - 1];
  }

  /**
   The subtract-with-borrow chain from limb i up: limb k of the result is
   x[k] - p[k] - borrow at width Width(k), its borrow feeding limb k + 1.
   The limbs come out tight, the borrow out of limb 11 is 0 or 1, and the
   limbs plus p's limbs plus the incoming borrow equal x's limbs plus the
   final borrow times the capacity of limbs i .. 11.
   */
  function SubChain(x: Limbs, i: nat, borrow: nat): (r: ChainOut)
    requires i <= LimbCount && borrow <= 1
    requires forall k :: i <= k < LimbCount ==> x[k] < Radix(k)
    ensures |r.limbs| == LimbCount - i
    ensures TightAt(r.limbs, i)
    ensures r.flag <= 1
    ensures EvalAt(r.limbs, i) + ModulusFrom(i) + borrow == EvalAt(x[i..], i) + r.flag * Capacity(i)
    decreases LimbCount - i
  {
    if i == LimbCount then
      ChainOut([], borrow)
    else
      RadixIsPow2(i);
      ModulusLimbBound(i);
      var s := SubBorrow(Width(i), borrow, x[i], ModulusLimb(i));
      var rest := SubChain(x, i + 1, s.flag);
      EvalSuffixStep(x, i);
      BorrowStep(s.word, ModulusLimb(i), borrow, x[i], s.flag, Radix(i),
                 EvalAt(rest.limbs, i + 1), ModulusFrom(i + 1), EvalAt(x[i + 1..], i + 1),
                 rest.flag, Capacity(i + 1));
      TightAtCons(s.word, rest.limbs, i);
      assert ([s.word] + rest.limbs)[1..] == rest.limbs;
      ChainOut([s.word] + rest.limbs, rest.flag)
  }

  /**
   Stage 1: the borrow chain computing in - p over all twelve limbs. The limbs
   come out tight, equal in - p + borrow·2^321, and the final borrow is set
   exactly when in < p.
   */
  function SubtractModulus(x: Limbs): (r: ChainOut)
    requires Tight(x)
    ensures |r.limbs| == LimbCount
    ensures TightAt(r.limbs, 0)
    ensures r.flag <= 1
    ensures EvalAt(r.limbs, 0) + Modulus == Eval(x) + r.flag * TwoTo321
    ensures r.flag == 1 <==> Eval(x) < Modulus
  {
    assert forall k :: 0 <= k < LimbCount ==> x[k] < Radix(k) by {
      forall k | 0 <= k < LimbCount ensures x[k] < Radix(k) {
        assert x[k] == x[0 + k];
      }
    }
    var r := SubChain(x, 0, 0);
    CapacityValue();
    assert x[0..] == x;
    ModulusFromValue();
    TightBound(r.limbs);
    r
  }

  /**
   Stage 2: the borrow becomes a mask through a constant-time select. The
   mask is all ones exactly when the borrow is set (the input was below p)
   and all zeros otherwise.
   */
  function BorrowMask(borrow: nat): (mask: nat)
    ensures mask == 0 || mask == AllOnes32
    ensures mask == AllOnes32 <==> borrow != 0
  {
    CondSelect(borrow, 0, AllOnes32)
  }

  /**
   The add-with-carry chain from limb i up: limb k of the result is
   d[k] + (mask & p[k]) + carry at width Width(k), its carry feeding limb
   k + 1. The limbs come out tight, the carry out of limb 11 is 0 or 1, and
   the limbs plus the final carry times the capacity of limbs i .. 11 equal
   d's limbs plus the incoming carry, plus p's limbs when the mask is all ones.
   */
  function AddChain(d: seq<nat>, mask: nat, i: nat, carry: nat): (r: ChainOut)
    requires |d| == LimbCount && i <= LimbCount && carry <= 1
    requires mask == 0 || mask == AllOnes32
    requires forall k :: i <= k < LimbCount ==> d[k] < Radix(k)
    ensures |r.limbs| == LimbCount - i
    ensures TightAt(r.limbs, i)
    ensures r.flag <= 1
    ensures EvalAt(r.limbs, i) + r.flag * Capacity(i)
      == EvalAt(d[i..], i) + (if mask == AllOnes32 then ModulusFrom(i) else 0) + carry
    decreases LimbCount - i
  {
    if i == LimbCount then
      ChainOut([], carry)
    else
      RadixIsPow2(i);
      Pow2Values();
      ModulusLimbBound(i);
      var e := MaskedConstant(mask, ModulusLimb(i));
      var a := AddCarry(Width(i), carry, d[i], e);
      var rest := AddChain(d, mask, i + 1, a.flag);
      EvalSuffixStep(d, i);
      var eHi := if mask == AllOnes32 then ModulusFrom(i + 1) else 0;
      CarryStep(a.word, a.flag, Radix(i), d[i], e, carry,
                EvalAt(rest.limbs, i + 1), rest.flag, Capacity(i + 1), EvalAt(d[i + 1..], i + 1), eHi);
      TightAtCons(a.word, rest.limbs, i);
      assert ([a.word] + rest.limbs)[1..] == rest.limbs;
      ChainOut([a.word] + rest.limbs, rest.flag)
  }

  /**
   Stage 3: the carry chain adding mask & p[k] to every limb of d. The limbs
   come out tight and, together with the final carry, equal d plus p when
   the mask is all ones and d itself when it is all zeros.
   */
  function AddModulusMasked(d: Limbs, mask: nat): (r: ChainOut)
    requires Tight(d)
    requires mask == 0 || mask == AllOnes32
    ensures |r.limbs| == LimbCount
    ensures TightAt(r.limbs, 0)
    ensures r.flag <= 1
    ensures EvalAt(r.limbs, 0) + r.flag * TwoTo321 == Eval(d) + (if mask == AllOnes32 then Modulus else 0)
  {
    assert forall k :: 0 <= k < LimbCount ==> d[k] < Radix(k) by {
      forall k | 0 <= k < LimbCount ensures d[k] < Radix(k) {
        assert d[k] == d[0 + k];
      }
    }
    var r := AddChain(d, mask, 0, 0);
    CapacityValue();
    assert d[0..] == d;
    ModulusFromValue();
    r
  }

  /**
   The freeze routine: subtract p, derive the mask from the final borrow, add
   p back under the mask and drop the final carry. The output is tight and
   represents the input's value reduced modulo p.
   */
  function Freeze(x: Limbs): (r: Limbs)
    requires Tight(x)
    ensures Tight(r)
    ensures Eval(r) == Eval(x) % Modulus
    ensures Eval(r) < Modulus
  {
    var sub := SubtractModulus(x);
    var mask := BorrowMask(sub.flag);
    var add := AddModulusMasked(sub.limbs, mask);
    TightBound(x);
    TightBound(add.limbs);
    TightBound(sub.limbs);
    ConditionalReduction(Eval(x), sub.flag, Eval(sub.limbs), add.flag, Eval(add.limbs));
    add.limbs
  }

  /**
   The arithmetic of subtract-then-add-back on values: for an input v below
   2^321 < 2p, subtracting p with borrow b, then adding p back exactly when b
   is set and dropping carry c leaves v mod p, and the dropped carry is b.
   */
  lemma ConditionalReduction(v: nat, b: nat, diff: nat, c: nat, out: nat)
    requires v < TwoTo321
    requires b <= 1 && diff < TwoTo321 && diff + Modulus == v + b * TwoTo321
    requires c <= 1 && out < TwoTo321 && out + c * TwoTo321 == diff + (if b != 0 then Modulus else 0)
    ensures c == b
    ensures out == v % Modulus
  {
    ModOneWrap(v, Modulus);
  }
}
