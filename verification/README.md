# Freeze for p = 2^321 - 9, twelve mixed-radix limbs

This project models `freeze`, the constant-time canonicalisation routine of the
`solinas32_2e321m9_12limbs` field. A field element is twelve unsigned limbs in
mixed radix. Limbs 3, 7 and 11 hold 26 bits and every other limb holds 27 bits,
321 bits in all. `freeze` takes such an element and returns its unique
canonical representative: every limb below its radix and the value below p.
It works in three stages:

1. a subtract-with-borrow chain computes `in - p` limb by limb (the constants
   are p's limbs: `0x7fffff7` for limb 0, `0x3ffffff` for the 26-bit limbs and
   `0x7ffffff` for the rest);
2. a conditional move turns the final borrow into a mask that is all ones
   when the borrow is set (the input was below p) and all zeros otherwise;
3. an add-with-carry chain adds `mask & p[k]` back to every limb and drops
   the final carry.

The Dafny files follow that structure:

- `words.dfy` (module `Words`) holds the word primitives. These are
  subtract-with-borrow and add-with-carry at a given width (the 27-bit `Op`
  forms and the 26-bit intrinsics), the `cmovznz32` select and the 32-bit `&`.
  Words are naturals, and every truncation is written as `% 2^w`.
- `field.dfy` (module `Field`) holds the representation. It defines the limb
  widths, the value of a limb vector (`Eval`, in Horner form, shown equal to
  the positional sum), the tight bound, and `ToLimbs`, the reference
  decomposition of a number into tight limbs. It also defines p's limbs.
- `freeze.dfy` (module `FreezeRoutine`) holds the routine itself: the two
  chains, the mask and `Freeze`.
- `freeze_properties.dfy` (module `FreezeProperties`) holds properties that
  relate several calls: agreement with the reference decomposition,
  idempotence, equality modulo p, the dropped carry, and the boundary inputs.

The C code unrolls each chain into twelve straight-line steps. The model
writes each chain as one step per limb that recurses on the limb index, with
each limb's width and constant taken from a per-limb table. The steps it
performs are the same.

Two facts about the code that the model makes explicit:

- The mask has the polarity that makes the result `in mod p`.
  `cmovznz32(x58, 0x0, 0xffffffff)` gives all ones exactly when the borrow
  `x58` is set, so p is added back exactly when the input was below p
  (`FreezeRoutine.BorrowMask`, `FreezeRoutine.Freeze`).
- The carry dropped at line 50 is not always zero. It equals the final
  borrow `x58` of the subtract chain: it is 1 whenever p was added back, and
  dropping it is what cancels the 2^321 that the subtraction borrowed
  (`FreezeProperties.FinalCarryCancelsBorrow`).

## Model

| member | source | states |
|---|---|---|
| Words.SubBorrow | src/Specific/solinas32_2e321m9_12limbs/freeze.c:14-25 | the word is below 2^w; the borrow is 0 or 1, and it is set exactly when a < b + borrowIn; whenever a − b − borrowIn lies in [−2^w, 2^w), word + b + borrowIn = a + borrow·2^w |
| Words.AddCarry | src/Specific/solinas32_2e321m9_12limbs/freeze.c:28-50 | the word is below 2^w; the carry is 0 or 1, and it is set exactly when a + b + carryIn ≥ 2^w; for sums below 2^(w+1), word + carry·2^w = a + b + carryIn |
| Words.MaskedConstant | src/Specific/solinas32_2e321m9_12limbs/freeze.c:27-49 | under `&`, an all-zeros mask gives 0 and an all-ones mask gives the whole 32-bit constant |
| FreezeRoutine.BorrowMask | src/Specific/solinas32_2e321m9_12limbs/freeze.c:26 | the mask is either 0 or 0xffffffff, and it is all ones exactly when the borrow is nonzero |
| FreezeRoutine.SubChain | src/Specific/solinas32_2e321m9_12limbs/freeze.c:14-25 | from limb i up, the difference limbs are tight, the final borrow is 0 or 1, and difference + p's limbs + incoming borrow = x's limbs + final borrow·2^(bits of limbs i..11) |
| FreezeRoutine.SubtractModulus | src/Specific/solinas32_2e321m9_12limbs/freeze.c:2-25 | the twelve difference limbs are tight and equal in − p + borrow·2^321, and the borrow is set exactly when in < p |
| FreezeRoutine.AddChain | src/Specific/solinas32_2e321m9_12limbs/freeze.c:27-50 | from limb i up, the sum limbs are tight, the final carry is 0 or 1, and sum + carry·2^(bits of limbs i..11) = d's limbs + incoming carry, plus p's limbs when the mask is all ones |
| FreezeRoutine.AddModulusMasked | src/Specific/solinas32_2e321m9_12limbs/freeze.c:27-50 | the twelve sum limbs are tight, and sum + carry·2^321 = d + p under the all-ones mask, and = d under the all-zeros mask |
| FreezeRoutine.Freeze | src/Specific/solinas32_2e321m9_12limbs/freeze.c:1-64 | for tight input, the output is tight, below p, and represents the input's value mod p |
| FreezeRoutine.ConditionalReduction | src/Specific/solinas32_2e321m9_12limbs/freeze.c:25-50 | for a value below 2^321, subtracting p with borrow b, adding p back exactly when b is set and dropping carry c leaves the value mod p, with c = b |
| FreezeProperties.FinalCarryCancelsBorrow | src/Specific/solinas32_2e321m9_12limbs/freeze.c:50 | the carry discarded at the last limb equals the subtract chain's final borrow |
| FreezeProperties.FreezeIsCanonical | src/Specific/solinas32_2e321m9_12limbs/freeze.c:51-62 | the output limbs are exactly the reference tight decomposition of (input value mod p) |
| FreezeProperties.FreezeFixesCanonical | src/Specific/solinas32_2e321m9_12limbs/freeze.c:1-64 | freeze returns its input unchanged if and only if the input's value is below p |
| FreezeProperties.FreezeIdempotent | src/Specific/solinas32_2e321m9_12limbs/freeze.c:1-64 | freezing a frozen element changes nothing |
| FreezeProperties.FreezeDecidesCongruence | src/Specific/solinas32_2e321m9_12limbs/freeze.c:1-64 | two tight inputs freeze to the same limbs if and only if their values are congruent mod p |
| FreezeProperties.FreezeOfZero | src/Specific/solinas32_2e321m9_12limbs/freeze.c:1-64 | freeze(0) = 0 |
| FreezeProperties.FreezeOfModulusMinusOne | src/Specific/solinas32_2e321m9_12limbs/freeze.c:1-64 | freeze(p − 1) = p − 1 |
| FreezeProperties.FreezeOfModulus | src/Specific/solinas32_2e321m9_12limbs/freeze.c:1-64 | freeze(p) = 0 |
| Field.ModulusLimbsDecomposeModulus | src/Specific/solinas32_2e321m9_12limbs/freeze.c:14-49 | the literal limbs of p equal the per-limb constants ModulusLimb(i) that both chains subtract and add back, and they are p's limbs: 2^27 − 9 for limb 0 and all ones in its width for every other limb. They are tight, they represent 2^321 − 9, and they are the reference decomposition of p |
| Field.ModulusIsSolinas | src/Specific/solinas32_2e321m9_12limbs/freeze.c:14-25 | the modulus is 2^321 − 9, where 2^321 is the total width of the twelve limbs |
| Field.EvalIsWeightedSum | src/Specific/solinas32_2e321m9_12limbs/freeze.c:1 | the value of a limb vector is the sum of limb k times 2^(offset of limb k), with the offsets 0, 27, 54, 81, 107, … |
| Field.TightBound | src/Specific/solinas32_2e321m9_12limbs/freeze.c:1 | a tight limb vector represents a value below 2^321 |
| Field.ToLimbs | src/Specific/solinas32_2e321m9_12limbs/freeze.c:51-62 | the reference decomposition yields tight limbs |
| Field.EvalOfToLimbs | src/Specific/solinas32_2e321m9_12limbs/freeze.c:51-62 | decomposing a number below 2^321 and evaluating gives the number back |
| Field.ToLimbsOfEval | src/Specific/solinas32_2e321m9_12limbs/freeze.c:51-62 | evaluating tight limbs and decomposing gives the limbs back |
| Field.TightUnique | src/Specific/solinas32_2e321m9_12limbs/freeze.c:51-62 | two tight limb vectors are equal if and only if they represent the same value |

## Left out

- Constant time. The model is a pure function over values. It has no notion
  of timing or memory access. `BorrowMask` is a select written with `if`,
  standing for `cmovznz32`, and the masking `&` is modelled bit by bit.
- Machine representation. The `uint32_t` limbs and the `uint8_t` flags are
  unbounded naturals. The truncation each primitive performs is written
  explicitly as `% 2^w`, and the flags are proved to be 0 or 1.
- Memory. `in1` is only read and `out` is written once per limb. Because the
  model takes an immutable input and returns a fresh value, both hold by
  construction, and there is no aliasing to model.
- FreezeRoutine.Freeze: requires tight input limbs, each below 2^27 or 2^26.
  This is a choice of what to model. The routine also reduces some looser
  inputs correctly: each subtract step stays exact as long as that limb's
  difference x[i] − p[i] − borrow lies in [−2^Width(i), 2^Width(i)), the
  range `Words.SubBorrow` states its word equation for. For example, a limb
  vector of value 2p − 1 with limb 0 = 2^28 − 19 and every other limb twice
  p's limb is reduced to p − 1. Inputs that are not tight are not covered.
  Because of that choice, `freeze(2p − 1) = p − 1` is not stated: 2p − 1 has
  no tight representation, since every tight value lies below 2^321.
- The `Op (Syntax.SubWithGetBorrow 27 …)` and `Op (Syntax.AddWithGetCarry 27 …)`
  forms, and the `_subborrow_u26` and `_addcarryx_u26` intrinsics, are given
  their standard meaning. Their definitions are not part of this model.
