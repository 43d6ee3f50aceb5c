/**
 Word-level primitives used by the generated freeze routine: powers of two,
 width-parameterised subtract-with-borrow and add-with-carry, the
 conditional move that turns a flag into a mask, and the 32-bit bitwise AND
 that applies the mask to a constant.

 Words and flags are unbounded naturals; every truncation to a width is
 written out with `% Pow2(w)`.
 */
module Words {

  /** 2^n */
  function Pow2(n: nat): nat
  {
    if n == 0 then 1 else 2 * Pow2(n - 1)
  }

  lemma {:induction false} Pow2Positive(n: nat)
    ensures Pow2(n) >= 1
  {
    if n > 0 {
      Pow2Positive(n - 1);
    }
  }

  /** Exponents add when powers of two multiply. */
  lemma {:induction false} Pow2Add(a: nat, b: nat)
    ensures Pow2(a + b) == Pow2(a) * Pow2(b)
  {
    if a > 0 {
      Pow2Add(a - 1, b);
      assert Pow2(a + b) == 2 * Pow2(a - 1 + b);
    }
  }

  /** The three word sizes the routine works with: 26- and 27-bit limbs, 32-bit machine words. */
  lemma Pow2Values()
    ensures Pow2(26) == 0x400_0000
    ensures Pow2(27) == 0x800_0000
    ensures Pow2(32) == 0x1_0000_0000
  {
    Pow2Add(13, 13);
    Pow2Add(26, 1);
    Pow2Add(16, 16);
  }

  /** Reducing a value in [-m, m) modulo m adds m exactly when the value is negative. */
  lemma ModOneWrap(x: int, m: int)
    requires m > 0
    ensures -m <= x < 0 ==> x % m == x + m
    ensures 0 <= x < m ==> x % m == x
    ensures m <= x < 2 * m ==> x % m == x - m
  {
  }

  /** A positive factor does not shrink a positive multiplier. */
  lemma MulAtLeast(a: int, b: int)
    requires a > 0 && b >= 1
    ensures a * b >= a
  {
  }

  /** Multiplying by a natural number preserves order. */
  lemma MulMonotone(a: nat, b: int, c: int)
    requires b <= c
    ensures a * b <= a * c
  {
  }

  /** Scaling a Horner step distributes over its two parts. */
  lemma ScaleHornerStep(digit: int, radix: int, rest: int, scale: int)
    ensures (digit + radix * rest) * scale == digit * scale + rest * (scale * radix)
  {
  }

  /** A digit below the radix plus a multiple of the radix splits back into that digit and multiple. */
  lemma DivModOfDigit(d: nat, radix: nat, q: nat)
    requires d < radix
    ensures (d + radix * q) % radix == d
    ensures (d + radix * q) / radix == q
  {
    var n := d + radix * q;
    var q' := n / radix;
    var r' := n % radix;
    assert radix * q' + r' == radix * q + d;
    assert radix * (q' - q) == d - r';
    if q' > q {
      MulAtLeast(radix, q' - q);
    } else if q' < q {
      MulAtLeast(radix, q - q');
    }
  }

  /** Splitting n by a radix and recombining gives n back, and the quotient shrinks accordingly. */
  lemma DivModSplit(n: nat, radix: nat, cap: nat)
    requires radix > 0
    requires n < radix * cap
    ensures n == n % radix + radix * (n / radix)
    ensures n / radix < cap
  {
    if n / radix >= cap {
      MulMonotone(radix, cap, n / radix);
    }
  }

  /** All ones in a 32-bit word. */
  const AllOnes32: nat := 0xffff_ffff

  /** A word together with the borrow or carry flag that comes out of the same operation. */
  datatype WordFlag = WordFlag(word: nat, flag: nat)

  /**
   Subtract-with-borrow at width w: computes a - b - borrowIn, keeps the low
   w bits, and reports a borrow exactly when the difference is negative.
   */
  function SubBorrow(w: nat, borrowIn: nat, a: nat, b: nat): (r: WordFlag)
    ensures r.word < Pow2(w)
    ensures r.flag <= 1
    ensures r.flag == 1 <==> a < b + borrowIn
    ensures b + borrowIn <= a + Pow2(w) && a < b + borrowIn + Pow2(w) ==> r.word + b + borrowIn == a + r.flag * Pow2(w)
  {
    Pow2Positive(w);
    var diff := a - b - borrowIn;
    ModOneWrap(diff, Pow2(w));
    WordFlag(diff % Pow2(w), if diff < 0 then 1 else 0)
  }

  /**
   Add-with-carry at width w: computes a + b + carryIn, keeps the low w bits,
   and reports a carry exactly when the sum does not fit in w bits.
   */
  function AddCarry(w: nat, carryIn: nat, a: nat, b: nat): (r: WordFlag)
    ensures r.word < Pow2(w)
    ensures r.flag <= 1
    ensures r.flag == 1 <==> a + b + carryIn >= Pow2(w)
    ensures a + b + carryIn < 2 * Pow2(w) ==> r.word + r.flag * Pow2(w) == a + b + carryIn
  {
    Pow2Positive(w);
    var sum := a + b + carryIn;
    ModOneWrap(sum, Pow2(w));
    WordFlag(sum % Pow2(w), if sum >= Pow2(w) then 1 else 0)
  }

  /** Constant-time select: z when the condition word t is zero, nz otherwise. */
  function CondSelect(t: nat, z: nat, nz: nat): nat
  {
    if t == 0 then z else nz
  }

  /** Bitwise AND of the low n bits of a and b. */
  function BitAnd(a: nat, b: nat, n: nat): nat
  {
    if n == 0 then 0
    else (if a % 2 == 1 && b % 2 == 1 then 1 else 0) + 2 * BitAnd(a / 2, b / 2, n - 1)
  }

  /** AND with the all-zeros word clears every bit. */
  lemma {:induction false} BitAndZero(b: nat, n: nat)
    ensures BitAnd(0, b, n) == 0
  {
    if n > 0 {
      BitAndZero(b / 2, n - 1);
    }
  }

  /** AND with the all-ones word of width n keeps any value that fits in n bits. */
  lemma {:induction false} BitAndOnes(b: nat, n: nat)
    requires b < Pow2(n)
    ensures BitAnd(Pow2(n) - 1, b, n) == b
  {
    if n > 0 {
      Pow2Positive(n - 1);
      assert (Pow2(n) - 1) / 2 == Pow2(n - 1) - 1;
      assert (Pow2(n) - 1) % 2 == 1;
      BitAndOnes(b / 2, n - 1);
    }
  }

  /** The 32-bit `&` of the C code. */
  function And32(a: nat, b: nat): nat
  {
    BitAnd(a, b, 32)
  }

  /**
   A mask that is either all zeros or all ones selects, under `&`, either
   nothing or the whole of a 32-bit constant.
   */
  function MaskedConstant(mask: nat, c: nat): (r: nat)
    requires mask == 0 || mask == AllOnes32
    requires c < Pow2(32)
    ensures mask == 0 ==> r == 0
    ensures mask == AllOnes32 ==> r == c
  {
    Pow2Values();
    BitAndZero(c, 32);
    BitAndOnes(c, 32);
    And32(mask, c)
  }
}
