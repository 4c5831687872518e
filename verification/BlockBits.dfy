/** Bits of 64-bit blocks: `|`, `&` and `~` by bits, `<<` and `>>` by arithmetic, and how they fit together. */
module BlockBits {
  import opened Words

  const BLOCK_BITS: nat := 64

  predicate Bit(x: nat, k: nat) {
    if k == 0 then x % 2 == 1 else Bit(x / 2, k - 1)
  }

  /** The number fits in `n` bits. */
  predicate Fits(x: nat, n: nat) { if n == 0 then x == 0 else Fits(x / 2, n - 1) }

  function Or(x: nat, y: nat): nat
    decreases x + y
  {
    if x == 0 && y == 0 then 0
    else (if x % 2 == 1 || y % 2 == 1 then 1 else 0) + 2 * Or(x / 2, y / 2)
  }

  function And(x: nat, y: nat): nat
    decreases x + y
  {
    if x == 0 && y == 0 then 0
    else (if x % 2 == 1 && y % 2 == 1 then 1 else 0) + 2 * And(x / 2, y / 2)
  }

  /** `~x` on `n` bits. */
  function Not(x: nat, n: nat): nat {
    if n == 0 then 0 else 1 - x % 2 + 2 * Not(x / 2, n - 1)
  }

  /** `x << b` on a block: what passes the top bit is lost. */
  function Shl(x: nat, b: nat): nat { LowBits(ShiftLeft(x, b), BLOCK_BITS) }

  function Shr(x: nat, b: nat): nat { ShiftRight(x, b) }

  /** The low bits are the remainder modulo 2^n, and a number fits in `n` bits when it is below 2^n. */
  lemma {:induction false} LowBitsAreRemainder(x: nat, n: nat)
    ensures x == LowBits(x, n) + ShiftLeft(Shr(x, n), n)
    ensures LowBits(x, n) < ShiftLeft(1, n)
    ensures Fits(x, n) <==> x < ShiftLeft(1, n)
  {
    if n > 0 {
      LowBitsAreRemainder(x / 2, n - 1);
    }
  }

  lemma HalvesAndBits(x: nat, y: nat)
    ensures Or(x, y) / 2 == Or(x / 2, y / 2)
    ensures Or(x, y) % 2 == if x % 2 == 1 || y % 2 == 1 then 1 else 0
    ensures And(x, y) / 2 == And(x / 2, y / 2)
    ensures And(x, y) % 2 == if x % 2 == 1 && y % 2 == 1 then 1 else 0
  {
  }

  lemma {:induction false} BitsOfOr(x: nat, y: nat, k: nat)
    ensures Bit(Or(x, y), k) == (Bit(x, k) || Bit(y, k))
    decreases k
  {
    hide Or;
    HalvesAndBits(x, y);
    if k > 0 { BitsOfOr(x / 2, y / 2, k - 1); }
  }

  lemma {:induction false} BitsOfAnd(x: nat, y: nat, k: nat)
    ensures Bit(And(x, y), k) == (Bit(x, k) && Bit(y, k))
    decreases k
  {
    hide And;
    HalvesAndBits(x, y);
    if k > 0 { BitsOfAnd(x / 2, y / 2, k - 1); }
  }

  lemma {:induction false} BitsOfNot(x: nat, n: nat, k: nat)
    ensures Bit(Not(x, n), k) == (k < n && !Bit(x, k))
  {
    if n == 0 {
      NoBits(0, 0, k);
    } else {
      assert Not(x, n) / 2 == Not(x / 2, n - 1);
      if k > 0 { BitsOfNot(x / 2, n - 1, k - 1); }
    }
  }

  lemma {:induction false} BitsOfLowBits(x: nat, n: nat, k: nat)
    ensures Bit(LowBits(x, n), k) == (k < n && Bit(x, k))
  {
    if n == 0 {
      NoBits(0, 0, k);
    } else {
      assert LowBits(x, n) / 2 == LowBits(x / 2, n - 1);
      if k > 0 { BitsOfLowBits(x / 2, n - 1, k - 1); }
    }
  }

  lemma {:induction false} BitsOfShiftLeft(x: nat, b: nat, k: nat)
    ensures Bit(ShiftLeft(x, b), k) == (k >= b && Bit(x, k - b))
    decreases b
  {
    if b > 0 {
      assert ShiftLeft(x, b) / 2 == ShiftLeft(x, b - 1);
      if k > 0 { BitsOfShiftLeft(x, b - 1, k - 1); }
    }
  }

  lemma {:induction false} BitsOfShl(x: nat, b: nat, k: nat)
    ensures Bit(Shl(x, b), k) == (b <= k < BLOCK_BITS && Bit(x, k - b))
  {
    BitsOfLowBits(ShiftLeft(x, b), BLOCK_BITS, k);
    BitsOfShiftLeft(x, b, k);
  }

  lemma {:induction false} BitsOfShr(x: nat, b: nat, k: nat)
    ensures Bit(Shr(x, b), k) == Bit(x, k + b)
    decreases b
  {
    if b > 0 { BitsOfShr(x / 2, b - 1, k); }
  }

  lemma {:induction false} BitsOfOne(b: nat, k: nat)
    ensures Bit(ShiftLeft(1, b), k) == (k == b)
  {
    BitsOfShiftLeft(1, b, k);
    if k > b { NoBits(1, 1, k - b); }
  }

  /** A number of `n` bits has no bit from `n` on. */
  lemma {:induction false} NoBits(x: nat, n: nat, k: nat)
    requires Fits(x, n) && k >= n
    ensures !Bit(x, k)
    decreases k
  {
    if n > 0 {
      NoBits(x / 2, n - 1, k - 1);
    } else if k > 0 {
      NoBits(0, 0, k - 1);
    }
  }

  lemma {:induction false} OrFits(x: nat, y: nat, n: nat)
    requires Fits(x, n) && Fits(y, n)
    ensures Fits(Or(x, y), n)
  {
    if n > 0 {
      OrFits(x / 2, y / 2, n - 1);
      assert Or(x, y) / 2 == Or(x / 2, y / 2);
    }
  }

  lemma {:induction false} AndFits(x: nat, y: nat, n: nat)
    requires Fits(x, n)
    ensures Fits(And(x, y), n)
  {
    if n > 0 {
      AndFits(x / 2, y / 2, n - 1);
      assert And(x, y) / 2 == And(x / 2, y / 2);
    } else {
      AndZero(y);
    }
  }

  lemma {:induction false} AndZero(y: nat)
    ensures And(0, y) == 0
  {
    if y > 0 { AndZero(y / 2); }
  }

  lemma {:induction false} AndZeroRight(x: nat)
    ensures And(x, 0) == 0
  {
    if x > 0 { AndZeroRight(x / 2); }
  }

  lemma {:induction false} LowBitsFits(x: nat, n: nat)
    ensures Fits(LowBits(x, n), n)
    ensures Fits(x, n) ==> LowBits(x, n) == x
  {
    if n > 0 {
      LowBitsFits(x / 2, n - 1);
      assert LowBits(x, n) / 2 == LowBits(x / 2, n - 1);
    }
  }

  lemma {:induction false} ShrFits(x: nat, b: nat, n: nat)
    requires Fits(x, n)
    ensures Fits(Shr(x, b), n)
    decreases b
  {
    if b > 0 {
      HalfFits(x, n);
      ShrFits(x / 2, b - 1, n);
    }
  }

  lemma {:induction false} HalfFits(x: nat, n: nat)
    requires Fits(x, n)
    ensures Fits(x / 2, n)
  {
    if n > 0 { HalfFits(x / 2, n - 1); }
  }

  lemma {:induction false} OneFits(k: nat, n: nat)
    requires k < n
    ensures Fits(ShiftLeft(1, k), n)
    decreases n
  {
    if k > 0 {
      OneFits(k - 1, n - 1);
    } else {
      ZeroFits(n - 1);
    }
  }

  lemma {:induction false} ZeroFits(n: nat)
    ensures Fits(0, n)
  {
    if n > 0 { ZeroFits(n - 1); }
  }

  lemma {:induction false} OrCommutes(x: nat, y: nat)
    ensures Or(x, y) == Or(y, x)
    decreases x + y
  {
    if x > 0 || y > 0 { OrCommutes(x / 2, y / 2); }
  }

  lemma {:induction false} OrZero(x: nat)
    ensures Or(x, 0) == x && Or(0, x) == x
  {
    if x > 0 { OrZero(x / 2); }
  }
}
