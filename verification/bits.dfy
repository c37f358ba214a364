/** Python's `&` and `|` on non-negative integers, defined bit by bit from
    the least significant end, and the facts about them that subnet
    arithmetic needs: a mask of high ones keeps the high bits and clears the
    low ones, and a mask of low ones sets the low bits. */
module Bits {

  function Pow2(n: nat): (p: nat)
    ensures p >= 1
  {
    if n == 0 then 1 else 2 * Pow2(n - 1)
  }

  lemma {:induction false} Pow2Monotone(a: nat, b: nat)
    requires a <= b
    ensures Pow2(a) <= Pow2(b)
    decreases b
  {
    if a < b {
      Pow2Monotone(a, b - 1);
    }
  }

  /** `k` one-bits followed by `j` zero-bits. */
  function OnesThenZeros(k: nat, j: nat): nat
    decreases j
  {
    if j == 0 then Pow2(k) - 1 else 2 * OnesThenZeros(k, j - 1)
  }

  /** The value of the low `j` bits of `a`. */
  function LowBits(a: nat, j: nat): (r: nat)
    ensures r < Pow2(j)
    decreases j
  {
    if j == 0 then 0 else 2 * LowBits(a / 2, j - 1) + a % 2
  }

  /** `a & b` */
  function And(a: nat, b: nat): (r: nat)
    ensures r <= a && r <= b
    decreases a
  {
    if a == 0 || b == 0 then 0
    else 2 * And(a / 2, b / 2) + (if a % 2 == 1 && b % 2 == 1 then 1 else 0)
  }

  /** `a | b` */
  function Or(a: nat, b: nat): (r: nat)
    ensures a <= r && b <= r && r <= a + b
    decreases a + b
  {
    if a == 0 then b
    else if b == 0 then a
    else 2 * Or(a / 2, b / 2) + (if a % 2 == 1 || b % 2 == 1 then 1 else 0)
  }

  /** `&` with the same operand twice changes nothing more. */
  lemma {:induction false} AndIdempotent(a: nat, b: nat)
    ensures And(And(a, b), b) == And(a, b)
    decreases a
  {
    if a != 0 && b != 0 {
      var x := And(a, b);
      AndIdempotent(a / 2, b / 2);
      assert x / 2 == And(a / 2, b / 2);
      assert x % 2 == (if a % 2 == 1 && b % 2 == 1 then 1 else 0);
    }
  }

  /** `|` of two numbers below `2^n` stays below `2^n`. */
  lemma {:induction false} OrBelow(a: nat, b: nat, n: nat)
    requires a < Pow2(n) && b < Pow2(n)
    ensures Or(a, b) < Pow2(n)
    decreases n
  {
    if a != 0 && b != 0 {
      OrBelow(a / 2, b / 2, n - 1);
    }
  }

  /** The low bits of a number are at most the number. */
  lemma {:induction false} LowBitsAtMost(a: nat, j: nat)
    ensures LowBits(a, j) <= a
    decreases j
  {
    if j > 0 {
      LowBitsAtMost(a / 2, j - 1);
    }
  }

  /** A number below `2^j` is its own low `j` bits. */
  lemma {:induction false} LowBitsOfSmall(a: nat, j: nat)
    requires a < Pow2(j)
    ensures LowBits(a, j) == a
    decreases j
  {
    if j > 0 {
      LowBitsOfSmall(a / 2, j - 1);
    }
  }

  /** `a & (2^m - 1) == a` for `a` below `2^m`. */
  lemma {:induction false} AndLowOnes(a: nat, m: nat)
    requires a < Pow2(m)
    ensures And(a, Pow2(m) - 1) == a
    decreases m
  {
    if a != 0 {
      assert m >= 1;
      AndLowOnes(a / 2, m - 1);
      assert (Pow2(m) - 1) / 2 == Pow2(m - 1) - 1;
    }
  }

  lemma {:induction false} ZerosOnly(j: nat)
    ensures OnesThenZeros(0, j) == 0
    decreases j
  {
    if j > 0 {
      ZerosOnly(j - 1);
    }
  }

  /** A mask of `k` high ones over `a < 2^(k + j)` clears exactly the
      low `j` bits: `a & (ones(k) << j) == a - low_j(a)`. */
  lemma {:induction false} AndClearsLow(a: nat, k: nat, j: nat)
    requires a < Pow2(k + j)
    ensures And(a, OnesThenZeros(k, j)) == a - LowBits(a, j)
    decreases j
  {
    LowBitsAtMost(a, j);
    if j == 0 {
      AndLowOnes(a, k);
    } else if k == 0 {
      ZerosOnly(j);
      LowBitsOfSmall(a, j);
    } else if a != 0 {
      var b := OnesThenZeros(k, j);
      assert b % 2 == 0 && b / 2 == OnesThenZeros(k, j - 1);
      assert a / 2 < Pow2(k + (j - 1));
      AndClearsLow(a / 2, k, j - 1);
    }
  }

  /** A mask of `j` low ones sets exactly the low `j` bits:
      `a | (2^j - 1) == a - low_j(a) + 2^j - 1`. */
  lemma {:induction false} OrSetsLow(a: nat, j: nat, b: nat)
    requires b == Pow2(j) - 1
    ensures Or(a, b) == a - LowBits(a, j) + b
    decreases j
  {
    if j == 0 {
      assert b == 0;
    } else if a == 0 {
      LowBitsAtMost(a, j);
    } else {
      var h, c := a / 2, Pow2(j - 1) - 1;
      assert b == 2 * c + 1;
      OrOddStep(a, c);
      OrSetsLow(h, j - 1, c);
      LowBitsStep(a, j);
    }
  }

  lemma LowBitsStep(a: nat, j: nat)
    requires j > 0
    ensures a - LowBits(a, j) == 2 * (a / 2 - LowBits(a / 2, j - 1))
  {
  }

  /** One step of `|` with an odd number: the low bit comes out set. */
  lemma OrOddStep(a: nat, c: nat)
    requires a != 0
    ensures Or(a, 2 * c + 1) == 2 * Or(a / 2, c) + 1
  {
    var b := 2 * c + 1;
    assert b % 2 == 1 && b / 2 == c;
  }

  /** `k` ones followed by `j` zeros is `2^(k + j) - 2^j`. */
  lemma {:induction false} OnesThenZerosValue(k: nat, j: nat)
    ensures OnesThenZeros(k, j) + Pow2(j) == Pow2(k + j)
    decreases j
  {
    if j > 0 {
      OnesThenZerosValue(k, j - 1);
    }
  }

  /** Bit `i` of `a`, counting from the least significant bit. */
  predicate Bit(a: nat, i: nat)
    decreases i
  {
    if i == 0 then a % 2 == 1 else Bit(a / 2, i - 1)
  }

  lemma {:induction false} LowOnesBits(k: nat, i: nat)
    ensures Bit(Pow2(k) - 1, i) <==> i < k
    decreases i
  {
    if k == 0 {
      NoBitsOfZero(i);
    } else if i > 0 {
      assert (Pow2(k) - 1) / 2 == Pow2(k - 1) - 1;
      LowOnesBits(k - 1, i - 1);
    }
  }

  lemma {:induction false} NoBitsOfZero(i: nat)
    ensures !Bit(0, i)
    decreases i
  {
    if i > 0 {
      NoBitsOfZero(i - 1);
    }
  }

  /** The set bits of `k` ones followed by `j` zeros are exactly bits
      `j` to `j + k - 1`. */
  lemma {:induction false} OnesThenZerosBits(k: nat, j: nat, i: nat)
    ensures Bit(OnesThenZeros(k, j), i) <==> j <= i < j + k
    decreases j
  {
    if j == 0 {
      LowOnesBits(k, i);
    } else if i > 0 {
      OnesThenZerosBits(k, j - 1, i - 1);
    }
  }

  /** Bit `i` of `a & b` is set exactly when it is set in both operands. */
  lemma {:induction false} AndBit(a: nat, b: nat, i: nat)
    ensures Bit(And(a, b), i) <==> Bit(a, i) && Bit(b, i)
    decreases i
  {
    if a == 0 || b == 0 {
      NoBitsOfZero(i);
    } else if i > 0 {
      var r := And(a, b);
      assert r / 2 == And(a / 2, b / 2);
      AndBit(a / 2, b / 2, i - 1);
    }
  }

  /** Bit `i` of `a | b` is set exactly when it is set in either operand. */
  lemma {:induction false} OrBit(a: nat, b: nat, i: nat)
    ensures Bit(Or(a, b), i) <==> Bit(a, i) || Bit(b, i)
    decreases i
  {
    if a == 0 || b == 0 {
      NoBitsOfZero(i);
    } else if i > 0 {
      var r := Or(a, b);
      assert r / 2 == Or(a / 2, b / 2);
      OrBit(a / 2, b / 2, i - 1);
    }
  }
}
