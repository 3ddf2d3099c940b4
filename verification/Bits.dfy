/**
 * The C bit operators on non-negative integers, defined digit by digit, and the
 * laws that say what each does to a single bit. `Bit(x, 0)` is the lowest bit.
 */
module Bits {

  type bit = b: int | 0 <= b < 2

  function Bit(x: nat, k: nat): bit
    decreases k
  {
    if k == 0 then x % 2 else Bit(x / 2, k - 1)
  }

  function And(x: nat, y: nat): nat
  {
    if x == 0 || y == 0 then 0
    else 2 * And(x / 2, y / 2) + if x % 2 == 1 && y % 2 == 1 then 1 else 0
  }

  function Or(x: nat, y: nat): nat
    decreases x
  {
    if x == 0 then y
    else if y == 0 then x
    else 2 * Or(x / 2, y / 2) + if x % 2 == 1 || y % 2 == 1 then 1 else 0
  }

  function ShiftRight(x: nat, n: nat): nat
    decreases n
  {
    if n == 0 then x else ShiftRight(x / 2, n - 1)
  }

  function ShiftLeft(x: nat, n: nat): nat
    decreases n
  {
    if n == 0 then x else 2 * ShiftLeft(x, n - 1)
  }

  /** `n` one bits. */
  function Ones(n: nat): nat
    decreases n
  {
    if n == 0 then 0 else 2 * Ones(n - 1) + 1
  }

  lemma {:induction false} BitZero(k: nat)
    ensures Bit(0, k) == 0
    decreases k
  {
    if k > 0 {
      BitZero(k - 1);
    }
  }

  lemma {:induction false} BitAnd(x: nat, y: nat, k: nat)
    ensures Bit(And(x, y), k) == if Bit(x, k) == 1 && Bit(y, k) == 1 then 1 else 0
    decreases k
  {
    BitZero(k);
    if k > 0 {
      BitAnd(x / 2, y / 2, k - 1);
    }
  }

  lemma {:induction false} BitOr(x: nat, y: nat, k: nat)
    ensures Bit(Or(x, y), k) == if Bit(x, k) == 1 || Bit(y, k) == 1 then 1 else 0
    decreases k
  {
    BitZero(k);
    if k > 0 {
      BitOr(x / 2, y / 2, k - 1);
    }
  }

  lemma {:induction false} BitShiftRight(x: nat, n: nat, k: nat)
    ensures Bit(ShiftRight(x, n), k) == Bit(x, k + n)
    decreases n
  {
    if n > 0 {
      BitShiftRight(x / 2, n - 1, k);
    }
  }

  lemma {:induction false} BitShiftLeft(x: nat, n: nat, k: nat)
    ensures Bit(ShiftLeft(x, n), k) == if k < n then 0 else Bit(x, k - n)
    decreases n
  {
    if n > 0 && k > 0 {
      BitShiftLeft(x, n - 1, k - 1);
    }
  }

  lemma {:induction false} BitOnes(n: nat, k: nat)
    ensures Bit(Ones(n), k) == if k < n then 1 else 0
    decreases k
  {
    if n == 0 {
      BitZero(k);
    } else if k > 0 {
      BitOnes(n - 1, k - 1);
    }
  }

  /** Storing into an `unsigned char` keeps the low eight bits. */
  lemma BitStored(x: nat, k: nat)
    requires k < 8
    ensures Bit(x % 256, k) == Bit(x, k)
  {
    BitLow(x, 8, k);
    LowByte(x);
  }

  /** The `n` low bits of `x`. */
  function Low(x: nat, n: nat): nat
    decreases n
  {
    if n == 0 then 0 else 2 * Low(x / 2, n - 1) + x % 2
  }

  lemma {:induction false} BitLow(x: nat, n: nat, k: nat)
    requires k < n
    ensures Bit(Low(x, n), k) == Bit(x, k)
    decreases n
  {
    if k > 0 {
      BitLow(x / 2, n - 1, k - 1);
    }
  }

  /** Numbers with the same `n` low bits have the same `n`-bit value. */
  lemma {:induction false} SameBits(x: nat, y: nat, n: nat)
    requires forall k :: 0 <= k < n ==> Bit(x, k) == Bit(y, k)
    ensures Low(x, n) == Low(y, n)
    decreases n
  {
    if n > 0 {
      assert Bit(x, 0) == Bit(y, 0);
      forall k | 0 <= k < n - 1
        ensures Bit(x / 2, k) == Bit(y / 2, k)
      {
        assert Bit(x, k + 1) == Bit(y, k + 1);
      }
      SameBits(x / 2, y / 2, n - 1);
    }
  }

  function Pow2(n: nat): (p: nat)
    ensures p >= 1
    decreases n
  {
    if n == 0 then 1 else 2 * Pow2(n - 1)
  }

  lemma HalveRemainder(x: nat, m: nat)
    requires m > 0
    ensures x % (2 * m) == 2 * ((x / 2) % m) + x % 2
  {
    var q, r := x / 2 / m, 2 * ((x / 2) % m) + x % 2;
    assert x == 2 * m * q + r;
    assert 0 <= r < 2 * m;
    RemainderUnique(x, 2 * m, q, r);
  }

  lemma RemainderUnique(x: nat, m: nat, q: nat, r: nat)
    requires m > 0 && r < m && x == m * q + r
    ensures x % m == r
  {
    var d := x / m - q;
    assert x == m * (x / m) + x % m;
    assert m * d == r - x % m;
    assert m * d < m && m * d + m > 0;
    assert d == 0;
  }

  lemma {:induction false} LowIsRemainder(x: nat, n: nat)
    ensures Low(x, n) == x % Pow2(n)
    decreases n
  {
    if n > 0 {
      LowIsRemainder(x / 2, n - 1);
      HalveRemainder(x, Pow2(n - 1));
    }
  }

  lemma LowByte(x: nat)
    ensures Low(x, 8) == x % 256
  {
    LowIsRemainder(x, 8);
    assert Pow2(8) == 256;
  }

  lemma LowCode(x: nat)
    ensures Low(x, 13) == x % 8192
  {
    LowIsRemainder(x, 13);
    assert Pow2(13) == 8192;
  }

  /** `(x & mask) >> n` selects bits `[s, s + w)` of `x` when `mask` is `w` ones shifted left by `s`. */
  lemma FieldRight(x: nat, mask: nat, w: nat, s: nat, n: nat, k: nat)
    requires mask == ShiftLeft(Ones(w), s)
    ensures Bit(ShiftRight(And(x, mask), n), k) == if s <= k + n < s + w then Bit(x, k + n) else 0
  {
    BitShiftRight(And(x, mask), n, k);
    BitAnd(x, mask, k + n);
    BitShiftLeft(Ones(w), s, k + n);
    if s <= k + n {
      BitOnes(w, k + n - s);
    }
  }

  /** `(x & mask) << n`, likewise. */
  lemma FieldLeft(x: nat, mask: nat, w: nat, n: nat, k: nat)
    requires mask == Ones(w)
    ensures Bit(ShiftLeft(And(x, mask), n), k) == if n <= k < n + w then Bit(x, k - n) else 0
  {
    BitShiftLeft(And(x, mask), n, k);
    if n <= k {
      BitAnd(x, mask, k - n);
      BitOnes(w, k - n);
    }
  }

  // ----- Numbers from bits -----

  /** The number whose binary digits are `bits`, highest first. */
  function Number(bits: seq<bit>): nat
  {
    if bits == [] then 0 else 2 * Number(bits[..|bits| - 1]) + bits[|bits| - 1]
  }

  lemma {:induction false} NumberBit(bits: seq<bit>, k: nat)
    requires k < |bits|
    ensures Bit(Number(bits), k) == bits[|bits| - 1 - k]
  {
    if k > 0 {
      NumberBit(bits[..|bits| - 1], k - 1);
    }
  }

  lemma {:induction false} NumberBound(bits: seq<bit>)
    ensures Number(bits) < Pow2(|bits|)
  {
    if bits != [] {
      NumberBound(bits[..|bits| - 1]);
    }
  }

  /** Reading the low bits of `x`, highest first, gives the low bits of `x`. */
  lemma NumberOf(x: nat, bits: seq<bit>)
    requires forall j :: 0 <= j < |bits| ==> bits[j] == Bit(x, |bits| - 1 - j)
    ensures Number(bits) == x % Pow2(|bits|)
  {
    var n := |bits|;
    forall k | 0 <= k < n
      ensures Bit(Number(bits), k) == Bit(x, k)
    {
      NumberBit(bits, k);
    }
    SameBits(Number(bits), x, n);
    NumberBound(bits);
    LowIsRemainder(Number(bits), n);
    LowIsRemainder(x, n);
    SmallRemainder(Number(bits), Pow2(n));
  }

  lemma SmallRemainder(x: nat, m: nat)
    requires x < m
    ensures x % m == x
  {
    RemainderUnique(x, m, 0, x);
  }

  lemma NumberAppend(bits: seq<bit>, d: bit)
    ensures Number(bits + [d]) == 2 * Number(bits) + d
  {
    assert (bits + [d])[..|bits|] == bits;
  }

  lemma ScaleStep(x: nat, p: nat, y: nat, d: nat)
    ensures 2 * (x * p + y) + d == x * (2 * p) + (2 * y + d)
  {
  }

  /** Digits laid after one another: the first ones are worth more by a power of two. */
  lemma {:induction false} NumberSplit(a: seq<bit>, b: seq<bit>)
    ensures Number(a + b) == Number(a) * Pow2(|b|) + Number(b)
  {
    if b == [] {
      assert a + b == a;
    } else {
      var front, d := b[..|b| - 1], b[|b| - 1];
      NumberSplit(a, front);
      assert a + b == a + front + [d] && b == front + [d];
      hide Number;
      NumberAppend(a + front, d);
      NumberAppend(front, d);
      ScaleStep(Number(a), Pow2(|front|), Number(front), d);
    }
  }

  lemma {:induction false} NumberZero(bits: seq<bit>)
    requires forall j :: 0 <= j < |bits| ==> bits[j] == 0
    ensures Number(bits) == 0
  {
    if bits != [] {
      NumberZero(bits[..|bits| - 1]);
    }
  }

  // ----- The operators as arithmetic -----

  lemma {:induction false} ShiftRightValue(x: nat, n: nat)
    ensures ShiftRight(x, n) == x / Pow2(n)
    decreases n
  {
    if n > 0 {
      ShiftRightValue(x / 2, n - 1);
      HalveQuotient(x, Pow2(n - 1));
    }
  }

  lemma HalveQuotient(x: nat, m: nat)
    requires m > 0
    ensures x / (2 * m) == x / 2 / m
  {
    HalveRemainder(x, m);
    var q := x / 2 / m;
    assert x == 2 * m * q + x % (2 * m);
    assert x == 2 * m * (x / (2 * m)) + x % (2 * m);
    assert 2 * m * (q - x / (2 * m)) == 0;
  }

  lemma {:induction false} ShiftLeftValue(x: nat, n: nat)
    ensures ShiftLeft(x, n) == x * Pow2(n)
    decreases n
  {
    if n > 0 {
      ShiftLeftValue(x, n - 1);
    }
  }

  lemma AndStep(x: nat, y: nat)
    ensures And(x, y) == 2 * And(x / 2, y / 2) + if x % 2 == 1 && y % 2 == 1 then 1 else 0
  {
  }

  lemma OrStep(x: nat, y: nat)
    ensures Or(x, y) == 2 * Or(x / 2, y / 2) + if x % 2 == 1 || y % 2 == 1 then 1 else 0
  {
  }

  /** A mask of `n` ones keeps the remainder by `2^n`. */
  lemma {:induction false} AndOnes(x: nat, n: nat)
    ensures And(x, Ones(n)) == x % Pow2(n)
    decreases n
  {
    if n > 0 {
      hide And;
      AndStep(x, Ones(n));
      AndOnes(x / 2, n - 1);
      HalveRemainder(x, Pow2(n - 1));
    }
  }

  /** A mask of the single bit `n` tells, of a number of `n + 1` bits, whether it reaches `2^n`. */
  lemma {:induction false} AndTop(x: nat, n: nat)
    requires x < 2 * Pow2(n)
    ensures And(x, Pow2(n)) == if x >= Pow2(n) then Pow2(n) else 0
    decreases n
  {
    if n > 0 {
      AndTop(x / 2, n - 1);
    }
  }

  /** Bits that do not overlap add up. */
  lemma {:induction false} OrAdds(x: nat, y: nat, n: nat)
    requires x < Pow2(n)
    ensures Or(x, ShiftLeft(y, n)) == x + ShiftLeft(y, n)
    decreases n
  {
    if n > 0 {
      hide Or;
      OrStep(x, ShiftLeft(y, n));
      OrAdds(x / 2, y, n - 1);
    }
  }
}
