/** Unsigned 64-bit words as naturals, with the C operators `&`, `|`, `~`, `>>`, `<<` and the mask
    macros of include/tiny_libvmi.h written bit by bit, and the lemmas that turn them into division
    and remainder. */
module Bits {

  const WORD := 0x1_0000_0000_0000_0000
  type u64 = w: int | 0 <= w < WORD

  function Pow2(n: nat): (p: nat)
    ensures p >= 1
  {
    if n == 0 then 1 else 2 * Pow2(n - 1)
  }

  function And(a: nat, b: nat): nat {
    if a == 0 || b == 0 then 0
    else 2 * And(a / 2, b / 2) + (if a % 2 == 1 && b % 2 == 1 then 1 else 0)
  }

  function Or(a: nat, b: nat): nat
    decreases a + b
  {
    if a == 0 && b == 0 then 0
    else 2 * Or(a / 2, b / 2) + (if a % 2 == 1 || b % 2 == 1 then 1 else 0)
  }

  function Not(a: u64): u64 { WORD - 1 - a }

  /** a >> n, one bit at a time. */
  function Shr(a: nat, n: nat): nat { if n == 0 then a else Shr(a / 2, n - 1) }

  /** The n bits that a >> n drops. */
  function Low(a: nat, n: nat): nat { if n == 0 then 0 else 2 * Low(a / 2, n - 1) + a % 2 }

  function Shl(a: u64, n: nat): u64 { a * Pow2(n) % WORD }

  /** VMI_BIT_MASK(a, b): ones in bits a..b. */
  function BitMask(a: nat, b: nat): nat
    requires a <= b <= 63
  {
    Pow2Bound(a, 63);
    WordSize();
    And(Shr(WORD - 1, 63 - b), Not(Pow2(a) - 1))
  }

  /** VMI_GET_BIT(reg, bit). */
  predicate GetBit(w: nat, bit: nat) { And(w, Pow2(bit)) != 0 }

  // ---------------------------------------------------------------- lemmas

  lemma Pow2Bound(a: nat, b: nat)
    requires a <= b
    ensures Pow2(a) <= Pow2(b)
  {
    if a == b {
    } else {
      Pow2Bound(a, b - 1);
    }
  }

  lemma SmallPowers()
    ensures Pow2(1) == 2 && forall a: nat :: And(a, 0) == 0
  {
  }

  lemma WordSize()
    ensures Pow2(64) == WORD && Pow2(63) < WORD
  {
    hide Pow2;
    SmallPowers();
    Pow2Add(1, 1);
    Pow2Add(2, 2);
    Pow2Add(4, 4);
    Pow2Add(8, 8);
    Pow2Add(16, 16);
    Pow2Add(32, 32);
    Pow2Add(1, 63);
  }

  lemma {:induction false} Pow2Add(a: nat, b: nat)
    ensures Pow2(a + b) == Pow2(a) * Pow2(b)
  {
    if a == 0 {
    } else {
      Pow2Add(a - 1, b);
      DoubleProduct(Pow2(b), Pow2(a - 1));
    }
  }

  lemma {:induction false} ScaleBack(v: nat, n: nat)
    ensures v == Shr(v, n) * Pow2(n) + Low(v, n) && Low(v, n) < Pow2(n)
  {
    if n == 0 {
    } else {
      ScaleBack(v / 2, n - 1);
      DoubleProduct(Shr(v, n), Pow2(n - 1));
    }
  }

  lemma DoubleProduct(q: nat, p: nat)
    ensures q * (2 * p) == 2 * (q * p)
  {
  }

  lemma DivModUnique(v: int, d: int, q: int, r: int)
    requires d > 0 && 0 <= r < d && v == q * d + r
    ensures v / d == q && v % d == r
  {
    var k := v / d - q;
    assert v == v / d * d + v % d;
    assert k * d == r - v % d;
    assert -d < k * d < d;
    Between(k, d);
  }

  lemma Between(k: int, d: int)
    requires -d < k * d < d
    ensures k == 0
  {
  }

  /** Shifting is division and dropping is remainder. */
  lemma ShiftIsDivision(v: nat, n: nat)
    ensures Shr(v, n) == v / Pow2(n) && Low(v, n) == v % Pow2(n)
  {
    ScaleBack(v, n);
    DivModUnique(v, Pow2(n), Shr(v, n), Low(v, n));
  }

  lemma AndDigits(x: nat, y: nat, p: nat, q: nat)
    requires p < 2 && q < 2
    ensures And(2 * x + p, 2 * y + q) == 2 * And(x, y) + (if p == 1 && q == 1 then 1 else 0)
  {
  }

  lemma OrDigits(x: nat, y: nat, p: nat, q: nat)
    requires p < 2 && q < 2
    ensures Or(2 * x + p, 2 * y + q) == 2 * Or(x, y) + (if p == 1 || q == 1 then 1 else 0)
  {
  }

  // `&` works on the high and the low part of its operands separately.
  lemma {:induction false} AndSplits(a: nat, b: nat, n: nat)
    ensures Shr(And(a, b), n) == And(Shr(a, n), Shr(b, n))
    ensures Low(And(a, b), n) == And(Low(a, n), Low(b, n))
  {
    if n == 0 {
    } else {
      var x, p, y, q := a / 2, a % 2, b / 2, b % 2;
      AndSplits(x, y, n - 1);
      AndDigits(x, y, p, q);
      AndDigits(Low(x, n - 1), Low(y, n - 1), p, q);
      assert And(a, b) / 2 == And(x, y);
    }
  }

  lemma ZeroShift(n: nat)
    ensures Shr(0, n) == 0 && Low(0, n) == 0
  {
  }

  // So does `|`.
  lemma {:induction false} OrSplits(a: nat, b: nat, n: nat)
    ensures Shr(Or(a, b), n) == Or(Shr(a, n), Shr(b, n))
    ensures Low(Or(a, b), n) == Or(Low(a, n), Low(b, n))
  {
    if n == 0 {
    } else {
      var x, p, y, q := a / 2, a % 2, b / 2, b % 2;
      OrSplits(x, y, n - 1);
      OrDigits(x, y, p, q);
      OrDigits(Low(x, n - 1), Low(y, n - 1), p, q);
      assert Or(a, b) / 2 == Or(x, y);
    }
  }

  lemma {:induction false} OrZero(a: nat)
    ensures Or(a, 0) == a && Or(0, a) == a
  {
    if a == 0 {
    } else {
      OrZero(a / 2);
    }
  }

  lemma {:induction false} OrCommutes(a: nat, b: nat)
    ensures Or(a, b) == Or(b, a)
    decreases a + b
  {
    if a == 0 && b == 0 {
    } else {
      OrCommutes(a / 2, b / 2);
    }
  }

  // Masking with 2^n - 1 keeps the low n bits.
  lemma {:induction false} AndLow(v: nat, n: nat)
    ensures And(v, Pow2(n) - 1) == Low(v, n)
  {
    if n == 0 {
    } else {
      AndLow(v / 2, n - 1);
      assert (Pow2(n) - 1) / 2 == Pow2(n - 1) - 1;
      if v == 0 { ZeroShift(n - 1); }
    }
  }

  // 2^(n+k) - 1 and 2^(n+k) - 2^n both have k ones above bit n.
  lemma {:induction false} Ones(n: nat, k: nat)
    ensures Shr(Pow2(n + k) - 1, n) == Pow2(k) - 1
    ensures Pow2(n + k) >= Pow2(n)
    ensures Shr(Pow2(n + k) - Pow2(n), n) == Pow2(k) - 1 && Low(Pow2(n + k) - Pow2(n), n) == 0
  {
    if n == 0 {
    } else {
      Ones(n - 1, k);
      assert (Pow2(n + k) - 1) / 2 == Pow2(n + k - 1) - 1;
      assert (Pow2(n + k) - Pow2(n)) / 2 == Pow2(n + k - 1) - Pow2(n - 1);
    }
  }

  lemma {:induction false} LowOfSmall(v: nat, n: nat)
    requires v < Pow2(n)
    ensures Low(v, n) == v && Shr(v, n) == 0
  {
    if n == 0 {
    } else {
      LowOfSmall(v / 2, n - 1);
    }
  }

  // The macro's value: the field's ones, at the field's place.
  lemma {:induction false} MaskValue(a: nat, b: nat)
    requires a <= b <= 63
    ensures Shr(BitMask(a, b), a) == Pow2(b + 1 - a) - 1 && Low(BitMask(a, b), a) == 0
  {
    WordSize();
    Pow2Bound(a, 64);
    TopOnes(b, 63 - b);
    MaskParts(a, b + 1 - a, 64 - a, WORD);
  }

  lemma TopOnes(b: nat, s: nat)
    requires s + b == 63
    ensures Shr(WORD - 1, s) == Pow2(b + 1) - 1
  {
    WordSize();
    Ones(s, b + 1);
  }

  lemma {:induction false} MaskParts(a: nat, k: nat, l: nat, w: nat)
    requires k <= l && w == Pow2(a + l) >= Pow2(a)
    ensures Shr(And(Pow2(a + k) - 1, w - Pow2(a)), a) == Pow2(k) - 1
    ensures Low(And(Pow2(a + k) - 1, w - Pow2(a)), a) == 0
  {
    hide Pow2, And, Shr, Low;
    SmallPowers();
    AndSplits(Pow2(a + k) - 1, w - Pow2(a), a);
    Ones(a, k);
    Ones(a, l);
    AndLow(Pow2(k) - 1, l);
    Pow2Bound(k, l);
    LowOfSmall(Pow2(k) - 1, l);
  }

  lemma MaskedField(v: nat, a: nat, b: nat)
    requires a <= b <= 63
    ensures And(v, BitMask(a, b)) == Low(Shr(v, a), b + 1 - a) * Pow2(a)
  {
    var m := BitMask(a, b);
    MaskValue(a, b);
    AndSplits(v, m, a);
    AndLow(Shr(v, a), b + 1 - a);
    assert And(Low(v, a), 0) == 0;
    ScaleBack(And(v, m), a);
  }

  /** Masking with VMI_BIT_MASK(a, b) keeps exactly the field of bits a..b, in place. */
  lemma AndMask(v: nat, a: nat, b: nat, unit: nat, width: nat)
    requires a <= b <= 63 && unit == Pow2(a) && width == Pow2(b + 1 - a)
    ensures And(v, BitMask(a, b)) == v / unit % width * unit
  {
    MaskedField(v, a, b);
    ShiftIsDivision(v, a);
    ShiftIsDivision(v / unit, b + 1 - a);
  }

  /** OR of words that share no bit position is addition. */
  lemma OrDisjoint(h: nat, l: nat, n: nat)
    requires h % Pow2(n) == 0 && l < Pow2(n)
    ensures Or(h, l) == h + l
  {
    OrSplits(h, l, n);
    LowOfSmall(l, n);
    OrZero(Shr(h, n));
    OrZero(l);
    ShiftIsDivision(h, n);
    ScaleBack(h, n);
    ScaleBack(Or(h, l), n);
  }

  lemma {:induction false} GetBitIsDigit(w: nat, bit: nat)
    ensures GetBit(w, bit) <==> w / Pow2(bit) % 2 == 1
  {
    ShiftIsDivision(w, bit);
    BitOfShift(w, bit);
  }

  lemma {:induction false} BitOfShift(w: nat, bit: nat)
    ensures And(w, Pow2(bit)) != 0 <==> Shr(w, bit) % 2 == 1
  {
    if bit == 0 {
    } else {
      BitOfShift(w / 2, bit - 1);
      if w == 0 { ZeroShift(bit - 1); }
    }
  }
}
