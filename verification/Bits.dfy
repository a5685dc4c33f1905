/** Unsigned 64-bit words and the bitwise operators of C, given by their meaning on binary digits.
    `x >> k` is written `x / Pow2(k)` (or a division by the literal power) and `1 << k` is `Pow2(k)`. */
module Bits {

  const TWO64: int := 0x1_0000_0000_0000_0000
  const ALL_ONES: Word := 0xFFFF_FFFF_FFFF_FFFF

  /** `uint64_t`. */
  type Word = x: int | 0 <= x < TWO64

  function Pow2(k: nat): (p: nat)
    ensures p > 0
  {
    if k == 0 then 1 else 2 * Pow2(k - 1)
  }

  /** Binary digit `k` of `x`. */
  predicate Bit(x: nat, k: nat) {
    if k == 0 then x % 2 == 1 else Bit(x / 2, k - 1)
  }

  function Digit(b: bool): (d: nat) {
    if b then 1 else 0
  }

  /** `a & b` */
  function And(a: nat, b: nat): (r: nat)
    ensures r <= a && r <= b
  {
    if a == 0 || b == 0 then 0
    else 2 * And(a / 2, b / 2) + Digit(a % 2 == 1 && b % 2 == 1)
  }

  /** `a | b` */
  function Or(a: nat, b: nat): (r: nat)
    ensures r >= a && r >= b
  {
    if a == 0 then b
    else if b == 0 then a
    else 2 * Or(a / 2, b / 2) + Digit(a % 2 == 1 || b % 2 == 1)
  }

  /** `~x` on a 64-bit word */
  function Not(x: Word): Word {
    ALL_ONES - x
  }

  /** `__builtin_ctzll(x)`: the lowest set bit. */
  function Ctz(x: nat): (k: nat)
    requires x > 0
    ensures Bit(x, k)
    ensures forall j: nat :: j < k ==> !Bit(x, j)
  {
    if x % 2 == 1 then 0 else
      var k' := Ctz(x / 2);
      assert forall j: nat :: 0 < j < k' + 1 ==> Bit(x, j) == Bit(x / 2, j - 1);
      k' + 1
  }

  // ---- Digits of the results ----

  lemma {:induction false} BitZero(k: nat)
    ensures !Bit(0, k)
  {
    if k > 0 { BitZero(k - 1); }
  }

  lemma {:induction false} AndBit(a: nat, b: nat, k: nat)
    ensures Bit(And(a, b), k) == (Bit(a, k) && Bit(b, k))
  {
    if a == 0 || b == 0 {
      BitZero(k);
    } else if k > 0 {
      AndBit(a / 2, b / 2, k - 1);
    }
  }

  lemma {:induction false} OrBit(a: nat, b: nat, k: nat)
    ensures Bit(Or(a, b), k) == (Bit(a, k) || Bit(b, k))
  {
    if a == 0 || b == 0 {
      BitZero(k);
    } else if k > 0 {
      OrBit(a / 2, b / 2, k - 1);
    }
  }

  lemma {:induction false} Pow2Bit(k: nat, j: nat)
    ensures Bit(Pow2(k), j) == (j == k)
  {
    if j > 0 {
      if k > 0 { Pow2Bit(k - 1, j - 1); } else { BitZero(j - 1); }
    }
  }

  /** Complement over any width: `2^w - 1 - x` flips each of the low `w` digits. */
  lemma {:induction false} ComplementBit(x: nat, w: nat, k: nat)
    requires x < Pow2(w)
    ensures k < w ==> Bit(Pow2(w) - 1 - x, k) == !Bit(x, k)
    ensures k >= w ==> !Bit(Pow2(w) - 1 - x, k)
  {
    if w == 0 {
      BitZero(k);
    } else if k > 0 {
      assert (Pow2(w) - 1 - x) / 2 == Pow2(w - 1) - 1 - x / 2;
      ComplementBit(x / 2, w - 1, k - 1);
    }
  }

  /** A multiple of `2^w` has no digit below `w`. */
  lemma {:induction false} NoLowDigits(x: nat, w: nat, k: nat)
    requires Low(x, w) == 0 && k < w
    ensures !Bit(x, k)
  {
    if k > 0 { NoLowDigits(x / 2, w - 1, k - 1); }
  }

  /** A number below `2^w` has no digit from `w` up. */
  lemma {:induction false} NoHighDigits(x: nat, w: nat, k: nat)
    requires x < Pow2(w) && k >= w
    ensures !Bit(x, k)
  {
    if w == 0 { BitZero(k); } else { NoHighDigits(x / 2, w - 1, k - 1); }
  }

  lemma Pow2Plus8(k: nat)
    ensures Pow2(k + 8) == 256 * Pow2(k)
  {
    assert Pow2(k + 2) == 4 * Pow2(k);
    assert Pow2(k + 4) == 4 * Pow2(k + 2);
    assert Pow2(k + 6) == 4 * Pow2(k + 4);
    assert Pow2(k + 8) == 4 * Pow2(k + 6);
  }

  lemma Pow2Values()
    ensures Pow2(12) == 4096 && Pow2(48) == 0x1_0000_0000_0000 && Pow2(64) == TWO64
  {
    hide Pow2;
    Pow2Small();
    Pow2Plus8(4);
    Pow2Plus8(8); Pow2Plus8(16); Pow2Plus8(24); Pow2Plus8(32); Pow2Plus8(40); Pow2Plus8(48); Pow2Plus8(56);
  }

  lemma Pow2Small()
    ensures Pow2(4) == 16 && Pow2(8) == 256
  {
    assert Pow2(8) == 16 * Pow2(4);
  }

  lemma NotBit(x: Word, k: nat)
    ensures Bit(Not(x), k) == (k < 64 && !Bit(x, k))
  {
    Pow2Values();
    ComplementBit(x, 64, k);
  }

  /** Two numbers with the same digits are equal. */
  lemma {:induction false} SameBits(a: nat, b: nat)
    requires forall k: nat :: Bit(a, k) == Bit(b, k)
    ensures a == b
    decreases a + b
  {
    assert Bit(a, 0) == Bit(b, 0);
    if a != 0 || b != 0 {
      forall k: nat ensures Bit(a / 2, k) == Bit(b / 2, k) {
        assert Bit(a, k + 1) == Bit(b, k + 1);
      }
      SameBits(a / 2, b / 2);
    }
  }

  // ---- Masks as arithmetic ----

  lemma {:induction false} MulGap(q: nat, k: nat, d: nat)
    ensures (q + k) * d == q * d + k * d
    ensures k > 0 ==> k * d >= d
  {
    if k > 0 { MulGap(q, k - 1, d); }
  }

  lemma QuotientUnique(d: nat, q: nat, r: nat, q': nat, r': nat)
    requires r < d && r' < d && q * d + r == q' * d + r'
    ensures q == q' && r == r'
  {
    if q < q' { MulGap(q, q' - q, d); }
    if q' < q { MulGap(q', q - q', d); }
  }

  lemma RemainderIs(x: nat, d: nat, q: nat, r: nat)
    requires r < d && x == q * d + r
    ensures x / d == q && x % d == r
  {
    assert x == x / d * d + x % d;
    QuotientUnique(d, q, r, x / d, x % d);
  }

  /** The number formed by the low `k` digits, and the one formed by the rest. */
  function Low(x: nat, k: nat): nat {
    if k == 0 then 0 else 2 * Low(x / 2, k - 1) + x % 2
  }

  function High(x: nat, k: nat): nat {
    if k == 0 then x else High(x / 2, k - 1)
  }

  function Join(h: nat, p: nat, l: nat): nat {
    h * p + l
  }

  lemma JoinStep(h: nat, p: nat, l: nat, b: nat)
    ensures Join(h, 2 * p, 2 * l + b) == 2 * Join(h, p, l) + b
  {
  }

  lemma {:induction false} LowHigh(x: nat, k: nat)
    ensures Low(x, k) < Pow2(k)
    ensures x == Join(High(x, k), Pow2(k), Low(x, k))
  {
    if k > 0 {
      LowHigh(x / 2, k - 1);
      JoinStep(High(x, k), Pow2(k - 1), Low(x / 2, k - 1), x % 2);
    }
  }

  lemma LowIsRemainder(x: nat, k: nat)
    ensures Low(x, k) == x % Pow2(k)
  {
    LowHigh(x, k);
    RemainderIs(x, Pow2(k), High(x, k), Low(x, k));
  }

  lemma {:induction false} LowMaskDigits(x: nat, k: nat)
    ensures And(x, Pow2(k) - 1) == Low(x, k)
  {
    if k > 0 {
      hide And;
      assert (Pow2(k) - 1) / 2 == Pow2(k - 1) - 1 && (Pow2(k) - 1) % 2 == 1;
      AndStep(x, Pow2(k) - 1);
      LowMaskDigits(x / 2, k - 1);
    }
  }

  /** `x & (2^k - 1)` keeps the remainder modulo `2^k`. */
  lemma LowMask(x: nat, k: nat)
    ensures And(x, Pow2(k) - 1) == x % Pow2(k)
  {
    LowMaskDigits(x, k);
    LowIsRemainder(x, k);
  }

  /** A mask and its complement split a number in two. */
  lemma {:induction false} MaskSplits(x: nat, m: nat, w: nat)
    requires x < Pow2(w) && m < Pow2(w)
    ensures And(x, m) + And(x, Pow2(w) - 1 - m) == x
  {
    if w > 0 {
      var c := Pow2(w) - 1 - m;
      assert c / 2 == Pow2(w - 1) - 1 - m / 2;
      assert c % 2 == 1 - m % 2;
      MaskSplits(x / 2, m / 2, w - 1);
      AndStep(x, m); AndStep(x, c);
    }
  }

  /** Only the digits under the mask matter. */
  lemma {:induction false} AndIgnoresHigh(x: nat, m: nat, w: nat)
    requires m < Pow2(w)
    ensures And(x, m) == And(Low(x, w), m)
  {
    if w > 0 {
      AndIgnoresHigh(x / 2, m / 2, w - 1);
      AndStep(x, m); AndStep(Low(x, w), m);
    }
  }

  lemma AndStep(a: nat, b: nat)
    ensures And(a, b) == 2 * And(a / 2, b / 2) + Digit(a % 2 == 1 && b % 2 == 1)
  {
  }

  /** `x & ~(2^k - 1)` rounds `x` down to a multiple of `2^k`. */
  lemma ClearLow(x: Word, k: nat)
    requires Pow2(k) <= TWO64
    ensures And(x, Not(Pow2(k) - 1)) == x - x % Pow2(k)
  {
    hide And, Pow2;
    Pow2Values();
    MaskSplits(x, Pow2(k) - 1, 64);
    LowMask(x, k);
  }

  /** `|` distributes under a mask. */
  lemma AndOverOr(a: nat, b: nat, c: nat)
    ensures And(Or(a, b), c) == Or(And(a, c), And(b, c))
  {
    forall k: nat
      ensures Bit(And(Or(a, b), c), k) == Bit(Or(And(a, c), And(b, c)), k)
    {
      AndBit(Or(a, b), c, k); OrBit(a, b, k);
      OrBit(And(a, c), And(b, c), k); AndBit(a, c, k); AndBit(b, c, k);
    }
    SameBits(And(Or(a, b), c), Or(And(a, c), And(b, c)));
  }

  lemma {:induction false} OrAlignedDigits(a: nat, b: nat, k: nat)
    requires Low(a, k) == 0 && b < Pow2(k)
    ensures Or(a, b) == a + b
  {
    if k > 0 && a > 0 && b > 0 {
      OrAlignedDigits(a / 2, b / 2, k - 1);
    }
  }

  /** OR-ing a small number into an aligned one adds it. */
  lemma OrAligned(a: nat, b: nat, k: nat)
    requires a % Pow2(k) == 0 && b < Pow2(k)
    ensures Or(a, b) == a + b
  {
    LowIsRemainder(a, k);
    OrAlignedDigits(a, b, k);
  }

  lemma {:induction false} OrBound(a: nat, b: nat, w: nat)
    requires a < Pow2(w) && b < Pow2(w)
    ensures Or(a, b) < Pow2(w)
  {
    if w > 0 && a > 0 && b > 0 { OrBound(a / 2, b / 2, w - 1); }
  }
}
