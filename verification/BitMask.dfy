/** The mask idiom (x + a - 1) & ~(a - 1) on 32-bit words. */
module BitMask {
  import Arithmetic
  import opened Common

  function Pow2(k: nat): (r: nat)
    ensures r >= 1
  {
    if k == 0 then 1 else 2 * Pow2(k - 1)
  }

  /** Bitwise and. */
  function And(x: nat, y: nat): nat {
    if x == 0 || y == 0 then 0
    else (if x % 2 == 1 && y % 2 == 1 then 1 else 0) + 2 * And(x / 2, y / 2)
  }

  function Not(x: nat): nat
    requires x < TWO_32
  {
    TWO_32 - 1 - x
  }

  /** The C expression, with unsigned wrap-around of the sum. */
  function MaskedRound(x: nat, a: nat): nat
    requires 0 < a < TWO_32
  {
    And((x + a - 1) % TWO_32, Not(a - 1))
  }

  /** The least multiple of a that is at least x. */
  function RoundUp(x: nat, a: nat): nat
    requires a > 0
  {
    (x + a - 1) / a * a
  }

  lemma RoundUpIsLeast(x: nat, a: nat)
    requires a > 0
    ensures RoundUp(x, a) % a == 0 && x <= RoundUp(x, a) < x + a
    ensures forall m: nat :: m % a == 0 && m >= x ==> m >= RoundUp(x, a)
  {
    var q, r := (x + a - 1) / a, (x + a - 1) % a;
    assert x + a - 1 == q * a + r;
    Arithmetic.DivModUnique(q * a, q, 0, a);
    forall m: nat | m % a == 0 && m >= x
      ensures m >= RoundUp(x, a)
    {
      NoMultipleBetween(q, m / a, a, m - x);
    }
  }

  /** q * a is less than a above x, so a multiple from x on is no smaller. */
  lemma NoMultipleBetween(q: int, p: int, a: nat, above: int)
    requires a > 0 && above >= 0 && q * a < p * a - above + a
    ensures q * a <= p * a
  {
    if p < q {
      Arithmetic.ProductMonotone(a, p + 1, q);
    }
  }

  lemma {:induction false} Pow2Splits(k: nat, width: nat)
    requires k <= width
    ensures Pow2(width) == Pow2(k) * Pow2(width - k)
  {
    if k > 0 {
      Pow2Splits(k - 1, width - 1);
    }
  }

  /** Clearing the k low bits of a word of the given width subtracts the remainder by 2^k. */
  lemma {:induction false} ClearLowBits(x: nat, k: nat, width: nat)
    requires k <= width && x < Pow2(width)
    ensures Pow2(k) <= Pow2(width)
    ensures And(x, Pow2(width) - Pow2(k)) == x - x % Pow2(k)
  {
    if width == 0 {
    } else if k == 0 {
      ClearLowBits(x / 2, 0, width - 1);
      assert (Pow2(width) - 1) / 2 == Pow2(width - 1) - 1;
      assert x % 1 == 0 && (x / 2) % 1 == 0;
    } else {
      ClearLowBits(x / 2, k - 1, width - 1);
      assert (Pow2(width) - Pow2(k)) % 2 == 0;
      assert (Pow2(width) - Pow2(k)) / 2 == Pow2(width - 1) - Pow2(k - 1);
      RemainderOfDouble(x, Pow2(k - 1));
      if Pow2(width) == Pow2(k) {
        Arithmetic.DivModUnique(x, 0, x, Pow2(k));
      }
    }
  }

  lemma RemainderOfDouble(x: nat, n: nat)
    requires n > 0
    ensures x % (2 * n) == 2 * ((x / 2) % n) + x % 2
  {
    var h := x / 2;
    var q, r := h / n, h % n;
    assert h == q * n + r;
    assert x == q * (2 * n) + (2 * r + x % 2);
    Arithmetic.DivModUnique(x, q, 2 * r + x % 2, 2 * n);
  }

  lemma Pow2At32()
    ensures Pow2(32) == TWO_32
  {
    assert Pow2(8) == 256;
    Pow2Splits(8, 16);
    Pow2Splits(16, 32);
  }

  /** For a power of two, and while the sum does not wrap, the mask expression is the least multiple. */
  lemma MaskIsRoundUp(x: nat, a: nat, k: nat)
    requires a == Pow2(k) && k < 32 && x + a - 1 < TWO_32
    ensures 0 < a < TWO_32 && MaskedRound(x, a) == RoundUp(x, a)
  {
    ClearWord(x + a - 1, a, k);
  }

  lemma ClearWord(s: nat, a: nat, k: nat)
    requires a == Pow2(k) && k < 32 && s < TWO_32
    ensures 0 < a < TWO_32
    ensures And(s % TWO_32, Not(a - 1)) == s / a * a
  {
    var cleared := s / a * a;
    assert cleared == s - s % a by { QuotientAndRemainder(s, a); }
    assert a < TWO_32 && And(s, TWO_32 - a) == cleared by { ClearLow32(s, k); }
    assert Not(a - 1) == TWO_32 - a;
    assert s % TWO_32 == s;
  }

  lemma ClearLow32(s: nat, k: nat)
    requires k < 32 && s < TWO_32
    ensures Pow2(k) < TWO_32 && And(s, TWO_32 - Pow2(k)) == s - s % Pow2(k)
  {
    PowerBelowWord(k);
    Pow2At32();
    ClearLowBits(s, k, 32);
  }

  lemma QuotientAndRemainder(s: nat, a: nat)
    requires a > 0
    ensures s / a * a == s - s % a
  {
  }

  lemma PowerBelowWord(k: nat)
    requires k < 32
    ensures Pow2(k) < TWO_32
  {
    Pow2At32();
    Pow2Splits(k, 32);
    Arithmetic.ProductMonotone(Pow2(k), 2, Pow2(32 - k));
  }
}
