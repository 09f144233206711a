/**
 * The "fattest number" arithmetic of the z-fast trie (utils/bitwise_operations.rs).
 *
 * Machine words are modelled as unbounded naturals. A mask of the form `!(2^k - 1)` (all bits
 * at position k and above) is represented by its exponent `k`, and `x & !(2^k - 1)` is
 * `KeepHigh(x, k)`.
 */
module BitwiseOperations {

  function Pow2(k: nat): (p: nat)
    ensures p >= 1
  {
    if k == 0 then 1 else 2 * Pow2(k - 1)
  }

  /** `x & !(2^k - 1)`: `x` with its `k` lowest bits cleared. */
  function KeepHigh(x: nat, k: nat): nat {
    if k == 0 then x else 2 * KeepHigh(x / 2, k - 1)
  }

  /** Rust's `usize::next_power_of_two`: the least power of two that is at least `n`. */
  function NextPowerOfTwo(n: nat): (p: nat)
    ensures p >= 1 && p >= n
    ensures n > 1 ==> p / 2 < n
    decreases n
  {
    if n <= 1 then 1 else 2 * NextPowerOfTwo((n + 1) / 2)
  }

  /** Bitwise exclusive or of two naturals. */
  function Xor(a: nat, b: nat): nat
    decreases a + b
  {
    if a == 0 && b == 0 then 0
    else 2 * Xor(a / 2, b / 2) + (if a % 2 == b % 2 then 0 else 1)
  }

  /** Number of binary digits of `x` (0 for 0). */
  function BitLen(x: nat): nat {
    if x == 0 then 0 else 1 + BitLen(x / 2)
  }

  /** Number of trailing zero bits of a positive number. */
  function TrailingZeros(y: nat): nat
    requires y >= 1
  {
    if y % 2 == 1 then 0 else 1 + TrailingZeros(y / 2)
  }

  /**
   * `f` is the fattest number of the non-empty range [lo, hi] (lo >= 1): it lies in the range
   * and every other number of the range has strictly fewer trailing zeros.
   */
  ghost predicate IsFattest(f: nat, lo: nat, hi: nat)
    requires lo >= 1
  {
    && lo <= f <= hi
    && forall y: nat :: lo <= y <= hi && y != f ==> TrailingZeros(y) < TrailingZeros(f)
  }

  /**
   * calc(i) (bitwise_operations.rs:13-15) is the mask `!((i + 1).next_power_of_two() - 1)`,
   * represented by its exponent. It keeps exactly the bits at positions BitLen(i) and above,
   * so it shares no bit with `i`, and calc(0) keeps every bit.
   */
  function Calc(i: nat): (k: nat)
    ensures Pow2(k) == NextPowerOfTwo(i + 1)
    ensures KeepHigh(i, k) == 0
    ensures i == 0 ==> forall x: nat :: KeepHigh(x, k) == x
  {
    NextPowerOfTwoIsPow2BitLen(i + 1);
    BitLenBound(i);
    KeepHighSmall(i, BitLen(i));
    BitLen(i)
  }

  /**
   * get_fattest(x, low) (bitwise_operations.rs:1-11): 0 when low is 0; otherwise `x` with every
   * bit below the highest bit where low - 1 and x differ cleared (the mask
   * `!(((i + 1).next_power_of_two() >> 1) - 1)` of `i = (low - 1) ^ x`), which is the fattest
   * number of [low, x].
   */
  function GetFattest(x: nat, low: nat): (r: nat)
    requires x >= low
    ensures low == 0 ==> r == 0
    ensures low >= 1 ==> IsFattest(r, low, x)
  {
    if low == 0 then 0
    else
      var i := Xor(low - 1, x);
      XorHighBit(low - 1, x);
      SplitIsFattest(low - 1, x, BitLen(i) - 1);
      KeepHigh(x, BitLen(i) - 1)
  }

  // ---------------------------------------------------------------------------------------
  // Facts about KeepHigh.

  lemma {:induction false} KeepHighBounds(x: nat, k: nat)
    ensures KeepHigh(x, k) <= x < KeepHigh(x, k) + Pow2(k)
  {
    if k > 0 {
      KeepHighBounds(x / 2, k - 1);
    }
  }

  lemma {:induction false} KeepHighSmall(x: nat, k: nat)
    requires x < Pow2(k)
    ensures KeepHigh(x, k) == 0
  {
    if k > 0 {
      KeepHighSmall(x / 2, k - 1);
    }
  }

  lemma {:induction false} KeepHighMono(x: nat, y: nat, k: nat)
    requires x <= y
    ensures KeepHigh(x, k) <= KeepHigh(y, k)
  {
    if k > 0 {
      KeepHighMono(x / 2, y / 2, k - 1);
    }
  }

  /** Clearing one bit fewer adds at most bit k back. */
  lemma {:induction false} KeepHighStep(x: nat, k: nat)
    ensures KeepHigh(x, k) == KeepHigh(x, k + 1)
         || KeepHigh(x, k) == KeepHigh(x, k + 1) + Pow2(k)
  {
    if k > 0 {
      KeepHighStep(x / 2, k - 1);
    }
  }

  lemma {:induction false} KeepHighIdempotent(x: nat, k: nat)
    ensures KeepHigh(KeepHigh(x, k), k) == KeepHigh(x, k)
  {
    if k > 0 {
      KeepHighIdempotent(x / 2, k - 1);
      assert (2 * KeepHigh(x / 2, k - 1)) / 2 == KeepHigh(x / 2, k - 1);
    }
  }

  /** A positive number is a multiple of 2^k exactly when it has at least k trailing zeros. */
  lemma {:induction false} TrailingZerosKeepHigh(y: nat, k: nat)
    requires y >= 1
    ensures KeepHigh(y, k) == y <==> TrailingZeros(y) >= k
  {
    if k > 0 {
      if y % 2 == 0 {
        TrailingZerosKeepHigh(y / 2, k - 1);
      } else {
        KeepHighEven(y, k);
      }
    }
  }

  lemma KeepHighEven(y: nat, k: nat)
    requires k > 0
    ensures KeepHigh(y, k) % 2 == 0
  {
  }

  // ---------------------------------------------------------------------------------------
  // The facts get_fattest relies on.

  lemma {:induction false} NextPowerOfTwoIsPow2BitLen(n: nat)
    requires n >= 1
    ensures NextPowerOfTwo(n) == Pow2(BitLen(n - 1))
    decreases n
  {
    if n > 1 {
      var h := (n + 1) / 2;
      NextPowerOfTwoIsPow2BitLen(h);
      assert h - 1 == (n - 1) / 2;
      assert BitLen(n - 1) == 1 + BitLen(h - 1);
      assert NextPowerOfTwo(n) == 2 * NextPowerOfTwo(h);
    }
  }

  lemma {:induction false} BitLenBound(x: nat)
    ensures x < Pow2(BitLen(x))
  {
    if x >= 1 {
      BitLenBound(x / 2);
    }
  }

  lemma {:induction false} XorSelf(a: nat)
    ensures Xor(a, a) == 0
    decreases a
  {
    if a != 0 {
      XorSelf(a / 2);
    }
  }

  /**
   * For distinct a and b, BitLen(a ^ b) - 1 is the highest bit where they differ: they agree
   * on all bits above it and differ on it.
   */
  lemma {:induction false} XorHighBit(a: nat, b: nat)
    requires a != b
    ensures var l := BitLen(Xor(a, b));
      && l >= 1
      && KeepHigh(a, l) == KeepHigh(b, l)
      && KeepHigh(a, l - 1) != KeepHigh(b, l - 1)
    decreases a + b
  {
    var c := if a % 2 == b % 2 then 0 else 1;
    var x' := Xor(a / 2, b / 2);
    assert Xor(a, b) == 2 * x' + c;
    if a / 2 == b / 2 {
      XorSelf(a / 2);
      assert Xor(a, b) == 1;
      assert BitLen(1) == 1;
    } else {
      XorHighBit(a / 2, b / 2);
      assert BitLen(2 * x' + c) == BitLen(x') + 1 by {
        assert (2 * x' + c) / 2 == x';
      }
    }
  }

  /**
   * If a and b agree above bit k and differ at bit k, then b with its k lowest bits cleared is
   * the fattest number of [a + 1, b].
   */
  lemma SplitIsFattest(a: nat, b: nat, k: nat)
    requires a < b
    requires KeepHigh(a, k + 1) == KeepHigh(b, k + 1)
    requires KeepHigh(a, k) != KeepHigh(b, k)
    ensures IsFattest(KeepHigh(b, k), a + 1, b)
  {
    var h := KeepHigh(b, k + 1);
    var r := KeepHigh(b, k);
    KeepHighStep(a, k);
    KeepHighStep(b, k);
    KeepHighMono(a, b, k);
    assert KeepHigh(a, k) == h && r == h + Pow2(k);
    KeepHighBounds(a, k);
    KeepHighBounds(b, k);
    KeepHighIdempotent(b, k);
    TrailingZerosKeepHigh(r, k);
    forall y: nat | a + 1 <= y <= b && y != r
      ensures TrailingZeros(y) < TrailingZeros(r)
    {
      KeepHighMono(a, y, k + 1);
      KeepHighMono(y, b, k + 1);
      KeepHighStep(y, k);
      TrailingZerosKeepHigh(y, k);
    }
  }

  /** Adding its lowest set bit to a positive number yields more trailing zeros. */
  lemma {:induction false} TrailingZerosAfterLowBit(y: nat)
    requires y >= 1
    ensures TrailingZeros(y + Pow2(TrailingZeros(y))) > TrailingZeros(y)
    decreases y
  {
    if y % 2 == 0 {
      var h := y / 2;
      TrailingZerosAfterLowBit(h);
      var g := h + Pow2(TrailingZeros(h));
      assert y + Pow2(TrailingZeros(y)) == 2 * g;
      assert (2 * g) / 2 == g && (2 * g) % 2 == 0;
    }
  }

  /** The fattest number of an interval is the fattest of any interval containing both. */
  lemma FattestUnique(f: nat, lo1: nat, hi1: nat, g: nat, lo2: nat, hi2: nat)
    requires lo1 >= 1 && lo2 >= 1
    requires IsFattest(f, lo1, hi1) && IsFattest(g, lo2, hi2)
    requires lo1 <= g <= hi1 && lo2 <= f <= hi2
    ensures f == g
  {
    var tf, tg := TrailingZeros(f), TrailingZeros(g);
  }
}
