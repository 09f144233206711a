/**
 * The polynomial prefix hash of bit strings (hashes/rolling_hash.rs).
 *
 * The digest starts from `base`. Each whole 32-bit storage word before the prefix end adds
 * `(word + 1)` times the current power of the base, each remaining bit of the prefix adds the
 * power once and once more when it is set, and the power is multiplied by the base after
 * every word and every bit. `Digest` states this step by step with the reductions modulo
 * `modulo` where the slow loop makes them; `FastPrefixHash` resumes from the per-word state
 * of `ComputeState`, defers the reduction, and is proved to reach the same digest.
 */
module RollingHash {
  import opened Strings
  import opened ModArith

  const DEFAULT_MODULO: nat := 1000000000 + 7
  const DEFAULT_BASE: nat := 37

  /** Per-word prefix digests and the matching powers of the base. */
  type State = (seq<nat>, seq<nat>)

  // Storage words hold WORD_SIZE == 32 bits; the literal 32 below keeps the arithmetic linear.

  /** Number of storage words of `s`, the last one possibly partial. */
  function NumWords(s: Str): nat {
    (|s| + 32 - 1) / 32
  }

  /**
   * Value of storage word k of `s`: bit j of the word is bit 32k + j of the string. Bits of a
   * partial last word beyond |s| read as 0.
   */
  function WordValue(s: Str, k: nat): nat
    requires k < NumWords(s)
  {
    BitsValue(s, k * 32, Min(32, |s| - k * 32))
  }

  /** The number whose bit i, least significant first, is s[lo + i], for i < n. */
  function BitsValue(s: Str, lo: nat, n: nat): nat
    requires lo + n <= |s|
    decreases n
  {
    if n == 0 then 0 else (if s[lo] then 1 else 0) + 2 * BitsValue(s, lo + 1, n - 1)
  }

  /** BitsValue reads only the n bits from lo. */
  lemma {:induction false} BitsValueAgree(s: Str, t: Str, lo: nat, n: nat)
    requires lo + n <= |s| && lo + n <= |t| && s[lo .. lo + n] == t[lo .. lo + n]
    ensures BitsValue(s, lo, n) == BitsValue(t, lo, n)
    decreases n
  {
    if n > 0 {
      assert s[lo] == s[lo .. lo + n][0];
      assert s[lo + 1 .. lo + n] == s[lo .. lo + n][1..];
      assert t[lo + 1 .. lo + n] == t[lo .. lo + n][1..];
      BitsValueAgree(s, t, lo + 1, n - 1);
    }
  }

  lemma {:induction false} WordIndex(s: Str, ind: nat)
    requires ind <= |s|
    ensures ind / 32 <= NumWords(s)
    ensures ind / 32 * 32 <= ind
  {
  }

  /** new() (rolling_hash.rs:18-20). */
  function Default(): (h: RollingHash)
    ensures h.Valid()
  {
    RollingHash(DEFAULT_MODULO, DEFAULT_BASE)
  }

  /**
   * new_parametric(domain_size, seed) (rolling_hash.rs:110-116): `draw` stands for the first
   * 32-bit output of the generator seeded with `seed`. The base is a divisor of
   * draw % (domain_size - 1) + 1 coprime with domain_size, and the modulus is domain_size.
   */
  method NewParametric(domainSize: nat, draw: nat) returns (h: RollingHash)
    requires domainSize >= 2
    ensures h.Valid() && h.modulo == domainSize
    ensures Coprime(h.base, domainSize) && Divides(h.base, draw % (domainSize - 1) + 1)
  {
    var num := draw % (domainSize - 1) + 1;
    var base := GetCoprime(num, domainSize);
    DividesBound(base, num);
    h := RollingHash(domainSize, base);
  }

  /**
   * get_coprime(num, domain_size) (rolling_hash.rs:128-145): computes gcd(res, domain_size)
   * by Euclid's algorithm and divides it out of res until it is 1. The result is a divisor
   * of num coprime with domain_size.
   */
  method GetCoprime(num: nat, domainSize: nat) returns (res: nat)
    requires num >= 1
    ensures res >= 1 && Divides(res, num) && Coprime(res, domainSize)
  {
    res := num;
    DividesSelf(num);
    while true
      invariant res >= 1 && Divides(res, num)
      decreases res
    {
      var x := res;
      var y := domainSize;
      while y != 0
        invariant x >= 1
        invariant forall c :: Divides(c, x) && Divides(c, y) <==> Divides(c, res) && Divides(c, domainSize)
        decreases y
      {
        EuclidStep(x, y, res, domainSize);
        var tmp := y;
        y := x % y;
        x := tmp;
      }
      if x == 1 {
        GcdOne(res, domainSize);
        break;
      } else {
        DivideOut(res, x, num, domainSize);
        res := res / x;
      }
    }
  }

  /** Dividing out a common divisor x >= 2 keeps a smaller divisor of num. */
  lemma {:induction false} DivideOut(res: nat, x: nat, num: nat, d: nat)
    requires res >= 1 && Divides(res, num) && x >= 2
    requires forall c :: Divides(c, x) && Divides(c, 0) <==> Divides(c, res) && Divides(c, d)
    ensures 1 <= res / x < res && Divides(res / x, num)
  {
    DividesSelf(x);
    assert Divides(x, 0);
    assert Divides(x, res);
    QuotientDivides(res, x);
    DividesTransitive(res / x, res, num);
    var q := res / x;
    assert res == x * q;
    assert x * q == q + (x - 1) * q;
    MulAtLeast(q, x - 1);
  }

  /** One step of Euclid's algorithm keeps the common divisors. */
  lemma {:induction false} EuclidStep(x: nat, y: nat, res: nat, d: nat)
    requires y >= 1
    requires forall c :: Divides(c, x) && Divides(c, y) <==> Divides(c, res) && Divides(c, d)
    ensures forall c :: Divides(c, y) && Divides(c, x % y) <==> Divides(c, res) && Divides(c, d)
  {
    forall c | Divides(c, y)
      ensures Divides(c, x) <==> Divides(c, x % y)
    {
      ModDivisor(c, x, y);
    }
  }

  lemma {:induction false} GcdOne(res: nat, d: nat)
    requires forall c :: Divides(c, 1) && Divides(c, 0) <==> Divides(c, res) && Divides(c, d)
    ensures Coprime(res, d)
  {
    forall c | Divides(c, res) && Divides(c, d)
      ensures c == 1
    {
      DividesBound(c, 1);
    }
  }


  /** Two numbers that are equal leave equal remainders (stated on values, for the solver). */
  lemma {:induction false} SameRemainder(a: nat, b: nat, m: nat)
    requires m >= 1 && a == b
    ensures a % m == b % m
  {
  }

  /** Adding p to numbers with the same remainder keeps their remainders equal. */
  lemma {:induction false} OnceStep(x: nat, d: nat, p: nat, m: nat)
    requires m >= 1 && x % m == d
    ensures (x + p) % m == (d + p) % m
  {
    ModAddModLeft(x, p, m);
    SameRemainder(x % m + p, d + p, m);
  }

  /** Adding p twice at once is adding it twice with a reduction in between. */
  lemma {:induction false} TwiceStep(x: nat, d: nat, p: nat, m: nat)
    requires m >= 1 && x % m == d
    ensures (x + (p + p)) % m == ((d + p) % m + p) % m
  {
    OnceStep(x, d, p, m);
    OnceStep(x + p, (d + p) % m, p, m);
    SameRemainder(x + p + p, x + (p + p), m);
  }

  datatype RollingHash = RollingHash(modulo: nat, base: nat) {

    ghost predicate Valid() {
      1 <= base < modulo
    }

    // -------------------------------------------------------------------------------------
    // The digest, step by step.

    /** One multiplication of the power by the base, reduced. */
    function NextPower(pot: nat): nat
      requires Valid()
    {
      pot * base % modulo
    }

    /** One whole-word step: the digest d adds (x + 1) times the power pot, reduced. */
    function WordDigestStep(d: nat, x: nat, pot: nat): nat
      requires Valid()
    {
      (d + ((x + 1) % modulo * pot) % modulo) % modulo
    }

    /**
     * One bit step: the digest d adds the power once, and once more when the bit is set,
     * reducing after each addition.
     */
    function BitDigestStep(d: nat, pot: nat, bit: bool): nat
      requires Valid()
    {
      var once := (d + pot) % modulo;
      if bit then (once + pot) % modulo else once
    }

    /** One bit step of the fast prefix hash, without the reduction. */
    ghost function DeferredBitStep(acc: nat, pot: nat, bit: bool): nat {
      if bit then acc + pot + pot else acc + pot
    }

    /** The power of the base the loops hold after j multiplications, starting from base^2. */
    ghost function Power(j: nat): (r: nat)
      requires Valid()
      ensures r < modulo
    {
      if j == 0 then base * base % modulo else NextPower(Power(j - 1))
    }

    /** The digest after the first k whole storage words. */
    ghost function WordsDigest(s: Str, k: nat): (r: nat)
      requires Valid() && k <= NumWords(s)
      ensures r < modulo
    {
      if k == 0 then base
      else WordDigestStep(WordsDigest(s, k - 1), WordValue(s, k - 1), Power(k - 1))
    }

    /**
     * The digest of the first c bits of s, continued bit by bit after whole word w; bit c - 1
     * is taken at power w + (c - 1 - 32w), one multiplication per word and per bit before it.
     */
    ghost function Partial(s: Str, w: nat, c: nat): (r: nat)
      requires Valid() && w <= NumWords(s) && w * 32 <= c <= |s|
      ensures r < modulo
      decreases c
    {
      if c == w * 32 then WordsDigest(s, w)
      else BitDigestStep(Partial(s, w, c - 1), Power(w + (c - 1 - w * 32)), s[c - 1])
    }

    /** The digest of the first ind bits of s: whole words first, then the remaining bits. */
    ghost function Digest(s: Str, ind: nat): (r: nat)
      requires Valid() && ind <= |s|
      ensures r < modulo
    {
      WordIndex(s, ind);
      Partial(s, ind / 32, ind)
    }

    /**
     * What the fast prefix hash accumulates after whole word w up to bit c, before its one
     * reduction: the digest of the first w words plus the power once or twice per bit.
     */
    ghost function Deferred(s: Str, w: nat, c: nat): nat
      requires Valid() && w <= NumWords(s) && w * 32 <= c <= |s|
      decreases c
    {
      if c == w * 32 then WordsDigest(s, w)
      else DeferredBitStep(Deferred(s, w, c - 1), Power(w + (c - 1 - w * 32)), s[c - 1])
    }

    /**
     * v and pots hold the digests and the powers after 0, 1, ..., k whole words of s: what
     * compute_state has collected after k words.
     */
    ghost predicate IsStatePrefix(s: Str, v: seq<nat>, pots: seq<nat>, k: nat)
      requires Valid()
    {
      && k <= NumWords(s)
      && |v| == k + 1
      && |pots| == k + 1
      && (forall i {:trigger v[i]} :: 0 <= i <= k ==> v[i] == WordsDigest(s, i))
      && (forall i {:trigger pots[i]} :: 0 <= i <= k ==> pots[i] == Power(i))
    }

    /** `state` is what compute_state returns for s: per-word digests and powers. */
    ghost predicate IsStateOf(s: Str, state: State)
      requires Valid()
    {
      IsStatePrefix(s, state.0, state.1, NumWords(s))
    }

    // -------------------------------------------------------------------------------------
    // The operations.

    /** hash(s) (rolling_hash.rs:22-24): the slow prefix hash of the whole string. */
    method Hash(s: Str) returns (r: nat)
      requires Valid()
      ensures r == Digest(s, |s|) && r < modulo
    {
      r := SlowPrefixHash(s, |s|);
    }

    /**
     * slow_prefix_hash(s, ind) (rolling_hash.rs:26-60): one step per whole word below ind,
     * then one step per remaining bit, reducing modulo `modulo` after every addition.
     */
    method SlowPrefixHash(s: Str, ind: nat) returns (r: nat)
      requires Valid() && ind <= |s|
      ensures r == Digest(s, ind) && r < modulo
    {
      var res := base;
      var pot := base * base % modulo;
      var currind: nat := 0;
      var k: nat := 0;
      while k < NumWords(s)
        invariant k <= NumWords(s) && currind == k * 32 <= ind
        invariant res == WordsDigest(s, k) && pot == Power(k)
      {
        if currind + 32 > ind {
          break;
        }
        var x := WordValue(s, k);
        ghost var prev, resBefore, potBefore := k, res, pot;
        currind := currind + 32;
        res := WordDigestStep(res, x, pot);
        pot := NextPower(pot);
        k := k + 1;
        WordStep(s, prev, k, x, resBefore, potBefore, res);
        PowerStep(prev, k, potBefore, pot);
      }
      WordCount(s, ind, k);
      ghost var j := k;
      while currind < ind
        invariant k * 32 <= currind <= ind && j == k + (currind - k * 32)
        invariant res == Partial(s, k, currind) && pot == Power(j)
      {
        ghost var prev, prevJ, resBefore, potBefore := currind, j, res, pot;
        res := BitDigestStep(res, pot, s[currind]);
        pot := NextPower(pot);
        currind := currind + 1;
        j := j + 1;
        BitStep(s, k, prev, currind, prevJ, resBefore, potBefore, res);
        PowerStep(prevJ, j, potBefore, pot);
      }
      DigestAt(s, k, ind);
      r := res;
    }

    /**
     * compute_state(s) (rolling_hash.rs:62-80): the digest and the power of the base reached
     * after 0, 1, ... whole words, one entry per storage word plus the initial one.
     */
    method ComputeState(s: Str) returns (state: State)
      requires Valid()
      ensures IsStateOf(s, state)
      ensures state.0[0] == base && state.1[0] == base * base % modulo
    {
      var res := base;
      var pot := base * base % modulo;
      var v: seq<nat> := [res];
      var pots: seq<nat> := [pot];
      var k: nat := 0;
      while k < NumWords(s)
        invariant IsStatePrefix(s, v, pots, k)
        invariant res == WordsDigest(s, k) && pot == Power(k)
      {
        var x := WordValue(s, k);
        ghost var prev, resBefore, potBefore, vBefore, potsBefore := k, res, pot, v, pots;
        res := WordDigestStep(res, x, pot);
        v := v + [res];
        pot := NextPower(pot);
        pots := pots + [pot];
        k := k + 1;
        WordStep(s, prev, k, x, resBefore, potBefore, res);
        PowerStep(prev, k, potBefore, pot);
        StatePrefixExtend(s, vBefore, potsBefore, prev, k, res, pot);
      }
      state := (v, pots);
    }

    /**
     * fast_prefix_hash(s, state, ind) (rolling_hash.rs:82-106): resumes from the state entry
     * of the last whole word below ind, adds the remaining bits without reducing, and
     * reduces once at the end. It reaches the digest the slow prefix hash computes.
     */
    method FastPrefixHash(s: Str, state: State, ind: nat) returns (r: nat)
      requires Valid() && ind <= |s| && IsStateOf(s, state)
      ensures r == Digest(s, ind) && r < modulo
    {
      WordIndex(s, ind);
      var w := ind / 32;
      var res: nat := state.0[w];
      var pot: nat := state.1[w];
      var currind: nat := w * 32;
      ghost var j := w;
      while currind < ind
        invariant w * 32 <= currind <= ind && j == w + (currind - w * 32)
        invariant res == Deferred(s, w, currind) && pot == Power(j)
      {
        ghost var prev, prevJ, resBefore, potBefore := currind, j, res, pot;
        res := res + pot;
        if s[currind] {
          res := res + pot;
        }
        pot := NextPower(pot);
        currind := currind + 1;
        j := j + 1;
        DeferredStep(s, w, prev, currind, prevJ, resBefore, potBefore, res);
        PowerStep(prevJ, j, potBefore, pot);
      }
      FastAgrees(s, w, ind);
      DigestAt(s, w, ind);
      r := res % modulo;
    }

    // -------------------------------------------------------------------------------------
    // One loop step, stated on the loop's own values before and after it.

    lemma {:induction false} PowerStep(j: nat, j1: nat, pot: nat, next: nat)
      requires Valid() && j1 == j + 1 && pot == Power(j) && next == NextPower(pot)
      ensures next == Power(j1)
    {
    }

    lemma {:induction false} WordStep(s: Str, k: nat, k1: nat, x: nat, res: nat, pot: nat, next: nat)
      requires Valid() && k < NumWords(s) && k1 == k + 1
      requires x == WordValue(s, k) && res == WordsDigest(s, k) && pot == Power(k)
      requires next == WordDigestStep(res, x, pot)
      ensures next == WordsDigest(s, k1)
    {
    }

    lemma {:induction false} BitStep(s: Str, w: nat, c: nat, c1: nat, j: nat, res: nat, pot: nat, next: nat)
      requires Valid() && w <= NumWords(s) && w * 32 <= c < |s| && c1 == c + 1
      requires j == w + (c - w * 32) && res == Partial(s, w, c) && pot == Power(j)
      requires next == BitDigestStep(res, pot, s[c])
      ensures next == Partial(s, w, c1)
    {
    }

    lemma {:induction false} DeferredStep(s: Str, w: nat, c: nat, c1: nat, j: nat, res: nat, pot: nat, next: nat)
      requires Valid() && w <= NumWords(s) && w * 32 <= c < |s| && c1 == c + 1
      requires j == w + (c - w * 32) && res == Deferred(s, w, c) && pot == Power(j)
      requires next == if s[c] then res + pot + pot else res + pot
      ensures next == Deferred(s, w, c1)
    {
    }

    lemma {:induction false} StatePrefixExtend(s: Str, v: seq<nat>, pots: seq<nat>, k: nat, k1: nat, res: nat, pot: nat)
      requires Valid() && IsStatePrefix(s, v, pots, k) && k < NumWords(s) && k1 == k + 1
      requires res == WordsDigest(s, k1) && pot == Power(k1)
      ensures IsStatePrefix(s, v + [res], pots + [pot], k1)
    {
      var v1, pots1 := v + [res], pots + [pot];
      forall i | 0 <= i <= k1
        ensures v1[i] == WordsDigest(s, i)
      {
        if i < k1 {
          assert v1[i] == v[i];
        }
      }
      forall i | 0 <= i <= k1
        ensures pots1[i] == Power(i)
      {
        if i < k1 {
          assert pots1[i] == pots[i];
        }
      }
    }

    /** The word loop of the slow prefix hash stops at the last whole word below ind. */
    lemma {:induction false} WordCount(s: Str, ind: nat, k: nat)
      requires k <= NumWords(s) && k * 32 <= ind <= |s|
      requires k == NumWords(s) || k * 32 + 32 > ind
      ensures k == ind / 32
    {
    }

    /** The digest of the first ind bits continues after word w when w is ind / 32. */
    lemma {:induction false} DigestAt(s: Str, w: nat, ind: nat)
      requires Valid() && ind <= |s| && w == ind / 32
      ensures w <= NumWords(s) && w * 32 <= ind
      ensures Digest(s, ind) == Partial(s, w, ind)
    {
      WordIndex(s, ind);
    }

    // -------------------------------------------------------------------------------------
    // Properties.

    /** A bit step taken without reduction lands on the reduced bit step's remainder. */
    lemma {:induction false} DeferredBitStepMod(acc: nat, d: nat, pot: nat, bit: bool)
      requires Valid() && acc % modulo == d
      ensures DeferredBitStep(acc, pot, bit) % modulo == BitDigestStep(d, pot, bit)
    {
      if bit {
        TwiceStep(acc, d, pot, modulo);
        SameRemainder(acc + pot + pot, acc + (pot + pot), modulo);
      } else {
        OnceStep(acc, d, pot, modulo);
      }
    }

    /** The bit step adds the power once, and once more for a set bit, with one reduction. */
    lemma {:induction false} BitDigestStepSum(d: nat, pot: nat, bit: bool)
      requires Valid() && d < modulo
      ensures BitDigestStep(d, pot, bit) == (d + pot + (if bit then pot else 0)) % modulo
    {
      ModSmall(d, modulo);
      if bit {
        TwiceStep(d, d, pot, modulo);
        SameRemainder(d + (pot + pot), d + pot + pot, modulo);
      }
    }

    /**
     * Deferring the reduction: what the fast prefix hash accumulates after word w is
     * congruent to the digest the slow prefix hash reaches, bit by bit.
     */
    lemma {:induction false} FastAgrees(s: Str, w: nat, c: nat)
      requires Valid() && w <= NumWords(s) && w * 32 <= c <= |s|
      ensures Deferred(s, w, c) % modulo == Partial(s, w, c)
      decreases c
    {
      if c == w * 32 {
        ModSmall(WordsDigest(s, w), modulo);
      } else {
        var c0 := c - 1;
        FastAgrees(s, w, c0);
        var j := w + (c0 - w * 32);
        var acc := Deferred(s, w, c0);
        var d := Partial(s, w, c0);
        var p := Power(j);
        var bit := s[c0];
        DeferredBitStepMod(acc, d, p, bit);
        BitStep(s, w, c0, c, j, d, p, BitDigestStep(d, p, bit));
        DeferredStep(s, w, c0, c, j, acc, p, DeferredBitStep(acc, p, bit));
      }
    }

    /** The power held after j multiplications is base^(j + 2) reduced modulo `modulo`. */
    lemma {:induction false} PowerIsPow(j: nat)
      requires Valid()
      ensures Power(j) == Pow(base, j + 2) % modulo
    {
      if j == 0 {
        assert Pow(base, 1) == Mul(base, 1);
        MulIsProduct(base, 1);
        assert Pow(base, 2) == Mul(base, base);
        MulIsProduct(base, base);
      } else {
        PowerIsPow(j - 1);
        var e := j - 1 + 2;
        assert e + 1 == j + 2;
        ModMulMod(Pow(base, e), base, modulo);
        ModSmall(base, modulo);
        assert e + 1 - 1 == e;
        MulIsProduct(base, Pow(base, e));
      }
    }

    /**
     * Within a storage word, one more bit adds the current power of the base once, and once
     * more when the bit is set: a 0 bit still changes the digest. The power is the one for
     * ind / 32 words and ind % 32 bits.
     */
    lemma {:induction false} DigestBitStep(s: Str, ind: nat, next: nat, j: nat)
      requires Valid() && ind < |s| && next == ind + 1 && next % 32 != 0
      requires j == ind / 32 + ind % 32
      ensures Digest(s, next) == (Digest(s, ind) + Power(j) + (if s[ind] then Power(j) else 0)) % modulo
    {
      var w := ind / 32;
      DigestAt(s, w, ind);
      DigestAt(s, w, next);
      var d := Partial(s, w, ind);
      var p := Power(j);
      var bit := s[ind];
      BitStep(s, w, ind, next, j, d, p, BitDigestStep(d, p, bit));
      BitDigestStepSum(d, p, bit);
    }

    /** The digest at a word boundary is the digest of the whole words before it. */
    lemma {:induction false} PartialAtWord(s: Str, w: nat, c: nat)
      requires Valid() && w <= NumWords(s) && c == w * 32 <= |s|
      ensures Partial(s, w, c) == WordsDigest(s, w)
    {
    }

    /**
     * At a word boundary the digest takes the next whole word at once: it adds (word + 1)
     * times the power of the base for that word.
     */
    lemma {:induction false} DigestWordStep(s: Str, k: nat, c: nat, next: nat)
      requires Valid() && c == k * 32 && next == c + 32 <= |s|
      ensures k < NumWords(s)
      ensures Digest(s, next) == WordDigestStep(Digest(s, c), WordValue(s, k), Power(k))
    {
      var k1 := k + 1;
      DigestAt(s, k1, next);
      DigestAt(s, k, c);
      PartialAtWord(s, k1, next);
      PartialAtWord(s, k, c);
      var x := WordValue(s, k);
      var d := WordsDigest(s, k);
      var p := Power(k);
      WordStep(s, k, k1, x, d, p, WordDigestStep(d, x, p));
    }

    /** A whole word below ind reads the same in s and in its first ind bits. */
    lemma {:induction false} WordValueOfPrefix(s: Str, ind: nat, k: nat)
      requires k * 32 + 32 <= ind <= |s|
      ensures k < NumWords(s) && k < NumWords(s[..ind])
      ensures WordValue(s, k) == WordValue(s[..ind], k)
    {
      var lo := k * 32;
      BitsValueAgree(s, s[..ind], lo, 32);
    }

    lemma {:induction false} WordsDigestOfPrefix(s: Str, ind: nat, w: nat)
      requires Valid() && ind <= |s| && w * 32 <= ind
      ensures w <= NumWords(s) && w <= NumWords(s[..ind])
      ensures WordsDigest(s, w) == WordsDigest(s[..ind], w)
    {
      if w > 0 {
        var t := s[..ind];
        var k := w - 1;
        WordsDigestOfPrefix(s, ind, k);
        WordValueOfPrefix(s, ind, k);
        var x := WordValue(s, k);
        var d := WordsDigest(s, k);
        var p := Power(k);
        var next := WordDigestStep(d, x, p);
        WordStep(s, k, w, x, d, p, next);
        WordStep(t, k, w, x, d, p, next);
      }
    }

    lemma {:induction false} PartialOfPrefix(s: Str, ind: nat, w: nat, c: nat)
      requires Valid() && w * 32 <= c <= ind <= |s|
      ensures w <= NumWords(s) && w <= NumWords(s[..ind])
      ensures Partial(s, w, c) == Partial(s[..ind], w, c)
      decreases c
    {
      WordsDigestOfPrefix(s, ind, w);
      var t := s[..ind];
      if c == w * 32 {
        PartialAtWord(s, w, c);
        PartialAtWord(t, w, c);
      } else {
        var c0 := c - 1;
        PartialOfPrefix(s, ind, w, c0);
        var j := w + (c0 - w * 32);
        var d := Partial(s, w, c0);
        var p := Power(j);
        var next := BitDigestStep(d, p, s[c0]);
        assert t[c0] == s[c0];
        BitStep(s, w, c0, c, j, d, p, next);
        BitStep(t, w, c0, c, j, d, p, next);
      }
    }

    /** The digest of a prefix reads nothing beyond it. */
    lemma {:induction false} DigestOfPrefix(s: Str, ind: nat)
      requires Valid() && ind <= |s|
      ensures Digest(s, ind) == Digest(s[..ind], ind)
    {
      var w := ind / 32;
      var t := s[..ind];
      DigestAt(s, w, ind);
      DigestAt(t, w, ind);
      PartialOfPrefix(s, ind, w, ind);
    }
  }
}
