/** Helper facts about `/` and `%` on naturals, used by the hashes. */
module ModArith {

  /** b^e, through the recursive product below. */
  function Pow(b: nat, e: nat): nat {
    if e == 0 then 1 else Mul(b, Pow(b, e - 1))
  }

  /** `c` divides `a`. */
  ghost predicate Divides(c: nat, a: nat) {
    c >= 1 && a % c == 0
  }

  /** a and b have no common divisor other than 1. */
  ghost predicate Coprime(a: nat, b: nat) {
    forall c :: Divides(c, a) && Divides(c, b) ==> c == 1
  }

  lemma MulAtLeast(c: int, z: int)
    requires c >= 1 && z >= 1
    ensures c * z >= c
  {
  }

  lemma DivModUnique(a: int, c: int, q: int, r: int)
    requires c >= 1 && a == c * q + r && 0 <= r < c
    ensures a / c == q && a % c == r
  {
    var q', r' := a / c, a % c;
    assert c * q' + r' == c * q + r;
    if q' > q {
      MulAtLeast(c, q' - q);
    } else if q' < q {
      MulAtLeast(c, q - q');
    }
  }

  lemma ModAddMultiple(c: nat, k: nat, r: nat)
    requires c >= 1
    ensures (c * k + r) % c == r % c
  {
    DivModUnique(c * k + r, c, k + r / c, r % c);
  }

  lemma ModMulModLeft(a: nat, c: nat, m: nat)
    requires m >= 1
    ensures (a % m) * c % m == a * c % m
  {
    var q, r := a / m, a % m;
    var k := q * c;
    assert a == m * q + r;
    assert a * c == m * k + r * c;
    ModAddMultiple(m, k, r * c);
  }

  lemma ModMulMod(a: nat, b: nat, m: nat)
    requires m >= 1
    ensures (a % m) * (b % m) % m == a * b % m
  {
    ModMulModLeft(a, b % m, m);
    ModMulModLeft(b, a, m);
  }

  lemma ModAddModLeft(a: nat, b: nat, m: nat)
    requires m >= 1
    ensures (a % m + b) % m == (a + b) % m
  {
    var q, r := a / m, a % m;
    assert a + b == m * q + (r + b);
    ModAddMultiple(m, q, r + b);
  }

  lemma ModAddMod(a: nat, b: nat, m: nat)
    requires m >= 1
    ensures (a % m + b % m) % m == (a + b) % m
  {
    ModAddModLeft(a, b % m, m);
    ModAddModLeft(b, a, m);
  }

  lemma ModSmall(a: nat, m: nat)
    requires a < m
    ensures a % m == a
  {
    DivModUnique(a, m, 0, a);
  }

  lemma ModOfMod(a: nat, m: nat)
    requires m >= 1
    ensures a % m % m == a % m
  {
  }

  /** A common divisor of y and x is a divisor of x % y, and conversely. */
  lemma ModDivisor(c: nat, x: nat, y: nat)
    requires Divides(c, y) && y >= 1
    ensures Divides(c, x) <==> Divides(c, x % y)
  {
    var q, r := x / y, x % y;
    var t := y / c;
    assert y == c * t;
    assert x == c * (t * q) + r;
    ModAddMultiple(c, t * q, r);
  }

  /** Divisibility is transitive. */
  lemma DividesTransitive(a: nat, b: nat, c: nat)
    requires Divides(a, b) && Divides(b, c)
    ensures Divides(a, c)
  {
    var k := b / a;
    var l := c / b;
    assert c == b * l && b == a * k;
    assert c == a * (k * l);
    ModAddMultiple(a, k * l, 0);
  }

  lemma DividesSelf(a: nat)
    requires a >= 1
    ensures Divides(a, a)
  {
  }

  lemma DividesBound(c: nat, a: nat)
    requires Divides(c, a) && a >= 1
    ensures c <= a
  {
    var k := a / c;
    assert a == c * k;
    MulAtLeast(c, k);
  }

  /** The quotient by a divisor divides the dividend. */
  lemma QuotientDivides(a: nat, x: nat)
    requires Divides(x, a) && a >= 1
    ensures a / x >= 1 && Divides(a / x, a)
  {
    var q := a / x;
    assert a == x * q;
    ModAddMultiple(q, x, 0);
  }

  // Product, quotient and remainder written as recursive functions. Their definitions unfold
  // to linear arithmetic only, so proofs over block and superblock positions stay linear;
  // MulIsProduct and DivModIsEuclid tie them to `*`, `/` and `%`.

  function Mul(a: nat, b: nat): nat {
    if a == 0 then 0 else Mul(a - 1, b) + b
  }

  function Div(a: nat, b: nat): nat
    requires b >= 1
    decreases a
  {
    if a < b then 0 else Div(a - b, b) + 1
  }

  function Mod(a: nat, b: nat): nat
    requires b >= 1
    decreases a
  {
    if a < b then a else Mod(a - b, b)
  }

  lemma {:induction false} MulIsProduct(a: nat, b: nat)
    ensures Mul(a, b) == a * b
  {
    if a > 0 {
      MulIsProduct(a - 1, b);
      assert (a - 1) * b + b == a * b;
    }
  }

  lemma {:induction false} DivModIsEuclid(a: nat, b: nat)
    requires b >= 1
    ensures Div(a, b) == a / b && Mod(a, b) == a % b
    decreases a
  {
    if a < b {
      DivModUnique(a, b, 0, a);
    } else {
      DivModIsEuclid(a - b, b);
      DivModUnique(a, b, (a - b) / b + 1, (a - b) % b);
    }
  }

  /** a == Div(a, b) * b + Mod(a, b) with Mod(a, b) < b. */
  lemma {:induction false} DivModSplit(a: nat, b: nat)
    requires b >= 1
    ensures a == Mul(Div(a, b), b) + Mod(a, b) && Mod(a, b) < b
    decreases a
  {
    if a >= b {
      DivModSplit(a - b, b);
    }
  }
}
