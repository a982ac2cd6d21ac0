/**
  Modular arithmetic of src/utils/cipherUtils.ts: `mod`, `gcd` and the
  linear-search `modInverse`.  JavaScript's `%` truncates toward zero, so it
  is modelled by `JsRem`; Dafny's own `%` (Euclidean) is used only to state
  what the results mean.
*/
module ModArith {
  import opened Results

  function Abs(x: int): nat { if x < 0 then -x else x }

  /** JavaScript's `n % m` on integers: the remainder takes the sign of `n`. */
  function JsRem(n: int, m: int): (r: int)
    requires m != 0
    ensures Abs(r) < Abs(m)
    ensures n >= 0 ==> r >= 0
    ensures n <= 0 ==> r <= 0
    ensures (n - r) % Abs(m) == 0
  {
    if n >= 0 then
      DivModFacts(n, Abs(m));
      n % Abs(m)
    else
      DivModFacts(-n, Abs(m));
      MultipleNegated(-n - (-n) % Abs(m), Abs(m));
      -((-n) % Abs(m))
  }

  /** `mod` (cipherUtils.ts:5): `((n % m) + m) % m` with JavaScript's `%`. */
  function Mod(n: int, m: int): (r: int)
    requires m != 0
    ensures m > 0 ==> 0 <= r < m && r == n % m
  {
    var first := JsRem(n, m);
    var r := JsRem(first + m, m);
    if m > 0 then
      ModOfSum(first, m);
      ModUnique(n, m, (n - first) / m + (if first < 0 then -1 else 0), if first < 0 then first + m else first);
      r
    else
      r
  }

  // ---------------------------------------------------------------------------
  // Facts about Euclidean division used throughout the model
  // ---------------------------------------------------------------------------

  lemma {:induction false} MulAtLeast(k: int, t: int)
    requires k > 0 && t >= 1
    ensures k * t >= k
  {
    if t > 1 {
      MulAtLeast(k, t - 1);
      assert k * t == k * (t - 1) + k;
    }
  }

  /** Quotient and remainder are unique: the basis of every `%` argument below. */
  lemma ModUnique(n: int, k: int, q: int, r: int)
    requires k > 0 && n == k * q + r && 0 <= r < k
    ensures n % k == r && n / k == q
  {
    var t := q - n / k;
    assert k * t == n % k - r;
    if t >= 1 {
      MulAtLeast(k, t);
    } else if t <= -1 {
      MulAtLeast(k, -t);
    }
  }

  lemma DivModFacts(n: int, k: int)
    requires k > 0
    ensures (n - n % k) % k == 0
  {
    ModUnique(n - n % k, k, n / k, 0);
  }

  lemma MultipleNegated(x: int, k: int)
    requires k > 0 && x % k == 0
    ensures (-x) % k == 0
  {
    ModUnique(-x, k, -(x / k), 0);
  }

  lemma MultipleMod(k: int, q: int)
    requires k > 0
    ensures (k * q) % k == 0
  {
    ModUnique(k * q, k, q, 0);
  }

  /** Adding a multiple of the modulus does not change the remainder. */
  lemma ModAddMultiple(x: int, k: int, q: int)
    requires k > 0
    ensures (x + k * q) % k == x % k
  {
    ModUnique(x + k * q, k, x / k + q, x % k);
  }

  lemma ModOfSum(first: int, m: int)
    requires m > 0 && -m < first < m
    ensures JsRem(first + m, m) == (if first < 0 then first + m else first)
  {
    if first >= 0 {
      ModUnique(first + m, m, 1, first);
    } else {
      ModUnique(first + m, m, 0, first + m);
    }
  }

  lemma JsRemNonNegative(n: int, m: int)
    requires n >= 0 && m > 0
    ensures JsRem(n, m) == n % m
  {
  }

  // ---------------------------------------------------------------------------
  // gcd (cipherUtils.ts:17-20)
  // ---------------------------------------------------------------------------

  /** `gcd(a, b)`: Euclid's algorithm with JavaScript's remainder. */
  function Gcd(a: int, b: int): int
    decreases Abs(b)
  {
    if b == 0 then a else Gcd(b, JsRem(a, b))
  }

  /** `d` divides `n`, in the sense of integers. */
  predicate Divides(d: int, n: int)
  {
    if d == 0 then n == 0 else n % Abs(d) == 0
  }

  lemma {:induction false} GcdNonNegative(a: int, b: int)
    requires a >= 0 && b >= 0
    ensures Gcd(a, b) >= 0
    decreases b
  {
    if b != 0 {
      GcdNonNegative(b, JsRem(a, b));
    }
  }

  lemma DividesSum(d: int, x: int, y: int, t: int)
    requires d > 0 && x % d == 0 && y % d == 0
    ensures (x * t + y) % d == 0
  {
    var p, q := x / d, y / d;
    ModUnique(x, d, p, 0);
    ModUnique(y, d, q, 0);
    assert x * t + y == d * (p * t + q);
    MultipleMod(d, p * t + q);
  }

  /** gcd(a, b) divides both arguments (for non-negative arguments). */
  lemma {:induction false} GcdDivides(a: int, b: int)
    requires a >= 0 && b >= 0
    ensures Divides(Gcd(a, b), a) && Divides(Gcd(a, b), b)
    decreases b
  {
    if b != 0 {
      var r := JsRem(a, b);
      JsRemNonNegative(a, b);
      GcdDivides(b, r);
      GcdNonNegative(b, r);
      DividesDividend(Gcd(b, r), a, b);
    }
  }

  /** A non-negative common divisor of b and a % b divides a. */
  lemma DividesDividend(g: int, a: int, b: int)
    requires a >= 0 && b > 0 && g >= 0
    requires Divides(g, b) && Divides(g, a % b)
    ensures Divides(g, a)
  {
    assert g != 0;
    assert a == b * (a / b) + a % b;
    DividesSum(g, b, a % b, a / b);
  }

  /** Every positive common divisor of a and b divides gcd(a, b), whatever their signs. */
  lemma {:induction false} GcdGreatest(a: int, b: int, d: int)
    requires d > 0
    requires Divides(d, a) && Divides(d, b)
    ensures Divides(d, Gcd(a, b))
    decreases Abs(b)
  {
    if b != 0 {
      var r := JsRem(a, b);
      var t := (a - r) / Abs(b);
      assert a - r == Abs(b) * t;
      if b < 0 {
        MultipleNegated(b, d);
      }
      DividesSum(d, Abs(b), a, -t);
      assert Abs(b) * -t + a == r;
      GcdGreatest(b, r, d);
    }
  }

  lemma GcdExample()
    ensures Gcd(48, 18) == 6 && Gcd(7, 0) == 7
  {
    assert JsRem(48, 18) == 12 && JsRem(18, 12) == 6 && JsRem(12, 6) == 0;
  }

  // ---------------------------------------------------------------------------
  // modInverse (cipherUtils.ts:7-15)
  // ---------------------------------------------------------------------------

  /** The loop test of `modInverse`: `(a * x) % m === 1`. */
  predicate InvertsMod(a: int, x: int, m: int)
    requires m != 0
  {
    JsRem(a * x, m) == 1
  }

  /** What the search loop returns when it reaches candidate `x`. */
  function InverseSearch(a: int, m: int, x: int): int
    requires x >= 1
    decreases m - x
  {
    if x >= m then 1
    else if InvertsMod(a, x, m) then x
    else InverseSearch(a, m, x + 1)
  }

  /** The value `modInverse(a, m)` returns, including the fallback 1. */
  function ModInverseOf(a: int, m: int): int
  {
    InverseSearch(a, m, 1)
  }

  /** `modInverse`: linear search over 1..m-1 with an early return. */
  method ModInverse(a: int, m: int) returns (r: int)
    ensures r == ModInverseOf(a, m)
  {
    var x := 1;
    while x < m
      invariant x >= 1
      invariant InverseSearch(a, m, x) == ModInverseOf(a, m)
      decreases m - x
    {
      if JsRem(a * x, m) == 1 {
        return x;
      }
      x := x + 1;
    }
    return 1;
  }

  ghost predicate HasInverse(a: int, m: int)
  {
    exists x :: 1 <= x < m && InvertsMod(a, x, m)
  }

  lemma {:induction false} InverseSearchSpec(a: int, m: int, x: int)
    requires x >= 1
    requires forall y :: 1 <= y < x && y < m ==> !InvertsMod(a, y, m)
    ensures var r := InverseSearch(a, m, x);
      && r >= 1
      && (HasInverse(a, m) ==> r < m && InvertsMod(a, r, m) && forall y :: 1 <= y < r ==> !InvertsMod(a, y, m))
      && (!HasInverse(a, m) ==> r == 1)
    decreases m - x
  {
    if x < m && !InvertsMod(a, x, m) {
      InverseSearchSpec(a, m, x + 1);
    }
  }

  /**
    `modInverse(a, m)` is the least x in [1, m) with (a*x) % m === 1 when there
    is one; otherwise it is the sentinel 1, which is never 0.
  */
  lemma ModInverseSpec(a: int, m: int)
    ensures ModInverseOf(a, m) >= 1
    ensures HasInverse(a, m) ==>
      var r := ModInverseOf(a, m);
      r < m && InvertsMod(a, r, m) && forall y :: 1 <= y < r ==> !InvertsMod(a, y, m)
    ensures !HasInverse(a, m) ==> ModInverseOf(a, m) == 1
  {
    InverseSearchSpec(a, m, 1);
  }

  lemma ModInverseExample()
    ensures ModInverseOf(7, 26) == 15
  {
    InverseSearchSpec(7, 26, 1);
    assert InvertsMod(7, 15, 26);
    forall y | 1 <= y < 15 ensures !InvertsMod(7, y, 26) {
    }
  }

  /**
    For a >= 0 coprime with 26 (the Affine key check), modInverse(a, 26)
    really is an inverse modulo 26.
  */
  lemma CoprimeInverse26(a: int)
    requires a >= 0 && Gcd(a, 26) == 1
    ensures (a * ModInverseOf(a, 26)) % 26 == 1
  {
    var r := a % 26;
    CoprimeResidue26(a);
    var x := InverseTable26(r);
    InvertsModNonNegative(a, x);
    ModInverseSpec(a, 26);
    InvertsModNonNegative(a, ModInverseOf(a, 26));
  }

  /** For non-negative factors the search's test is the ordinary remainder, and it only depends on a's residue. */
  lemma InvertsModNonNegative(a: int, x: int)
    requires a >= 0 && x >= 1
    ensures InvertsMod(a, x, 26) <==> (a * x) % 26 == 1
    ensures (a * x) % 26 == ((a % 26) * x) % 26
  {
    MulResidue(a, x, 26);
    assert a * x >= 0;
    JsRemNonNegative(a * x, 26);
  }

  /** A number that passes the gcd test against 26 has an odd residue other than 13. */
  lemma CoprimeResidue26(a: int)
    requires Gcd(a, 26) == 1
    ensures Mod(a, 26) % 2 == 1 && Mod(a, 26) != 13
  {
    var q, r := a / 26, a % 26;
    if r % 2 == 0 {
      ModUnique(a, 2, 13 * q + r / 2, 0);
      GcdGreatest(a, 26, 2);
      assert false;
    }
    if r == 13 {
      ModUnique(a, 13, 2 * q + 1, 0);
      GcdGreatest(a, 26, 13);
      assert false;
    }
  }

  /** For a >= 0 the gcd test accepts exactly the odd residues other than 13. */
  lemma CoprimeIff26(a: int)
    requires a >= 0
    ensures Gcd(a, 26) == 1 <==> a % 26 % 2 == 1 && a % 26 != 13
  {
    if a % 26 % 2 == 1 && a % 26 != 13 {
      var r := a % 26;
      JsRemNonNegative(a, 26);
      assert Gcd(a, 26) == Gcd(26, r);
      assert Gcd(26, r) == 1 by {
        if r == 1 { assert Gcd(26, 1) == 1; }
        else if r == 3 { assert Gcd(26, 3) == 1; }
        else if r == 5 { assert Gcd(26, 5) == 1; }
        else if r == 7 { assert Gcd(26, 7) == 1; }
        else if r == 9 { assert Gcd(26, 9) == 1; }
        else if r == 11 { assert Gcd(26, 11) == 1; }
        else if r == 15 { assert Gcd(26, 15) == 1; }
        else if r == 17 { assert Gcd(26, 17) == 1; }
        else if r == 19 { assert Gcd(26, 19) == 1; }
        else if r == 21 { assert Gcd(26, 21) == 1; }
        else if r == 23 { assert Gcd(26, 23) == 1; }
        else { assert r == 25; assert Gcd(26, 25) == 1; }
      }
    } else if Gcd(a, 26) == 1 {
      CoprimeResidue26(a);
    }
  }

  /** Residues that agree stay in agreement after multiplying both by c. */
  lemma ModMulCongruent(x: int, y: int, c: int, k: int)
    requires k > 0 && x % k == y % k
    ensures (c * x) % k == (c * y) % k
  {
    MulResidue(x, c, k);
    MulResidue(y, c, k);
  }

  /** Residues that agree stay in agreement after adding. */
  lemma ModAddCongruent(u: int, u': int, v: int, v': int, k: int)
    requires k > 0 && u % k == u' % k && v % k == v' % k
    ensures (u + v) % k == (u' + v') % k
  {
    ModOfResidueSum(u, v, k);
    ModOfResidueSum(u', v', k);
  }

  /** The remainder of a sum is the remainder of the sum of the remainders. */
  lemma ModOfResidueSum(u: int, v: int, k: int)
    requires k > 0
    ensures (u + v) % k == (u % k + v % k) % k
  {
    var q := u / k + v / k;
    assert u + v == (u % k + v % k) + k * q;
    ModAddMultiple(u % k + v % k, k, q);
  }

  /** A negative number has no inverse in the sense of the search: a*x is negative for every candidate. */
  lemma NegativeNoInverse(a: int, m: int)
    requires a < 0 && m > 0
    ensures ModInverseOf(a, m) == 1
  {
    forall x | 1 <= x < m ensures !InvertsMod(a, x, m) {
      assert a * x < 0;
    }
    ModInverseSpec(a, m);
  }

  /** Multiplication respects residues. */
  lemma MulResidue(a: int, x: int, k: int)
    requires k > 0
    ensures (a * x) % k == ((a % k) * x) % k
  {
    var q, r := a / k, a % k;
    assert a * x == r * x + k * (q * x);
    ModAddMultiple(r * x, k, q * x);
  }

  /** The inverses of the odd residues other than 13, modulo 26. */
  function InverseTable26(r: int): (x: int)
    requires 0 <= r < 26 && r % 2 == 1 && r != 13
    ensures 1 <= x < 26 && (r * x) % 26 == 1
  {
    if r == 1 then 1 else if r == 3 then 9 else if r == 5 then 21
    else if r == 7 then 15 else if r == 9 then 3 else if r == 11 then 19
    else if r == 15 then 7 else if r == 17 then 23 else if r == 19 then 11
    else if r == 21 then 5 else if r == 23 then 17 else 25
  }

  /** The same search, reporting failure instead of the sentinel 1. */
  function ModInverseChecked(a: int, m: int): (r: Option<int>)
    ensures r.Some? ==> r.value == ModInverseOf(a, m) && 1 <= r.value < m && InvertsMod(a, r.value, m)
    ensures r.Some? <==> HasInverse(a, m)
  {
    ModInverseSpec(a, m);
    var x := ModInverseOf(a, m);
    if 1 <= x < m && InvertsMod(a, x, m) then Some(x) else None
  }

  /** A non-negative number has an inverse modulo 26 exactly when it is coprime with 26. */
  lemma InverseIffCoprime26(d: int)
    requires d >= 0
    ensures HasInverse(d, 26) <==> Gcd(d, 26) == 1
  {
    if Gcd(d, 26) == 1 {
      CoprimeHasInverse26(d);
    }
    if HasInverse(d, 26) {
      var x :| 1 <= x < 26 && InvertsMod(d, x, 26);
      InverseCoprime(d, x, 26);
    }
  }

  /** The table supplies an inverse for every number coprime with 26. */
  lemma CoprimeHasInverse26(d: int)
    requires d >= 0 && Gcd(d, 26) == 1
    ensures HasInverse(d, 26)
  {
    CoprimeIff26(d);
    var x := InverseTable26(d % 26);
    InvertsModNonNegative(d, x);
    assert InvertsMod(d, x, 26);
  }

  /** Whatever has an inverse modulo m is coprime with m. */
  lemma InverseCoprime(d: int, x: int, m: int)
    requires d >= 0 && x >= 1 && m > 0 && InvertsMod(d, x, m)
    ensures Gcd(d, m) == 1
  {
    JsRemNonNegative(d * x, m);
    var q := (d * x) / m;
    assert d * x + m * -q == 1;
    var g := Gcd(d, m);
    GcdDivides(d, m);
    GcdNonNegative(d, m);
    assert g != 0;
    DividesSum(g, m, 0, -q);
    DividesSum(g, d, m * -q, x);
    assert 1 % g == 0;
  }
}
