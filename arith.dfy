/** Integer arithmetic shared by the factoring engine and the RSA helpers:
    powers, Euclid's gcd with its Bezout coefficients, divisibility,
    primality, integer roots and bit lengths. Python integers are unbounded,
    and so are these. */
module Arith {
  import opened Wrappers

  // ---------------------------------------------------------------------
  // Powers
  // ---------------------------------------------------------------------

  /** `b ** e` on non-negative Python integers. */
  function Pow(b: nat, e: nat): nat
  {
    if e == 0 then 1 else b * Pow(b, e - 1)
  }

  lemma {:induction false} PowAdd(b: nat, i: nat, j: nat)
    ensures Pow(b, i + j) == Pow(b, i) * Pow(b, j)
    decreases i
  {
    if i > 0 {
      PowAdd(b, i - 1, j);
      var x, y := Pow(b, i - 1), Pow(b, j);
      assert Pow(b, i + j) == b * Pow(b, (i - 1) + j);
      assert Pow(b, i) == b * x;
      MulAssoc(b, x, y);
    }
  }

  lemma MulAssoc(a: int, b: int, c: int)
    ensures a * (b * c) == (a * b) * c
  {
  }

  lemma {:induction false} PowMul(a: nat, b: nat, e: nat)
    ensures Pow(a * b, e) == Pow(a, e) * Pow(b, e)
  {
    if e > 0 {
      PowMul(a, b, e - 1);
      var x, y := Pow(a, e - 1), Pow(b, e - 1);
      assert Pow(a * b, e) == (a * b) * (x * y);
      MulRearrange(a, b, x, y);
    }
  }

  lemma {:induction false} PowPow(b: nat, i: nat, j: nat)
    ensures Pow(Pow(b, i), j) == Pow(b, i * j)
  {
    if j > 0 {
      PowPow(b, i, j - 1);
      assert i * j == i + i * (j - 1);
      PowAdd(b, i, i * (j - 1));
    }
  }

  lemma MulRearrange(a: int, b: int, x: int, y: int)
    ensures (a * b) * (x * y) == (a * x) * (b * y)
  {
  }

  lemma {:induction false} PowOne(e: nat)
    ensures Pow(1, e) == 1
  {
    if e > 0 {
      PowOne(e - 1);
    }
  }

  lemma {:induction false} PowPositive(b: nat, e: nat)
    requires b >= 1
    ensures Pow(b, e) >= 1
  {
    if e > 0 {
      PowPositive(b, e - 1);
      MulAtLeast(b, Pow(b, e - 1));
    }
  }

  lemma MulAtLeast(a: nat, b: nat)
    requires a >= 1 && b >= 1
    ensures a * b >= a && a * b >= b
  {
  }

  lemma MulMonotone(a: nat, b: nat, c: nat)
    requires a <= b
    ensures a * c <= b * c
  {
  }

  lemma MulStrict(a: nat, b: nat, c: nat)
    requires a < b && c >= 1
    ensures c * a < c * b
  {
  }

  /** Powers grow strictly with the base for every positive exponent. */
  lemma {:induction false} PowStrictBase(a: nat, b: nat, k: nat)
    requires a < b && k >= 1
    ensures Pow(a, k) < Pow(b, k)
  {
    if k > 1 {
      PowStrictBase(a, b, k - 1);
      var x, y := Pow(a, k - 1), Pow(b, k - 1);
      MulMonotone(a, b, x);
      MulStrict(x, y, b);
      assert Pow(a, k) == a * x && Pow(b, k) == b * y;
    }
  }

  /** Powers of a base >= 2 grow strictly with the exponent. */
  lemma {:induction false} PowStrictExponent(b: nat, i: nat, j: nat)
    requires b >= 2 && i < j
    ensures Pow(b, i) < Pow(b, j)
    decreases j
  {
    PowPositive(b, j - 1);
    if i < j - 1 {
      PowStrictExponent(b, i, j - 1);
    }
    assert Pow(b, j) == b * Pow(b, j - 1);
  }

  /** For a base >= 2 the power is at least the base, and for an exponent >= 2
      it is strictly larger than the base. */
  lemma PowAboveBase(b: nat, k: nat)
    requires b >= 2 && k >= 1
    ensures Pow(b, k) >= b
    ensures k >= 2 ==> Pow(b, k) > b
  {
    PowPositive(b, k - 1);
    assert Pow(b, k) == b * Pow(b, k - 1);
    if k >= 2 {
      PowStrictExponent(b, 0, k - 1);
    }
  }

  // ---------------------------------------------------------------------
  // Euclidean division
  // ---------------------------------------------------------------------

  lemma QuotientNonnegative(a: int, b: int)
    requires a >= 0 && b >= 1
    ensures a / b >= 0
  {
  }

  /** The product of two naturals, as a natural. */
  lemma NatProduct(a: nat, b: nat) returns (c: nat)
    ensures c == a * b
  {
    c := a * b;
  }

  /** Euclidean division of naturals, with its defining identity. */
  lemma Divide(k: nat, r: nat) returns (q: nat, s: nat)
    requires r >= 1
    ensures q == k / r && s == k % r
    ensures k == r * q + s && s < r && r * q >= 0
  {
    q, s := k / r, k % r;
  }

  /** An exact division multiplies back. */
  lemma ExactQuotient(n: nat, d: nat)
    requires d > 0 && n % d == 0
    ensures n == (n / d) * d
  {
  }

  /** Quotient and remainder are determined by the division identity. */
  lemma ModUnique(a: int, d: int, q: int, r: int)
    requires d > 0 && a == q * d + r && 0 <= r < d
    ensures a % d == r && a / d == q
  {
    var q0, r0 := a / d, a % d;
    assert a == q0 * d + r0;
    MulDistributes(q0, q, d);
    if q0 > q {
      MulAtLeast(d, q0 - q);
    } else if q0 < q {
      MulDistributes(q, q0, d);
      MulAtLeast(d, q - q0);
    }
  }

  lemma MulDistributes(x: int, y: int, d: int)
    ensures (x - y) * d == x * d - y * d
    ensures d * (x - y) == x * d - y * d
  {
  }

  /** `(a * b) % n` only depends on `a % n`. */
  lemma ModMulLeft(a: int, b: int, n: int)
    requires n > 0
    ensures (a * b) % n == ((a % n) * b) % n
  {
    var q, r := a / n, a % n;
    var q', r' := (r * b) / n, (r * b) % n;
    assert a * b == (q * b + q') * n + r' by {
      assert a == q * n + r;
      assert r * b == q' * n + r';
    }
    ModUnique(a * b, n, q * b + q', r');
  }

  lemma ModMulBoth(a: int, b: int, n: int)
    requires n > 0
    ensures (a * b) % n == ((a % n) * (b % n)) % n
  {
    var r := a % n;
    assert (a * b) % n == (r * b) % n by {
      ModMulLeft(a, b, n);
    }
    assert (r * b) % n == (r * (b % n)) % n by {
      ModMulRight(r, b, n);
    }
  }

  lemma ModMulRight(a: int, b: int, n: int)
    requires n > 0
    ensures (a * b) % n == (a * (b % n)) % n
  {
    var s := b % n;
    ModMulLeft(b, a, n);
    assert b * a == a * b && s * a == a * s;
  }

  lemma ModOfMultipleShift(k: int, n: int, r: int)
    requires n > 0
    ensures (k * n + r) % n == r % n
  {
    var q, r0 := r / n, r % n;
    ModUnique(k * n + r, n, k + q, r0);
  }

  /** Equal residues differ by a multiple of the modulus. */
  lemma ModEqDivides(a: int, c: int, n: nat)
    requires n > 0 && a % n == c % n
    ensures Divides(n, c - a)
  {
    assert a == (a / n) * n + a % n && c == (c / n) * n + c % n;
    assert c - a == n * (c / n - a / n);
    DividesMultiple(n, c / n - a / n);
  }

  /** `pow(b, e, n)` only depends on `b % n`. */
  lemma {:induction false} PowMod(b: nat, e: nat, n: nat)
    requires n > 0
    ensures Pow(b % n, e) % n == Pow(b, e) % n
  {
    if e > 0 {
      PowMod(b, e - 1, n);
      var p, p' := Pow(b % n, e - 1), Pow(b, e - 1);
      assert Pow(b % n, e) == (b % n) * p;
      assert Pow(b, e) == b * p';
      ModMulBoth(b % n, p, n);
      ModMulBoth(b, p', n);
      ModUnique(b % n, n, 0, b % n);
    }
  }

  /** `pow(b, e, n)`: modular exponentiation, reducing after every
      multiplication. */
  function ModPow(b: nat, e: nat, n: nat): (r: nat)
    requires n > 0
    ensures r < n
  {
    if e == 0 then 1 % n else (b * ModPow(b, e - 1, n)) % n
  }

  /** Reducing after every multiplication gives the reduced power. */
  lemma {:induction false} ModPowIsPow(b: nat, e: nat, n: nat)
    requires n > 0
    ensures ModPow(b, e, n) == Pow(b, e) % n
  {
    if e > 0 {
      ModPowIsPow(b, e - 1, n);
      var p, r := Pow(b, e - 1), ModPow(b, e - 1, n);
      assert Pow(b, e) == b * p && ModPow(b, e, n) == (b * r) % n;
      ModMulRight(b, p, n);
    }
  }

  // ---------------------------------------------------------------------
  // Divisibility, gcd and Bezout
  // ---------------------------------------------------------------------

  /** `d` is a positive divisor of `m`. */
  predicate Divides(d: nat, m: int)
  {
    d > 0 && m % d == 0
  }

  lemma DividesMultiple(d: nat, k: int)
    requires d > 0
    ensures Divides(d, d * k)
  {
    ModUnique(d * k, d, k, 0);
  }

  lemma DividesLinear(d: nat, a: int, b: int, s: int, t: int)
    requires Divides(d, a) && Divides(d, b)
    ensures Divides(d, a * s + b * t)
  {
    var i, j := a / d, b / d;
    assert a == d * i && b == d * j;
    assert a * s + b * t == d * (i * s + j * t);
    DividesMultiple(d, i * s + j * t);
  }

  /** A positive multiple of `d` is at least `d`. */
  lemma DividesBound(d: nat, m: int)
    requires Divides(d, m) && m > 0
    ensures d <= m
  {
    var k := m / d;
    assert m == d * k;
    MulAtLeast(d, k);
  }

  lemma DividesTransitive(a: nat, b: nat, c: int)
    requires Divides(a, b) && Divides(b, c)
    ensures Divides(a, c)
  {
    var i, j := b / a, c / b;
    assert b == a * i && c == b * j;
    assert c == a * (i * j);
    DividesMultiple(a, i * j);
  }

  lemma DividesProduct(a: nat, b: nat, x: int, y: int)
    requires Divides(a, x) && Divides(b, y)
    ensures Divides(a * b, x * y)
  {
    var i, j := x / a, y / b;
    assert x == a * i && y == b * j;
    assert x * y == (a * b) * (i * j);
    DividesMultiple(a * b, i * j);
  }

  /** `math.gcd` on non-negative integers: Euclid's algorithm. */
  function Gcd(a: nat, b: nat): nat
    decreases b
  {
    if b == 0 then a else Gcd(b, a % b)
  }

  /** Euclid's algorithm extended with Bezout coefficients. */
  function ExtGcd(a: nat, b: nat): (st: (int, int))
    decreases b
    ensures a * st.0 + b * st.1 == Gcd(a, b)
  {
    if b == 0 then (1, 0)
    else
      var st' := ExtGcd(b, a % b);
      var s, t := st'.0, st'.1;
      BezoutStep(a, b, a / b, a % b, s, t);
      (t, s - (a / b) * t)
  }

  /** The gcd divides both arguments. */
  lemma {:induction false} GcdDivides(a: nat, b: nat)
    requires a > 0 || b > 0
    ensures Divides(Gcd(a, b), a) && Divides(Gcd(a, b), b)
    decreases b
  {
    if b == 0 {
      ModUnique(a, a, 1, 0);
    } else {
      GcdDivides(b, a % b);
      var g := Gcd(b, a % b);
      assert a == b * (a / b) + (a % b) * 1;
      DividesLinear(g, b, a % b, a / b, 1);
    }
  }

  /** Every common divisor divides the gcd. */
  lemma GcdGreatest(a: nat, b: nat, c: nat)
    requires Divides(c, a) && Divides(c, b)
    ensures Divides(c, Gcd(a, b))
  {
    var st := ExtGcd(a, b);
    DividesLinear(c, a, b, st.0, st.1);
  }

  lemma GcdPositive(a: nat, b: nat)
    requires a > 0 || b > 0
    ensures Gcd(a, b) > 0
  {
    GcdDivides(a, b);
  }

  lemma GcdSymmetric(a: nat, b: nat)
    ensures Gcd(a, b) == Gcd(b, a)
  {
    if a > 0 || b > 0 {
      GcdDivides(a, b);
      GcdDivides(b, a);
      GcdGreatest(b, a, Gcd(a, b));
      GcdGreatest(a, b, Gcd(b, a));
      DividesBound(Gcd(a, b), Gcd(b, a));
      DividesBound(Gcd(b, a), Gcd(a, b));
    }
  }

  /** A Bezout combination equal to 1 makes two numbers coprime. */
  lemma CoprimeByCombination(a: nat, b: nat, s: int, t: int)
    requires a * s + b * t == 1
    ensures Gcd(a, b) == 1
  {
    assert a > 0 || b > 0;
    GcdDivides(a, b);
    DividesLinear(Gcd(a, b), a, b, s, t);
    DividesBound(Gcd(a, b), 1);
  }

  /** Gauss's lemma: a divisor of `a * b` coprime to `a` divides `b`. */
  lemma Gauss(n: nat, a: nat, b: nat)
    requires Divides(n, a * b) && Gcd(a, n) == 1
    ensures Divides(n, b)
  {
    var st := ExtGcd(a, n);
    var s, t := st.0, st.1;
    var m := a * b;
    var k := m / n;
    ExactQuotient(m, n);
    var c := k * s + b * t;
    BezoutCancel(a, b, n, s, t, k, c);
    DividesMultiple(n, c);
  }

  /** With `a*s + n*t == 1` and `a*b == k*n`, `b` is `n` times `k*s + b*t`. */
  lemma BezoutCancel(a: int, b: int, n: int, s: int, t: int, k: int, c: int)
    requires a * s + n * t == 1 && a * b == k * n && c == k * s + b * t
    ensures b == n * c
  {
    BezoutScale(a, b, n, s, t);
    FactorOut(n, k, s, b, t);
  }
  /** A factor coprime to `n` cancels: `f == w * f` modulo `n` means
      `w == 1` modulo `n`. */
  lemma CancelCoprime(n: nat, f: nat, w: nat)
    requires n >= 2 && Gcd(f, n) == 1 && w >= 1 && f % n == (w * f) % n
    ensures w % n == 1
  {
    assert Divides(n, f * (w - 1)) by {
      ModEqDivides(f, w * f, n);
      MulPredecessor(f, w);
    }
    assert Divides(n, w - 1) by {
      Gauss(n, f, w - 1);
    }
    assert w == ((w - 1) / n) * n + 1 by {
      ExactQuotient(w - 1, n);
    }
    ModUnique(w, n, (w - 1) / n, 1);
  }

  lemma MulPredecessor(f: int, w: int)
    ensures w * f - f == f * (w - 1)
  {
  }


  /** Back-substituting `r = a - q*b` in a combination of `b` and `r`. */
  lemma BezoutStep(a: int, b: int, q: int, r: int, s: int, t: int)
    requires a == q * b + r
    ensures a * t + b * (s - q * t) == b * s + r * t
  {
  }

  lemma BezoutScale(a: int, b: int, n: int, s: int, t: int)
    ensures b * (a * s + n * t) == (a * b) * s + n * (b * t)
  {
  }

  lemma FactorOut(n: int, k: int, s: int, b: int, t: int)
    ensures (n * k) * s + n * (b * t) == n * (k * s + b * t)
  {
  }

  /** Products of numbers coprime to `n` are coprime to `n`. */
  lemma CoprimeMul(a: nat, b: nat, n: nat)
    requires n > 0 && Gcd(a, n) == 1 && Gcd(b, n) == 1
    ensures Gcd(a * b, n) == 1
  {
    var g := Gcd(a * b, n);
    GcdDivides(a * b, n);
    GcdPositive(a, g);
    var h := Gcd(a, g);
    GcdDivides(a, g);
    DividesTransitive(h, g, n);
    GcdGreatest(a, n, h);
    DividesBound(h, 1);
    GcdSymmetric(a, g);
    Gauss(g, a, b);
    GcdGreatest(b, n, g);
    DividesBound(g, 1);
  }

  lemma {:induction false} CoprimePow(x: nat, e: nat, n: nat)
    requires n > 0 && Gcd(x, n) == 1
    ensures Gcd(Pow(x, e), n) == 1
  {
    if e == 0 {
      assert Pow(x, 0) == 1;
      CoprimeByCombination(1, n, 1, 0);
    } else {
      CoprimePow(x, e - 1, n);
      CoprimeMul(x, Pow(x, e - 1), n);
    }
  }

  // ---------------------------------------------------------------------
  // Products of sequences
  // ---------------------------------------------------------------------

  /** The product of the values of `s`. */
  function Product(s: seq<nat>): nat
  {
    if |s| == 0 then 1 else Product(s[..|s| - 1]) * s[|s| - 1]
  }

  lemma {:induction false} ProductAppend(s: seq<nat>, t: seq<nat>)
    ensures Product(s + t) == Product(s) * Product(t)
    decreases |t|
  {
    if |t| == 0 {
      assert s + t == s;
    } else {
      assert (s + t)[..|s + t| - 1] == s + t[..|t| - 1];
      ProductAppend(s, t[..|t| - 1]);
    }
  }

  lemma ProductCons(x: nat, s: seq<nat>)
    ensures Product([x] + s) == x * Product(s)
  {
    ProductAppend([x], s);
    assert Product([x]) == Product([]) * x;
  }

  // ---------------------------------------------------------------------
  // Primality
  // ---------------------------------------------------------------------

  /** Primality: at least 2 and no divisor strictly between 1 and itself.
      `sympy.isprime` is taken to decide exactly this. */
  predicate IsPrime(n: nat)
  {
    n >= 2 && forall d :: 2 <= d < n ==> n % d != 0
  }

  /** The only positive divisors of a prime are 1 and itself. */
  lemma PrimeDivisors(p: nat, d: nat)
    requires IsPrime(p) && Divides(d, p)
    ensures d == 1 || d == p
  {
    DividesBound(d, p);
  }

  /** Euclid's lemma. */
  lemma EuclidLemma(p: nat, a: nat, b: nat)
    requires IsPrime(p) && Divides(p, a * b)
    ensures Divides(p, a) || Divides(p, b)
  {
    GcdDivides(a, p);
    PrimeDivisors(p, Gcd(a, p));
    if Gcd(a, p) == 1 {
      Gauss(p, a, b);
    }
  }

  // ---------------------------------------------------------------------
  // Roots and bit lengths
  // ---------------------------------------------------------------------

  /** The integer k-th root: the largest `r` with `r ** k <= n`. */
  function IntRoot(n: nat, k: nat): (r: nat)
    requires k >= 1
    ensures Pow(r, k) <= n < Pow(r + 1, k)
  {
    if n == 0 then
      PowOne(k);
      assert Pow(0, k) == 0 * Pow(0, k - 1);
      0
    else
      var r := IntRoot(n - 1, k);
      if Pow(r + 1, k) <= n then
        PowStrictBase(r + 1, r + 2, k);
        r + 1
      else
        r
  }

  /** The root is the only number bracketing `n` between consecutive powers. */
  lemma IntRootUnique(n: nat, k: nat, c: nat)
    requires k >= 1 && Pow(c, k) <= n < Pow(c + 1, k)
    ensures IntRoot(n, k) == c
  {
    var r := IntRoot(n, k);
    if r < c {
      if r + 1 < c {
        PowStrictBase(r + 1, c, k);
      }
    } else if r > c {
      if c + 1 < r {
        PowStrictBase(c + 1, r, k);
      }
    }
  }

  lemma PowTwo(r: nat)
    ensures Pow(r, 2) == r * r
  {
    assert Pow(r, 1) == r * Pow(r, 0);
  }

  /** `math.isqrt`, the floor of the square root. */
  function ISqrt(n: nat): (r: nat)
    ensures r * r <= n < (r + 1) * (r + 1)
  {
    var r := IntRoot(n, 2);
    PowTwo(r);
    PowTwo(r + 1);
    r
  }

  /** `int.bit_length()` on non-negative integers. */
  function BitLength(n: nat): (l: nat)
    ensures BitsBracket(n, l)
  {
    if n == 0 then 0
    else
      var l := BitLength(n / 2);
      HalfBits(n, l);
      l + 1
  }

  /** `l` is the number of bits of `n`: `n < 2^l`, and the top bit is set
      when `n` is positive. */
  predicate BitsBracket(n: nat, l: nat)
  {
    n < Pow(2, l) && (n > 0 ==> l >= 1 && Pow(2, l - 1) <= n) && (n == 0 ==> l == 0)
  }

  /** Doubling the bracket of `n / 2` brackets `n`. */
  lemma HalfBits(n: nat, l: nat)
    requires n >= 1 && BitsBracket(n / 2, l)
    ensures BitsBracket(n, l + 1)
  {
    assert Pow(2, l + 1) == 2 * Pow(2, l);
    if l >= 1 {
      assert Pow(2, l) == 2 * Pow(2, l - 1);
    }
  }

  /** The bit length is the only exponent bracketing `n` between powers of 2. */
  lemma BitLengthUnique(n: nat, l: nat)
    requires l >= 1 && Pow(2, l - 1) <= n < Pow(2, l)
    ensures BitLength(n) == l
  {
    var b := BitLength(n);
    if b < l {
      if b < l - 1 {
        PowStrictExponent(2, b, l - 1);
      }
    } else if b > l {
      if l < b - 1 {
        PowStrictExponent(2, l, b - 1);
      }
    }
  }

  /** `math.floor(math.log2(n))`, computed exactly. */
  function FloorLog2(n: nat): (k: nat)
    requires n >= 1
    ensures Pow(2, k) <= n < Pow(2, k + 1)
  {
    BitLength(n) - 1
  }

  /** The floor of the logarithm is the only exponent bracketing `n`. */
  lemma FloorLog2Unique(n: nat, k: nat)
    requires n >= 1 && Pow(2, k) <= n < Pow(2, k + 1)
    ensures FloorLog2(n) == k
  {
    BitLengthUnique(n, k + 1);
  }

  // ---------------------------------------------------------------------
  // Modular inverse
  // ---------------------------------------------------------------------

  datatype InverseError = NoInverse

  /** `sympy.mod_inverse(a, m)`: the inverse in `[0, m)`, or `ValueError`
      when it does not exist; sympy also raises for the modulus 1. */
  function ModInverse(a: nat, m: nat): (r: Result<nat, InverseError>)
    ensures r.Ok? <==> m >= 2 && Gcd(a, m) == 1
    ensures r.Ok? ==> r.value < m && (a * r.value) % m == 1
  {
    if m >= 2 && Gcd(a, m) == 1 then
      var st := ExtGcd(a, m);
      var x := st.0 % m;
      assert (a * st.0) % m == 1 by {
        ModUnique(a * st.0, m, -st.1, 1);
      }
      assert (a * x) % m == 1 by {
        ModMulLeft(st.0, a, m);
      }
      Ok(x)
    else
      Err(NoInverse)
  }
}
