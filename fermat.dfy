/** The number theory behind textbook RSA: Fermat's little theorem and the
    correctness of `m -> m^e -> (m^e)^d` modulo a product of two distinct
    primes when `e * d == 1` modulo `(p - 1) * (q - 1)`. */
module Fermat {
  import opened Arith
  import opened OrderFinding

  function Factorial(k: nat): (f: nat)
    ensures f >= 1
  {
    if k == 0 then 1
    else
      MulAtLeast(k, Factorial(k - 1));
      k * Factorial(k - 1)
  }

  /** `m` distinct values drawn from `[1, m]` multiply to `m!`. */
  lemma {:induction false} DistinctProduct(s: seq<nat>)
    requires forall i :: 0 <= i < |s| ==> 1 <= s[i] <= |s|
    requires forall i, j :: 0 <= i < j < |s| ==> s[i] != s[j]
    ensures Product(s) == Factorial(|s|)
    decreases |s|
  {
    var m := |s|;
    if m > 0 {
      var j := IndexOfLargest(s);
      var u := s[..j] + s[j + 1..];
      DistinctWithout(s, j);
      DistinctProduct(u);
      ProductWithout(s, j);
    }
  }

  /** Dropping the largest of `m` distinct values from `[1, m]` leaves
      `m - 1` distinct values from `[1, m - 1]`. */
  lemma DistinctWithout(s: seq<nat>, j: nat)
    requires j < |s| && s[j] == |s|
    requires forall i :: 0 <= i < |s| ==> 1 <= s[i] <= |s|
    requires forall i, j :: 0 <= i < j < |s| ==> s[i] != s[j]
    ensures var u := s[..j] + s[j + 1..];
      (forall i :: 0 <= i < |u| ==> 1 <= u[i] <= |u|) &&
      (forall i, i' :: 0 <= i < i' < |u| ==> u[i] != u[i'])
  {
    var u := s[..j] + s[j + 1..];
    forall i | 0 <= i < |u|
      ensures 1 <= u[i] <= |u|
    {
      var k := if i < j then i else i + 1;
      assert u[i] == s[k] && s[k] != s[j];
    }
    forall i, i' | 0 <= i < i' < |u|
      ensures u[i] != u[i']
    {
      var k := if i < j then i else i + 1;
      var k' := if i' < j then i' else i' + 1;
      assert u[i] == s[k] && u[i'] == s[k'] && k < k';
    }
  }

  /** The product of a sequence is one element times the product of the
      others. */
  lemma ProductWithout(s: seq<nat>, j: nat)
    requires j < |s|
    ensures Product(s) == s[j] * Product(s[..j] + s[j + 1..])
  {
    assert s == s[..j] + [s[j]] + s[j + 1..];
    ProductAppend(s[..j] + [s[j]], s[j + 1..]);
    ProductAppend(s[..j], [s[j]]);
    ProductAppend(s[..j], s[j + 1..]);
    assert Product([s[j]]) == Product([]) * s[j];
    MulSwapRight(Product(s[..j]), s[j], Product(s[j + 1..]));
  }

  lemma MulSwapRight(a: int, b: int, c: int)
    ensures a * b * c == b * (a * c)
  {
  }

  /** The position of `|s|` in a sequence of `|s|` distinct values drawn from
      `[1, |s|]`: without it, two values would coincide. */
  lemma IndexOfLargest(s: seq<nat>) returns (j: nat)
    requires |s| > 0
    requires forall i :: 0 <= i < |s| ==> 1 <= s[i] <= |s|
    requires forall i, j :: 0 <= i < j < |s| ==> s[i] != s[j]
    ensures j < |s| && s[j] == |s|
  {
    var m := |s|;
    if i :| 0 <= i < m && s[i] == m {
      return i;
    }
    var t := seq(m, i requires 0 <= i < m => s[i] - 1);
    Pigeonhole(t, m - 1);
    assert false;
  }

  /** `(a * k) mod p` for `k = 1 .. count`. */
  function Multiples(p: nat, a: nat, count: nat): (s: seq<nat>)
    requires p >= 1
    ensures |s| == count
  {
    seq(count, i requires 0 <= i < count => (a * (i + 1)) % p)
  }

  /** Modulo `p`, the product of `a, 2a, ..., ka` is `a^k * k!`. */
  lemma {:induction false} MultiplesProduct(p: nat, a: nat, k: nat)
    requires p >= 1
    ensures Product(Multiples(p, a, k)) % p == (Pow(a, k) * Factorial(k)) % p
  {
    if k > 0 {
      var s := Multiples(p, a, k);
      assert s[..k - 1] == Multiples(p, a, k - 1);
      var x, r := Product(s[..k - 1]), (a * k) % p;
      var z := Pow(a, k - 1) * Factorial(k - 1);
      assert Product(s) == x * r;
      assert (x * r) % p == (z * r) % p by {
        MultiplesProduct(p, a, k - 1);
        ModMulLeft(x, r, p);
        ModMulLeft(z, r, p);
      }
      assert (z * r) % p == (z * (a * k)) % p by {
        ModMulLeft(a * k, z, p);
        assert r * z == z * r && (a * k) * z == z * (a * k);
      }
      assert z * (a * k) == Pow(a, k) * Factorial(k) by {
        MulRearrange(Pow(a, k - 1), Factorial(k - 1), a, k);
        assert Pow(a, k) == a * Pow(a, k - 1);
      }
    }
  }

  /** A non-zero residue times a non-zero residue is non-zero modulo a prime. */
  lemma NonzeroMultiple(p: nat, a: nat, i: nat)
    requires IsPrime(p) && a % p != 0 && 1 <= i < p
    ensures (a * i) % p != 0
  {
    if (a * i) % p == 0 {
      EuclidLemma(p, a, i);
      if Divides(p, i) {
        DividesBound(p, i);
      }
    }
  }

  /** Multiplication by a non-zero residue is injective modulo a prime. */
  lemma DistinctMultiples(p: nat, a: nat, i: nat, j: nat)
    requires IsPrime(p) && a % p != 0 && 1 <= i < j < p
    ensures (a * i) % p != (a * j) % p
  {
    if (a * i) % p == (a * j) % p {
      ModEqDivides(a * i, a * j, p);
      assert a * j - a * i == a * (j - i);
      EuclidLemma(p, a, j - i);
      if Divides(p, j - i) {
        DividesBound(p, j - i);
      }
    }
  }

  /** A prime does not divide the factorial of a smaller number. */
  lemma {:induction false} FactorialCoprime(p: nat, k: nat)
    requires IsPrime(p) && k < p
    ensures Gcd(Factorial(k), p) == 1
  {
    if k == 0 {
      CoprimeByCombination(1, p, 1, 0);
    } else {
      FactorialCoprime(p, k - 1);
      GcdPositive(k, p);
      GcdDivides(k, p);
      PrimeDivisors(p, Gcd(k, p));
      if Gcd(k, p) == p {
        DividesBound(p, k);
      }
      CoprimeMul(k, Factorial(k - 1), p);
    }
  }

  /** Fermat's little theorem. */
  lemma Fermat(p: nat, a: nat)
    requires IsPrime(p) && a % p != 0
    ensures Pow(a, p - 1) % p == 1
  {
    var m := p - 1;
    var f, w := Factorial(m), Pow(a, m);
    assert f % p == (w * f) % p by {
      MultiplesPermute(p, a);
      MultiplesProduct(p, a, m);
    }
    assert w >= 1 by {
      PowPositive(a, m);
    }
    assert Gcd(f, p) == 1 by {
      FactorialCoprime(p, m);
    }
    CancelCoprime(p, f, w);
  }

  /** The multiples `a, 2a, ..., (p - 1)a` modulo a prime `p` not dividing
      `a` are `1, ..., p - 1` in some order, so they multiply to `(p - 1)!`. */
  lemma MultiplesPermute(p: nat, a: nat)
    requires IsPrime(p) && a % p != 0
    ensures Product(Multiples(p, a, p - 1)) == Factorial(p - 1)
  {
    var m := p - 1;
    var s := Multiples(p, a, m);
    forall i | 0 <= i < m
      ensures 1 <= s[i] <= m
    {
      NonzeroMultiple(p, a, i + 1);
    }
    forall i, j | 0 <= i < j < m
      ensures s[i] != s[j]
    {
      DistinctMultiples(p, a, i + 1, j + 1);
    }
    DistinctProduct(s);
  }

  /** `m^(1 + k(p - 1))` is `m` modulo a prime `p`, for every `m`. */
  lemma FermatExponent(p: nat, m: nat, k: nat)
    requires IsPrime(p)
    ensures Pow(m, 1 + k * (p - 1)) % p == m % p
  {
    var c: nat := k * (p - 1);
    var x := Pow(m, c);
    assert Pow(m, 1 + c) == m * x;
    if m % p == 0 {
      MulOfMultiple(m, x, p);
    } else {
      PowMultipleOfOrder(p, m, k, c);
      MulByOne(m, x, p);
    }
  }

  lemma MulOfMultiple(m: nat, x: nat, p: nat)
    requires p >= 1 && m % p == 0
    ensures (m * x) % p == m % p
  {
    ModMulLeft(m, x, p);
    assert (m % p) * x == 0;
  }

  lemma MulByOne(m: nat, x: nat, p: nat)
    requires p >= 1 && x % p == 1
    ensures (m * x) % p == m % p
  {
    ModMulRight(m, x, p);
    assert m * (x % p) == m;
  }

  /** For `m` not divisible by a prime `p`, `m^(k(p - 1))` is 1 modulo `p`. */
  lemma PowMultipleOfOrder(p: nat, m: nat, k: nat, c: nat)
    requires IsPrime(p) && m % p != 0 && c == k * (p - 1)
    ensures Pow(m, c) % p == 1
  {
    var a: nat := p - 1;
    Fermat(p, m);
    PowRepeat(m, a, k, p);
    assert a * k == c;
  }

  /** A number that both of two distinct primes divide is divisible by
      their product. */
  lemma BothPrimesDivide(p: nat, q: nat, x: nat)
    requires IsPrime(p) && IsPrime(q) && p != q
    requires Divides(p, x) && Divides(q, x)
    ensures Divides(p * q, x)
  {
    var k := x / p;
    assert x == p * k;
    GcdPositive(p, q);
    GcdDivides(p, q);
    PrimeDivisors(q, Gcd(p, q));
    PrimeDivisors(p, Gcd(p, q));
    Gauss(q, p, k);
    var j := k / q;
    assert x == (p * q) * j;
    DividesMultiple(p * q, j);
  }

  /** A power of `m` with positive exponent is at least `m`. */
  lemma PowAtLeastBase(m: nat, e: nat)
    requires e >= 1
    ensures Pow(m, e) >= m
  {
    if m == 1 {
      PowOne(e);
    } else if m >= 2 {
      PowAboveBase(m, e);
    }
  }

  /** Textbook RSA is correct: with `n = p * q` for distinct primes and
      `e * d == 1` modulo `(p - 1) * (q - 1)`, decryption inverts encryption
      on every `m < n`. */
  lemma RsaCorrect(p: nat, q: nat, e: nat, d: nat, m: nat)
    requires IsPrime(p) && IsPrime(q) && p != q
    requires (p - 1) * (q - 1) >= 1 && (e * d) % ((p - 1) * (q - 1)) == 1
    requires m < p * q
    ensures Pow(Pow(m, e) % (p * q), d) % (p * q) == m
  {
    var n, phi := p * q, (p - 1) * (q - 1);
    var t := (e * d) / phi;
    assert e * d == 1 + t * phi;
    var x := Pow(m, e * d);
    assert Pow(Pow(m, e) % n, d) % n == x % n by {
      PowMod(Pow(m, e), d, n);
      PowPow(m, e, d);
    }
    FermatBothPrimes(p, q, t, m);
    PowAtLeastBase(m, e * d);
    CongruentModProduct(p, q, x, m);
  }

  /** `m^(1 + t(p - 1)(q - 1))` is `m` modulo both `p` and `q`. */
  lemma FermatBothPrimes(p: nat, q: nat, t: nat, m: nat)
    requires IsPrime(p) && IsPrime(q)
    ensures var x := Pow(m, 1 + t * ((p - 1) * (q - 1)));
      x % p == m % p && x % q == m % q
  {
    var a: nat, b: nat := p - 1, q - 1;
    var e := 1 + t * (a * b);
    assert Pow(m, e) % p == m % p by {
      var k := NatProduct(t, b);
      assert e == 1 + k * a by {
        MulRegroup(t, a, b);
      }
      FermatExponent(p, m, k);
    }
    assert Pow(m, e) % q == m % q by {
      var k := NatProduct(t, a);
      assert e == 1 + k * b by {
        MulRegroup(t, b, a);
      }
      FermatExponent(q, m, k);
    }
  }

  lemma MulRegroup(a: int, b: int, c: int)
    ensures a * (b * c) == (a * c) * b
  {
  }

  /** Chinese remaindering for two distinct primes: agreeing with `m < pq`
      modulo `p` and modulo `q` means agreeing modulo `pq`. */
  lemma CongruentModProduct(p: nat, q: nat, x: nat, m: nat)
    requires IsPrime(p) && IsPrime(q) && p != q
    requires x >= m && m < p * q && x % p == m % p && x % q == m % q
    ensures x % (p * q) == m
  {
    ModEqDivides(m, x, p);
    ModEqDivides(m, x, q);
    BothPrimesDivide(p, q, x - m);
    ModUnique(x, p * q, (x - m) / (p * q), m);
  }
}
