/** The factoring engine: the perfect-power shortcut, the randomised witness
    search of Shor's reduction (`find_factor`) and the recursive
    decomposition into sorted prime factors (`factor_number`). Random draws
    and quantum readings come from an oracle `source` read at a cursor. */
module Factoring {
  import opened Wrappers
  import opened Arith
  import opened OrderFinding
  import opened PhaseEstimation

  // ---------------------------------------------------------------------
  // Perfect powers
  // ---------------------------------------------------------------------

  /** The exponents `k` in `[lo, hi]` tried in order; the first whose
      integer `k`-th root is exact gives the root. */
  function RootSearch(n: nat, lo: nat, hi: nat): (c: Option<nat>)
    requires lo >= 2
    ensures c.Some? ==> exists k :: lo <= k <= hi && Pow(c.value, k) == n
    decreases hi + 1 - lo
  {
    if lo > hi then None
    else if Pow(IntRoot(n, lo), lo) == n then Some(IntRoot(n, lo))
    else RootSearch(n, lo + 1, hi)
  }

  /** The root `find_factor_of_prime_power` looks for: the exact root for the
      smallest exponent `k` in `[2, floor(log2 n)]`, if any. */
  function PerfectPowerRoot(n: nat): Option<nat>
    requires n >= 1
  {
    RootSearch(n, 2, FloorLog2(n))
  }

  /** `find_factor_of_prime_power`, with the floating-point root replaced by
      the exact integer root: `floor` and `ceil` of the true `k`-th root. */
  method FindFactorOfPrimePower(n: nat) returns (c: Option<nat>)
    requires n >= 1
    ensures c == PerfectPowerRoot(n)
  {
    var hi := FloorLog2(n);
    var k: nat := 2;
    while k <= hi
      invariant k >= 2
      invariant RootSearch(n, 2, hi) == RootSearch(n, k, hi)
      decreases hi + 1 - k
    {
      var c1 := IntRoot(n, k);
      var c2 := if Pow(c1, k) == n then c1 else c1 + 1;
      CeilingRoot(n, k);
      if Pow(c1, k) == n || Pow(c2, k) == n {
        return Some(if Pow(c1, k) == n then c1 else c2);
      }
      k := k + 1;
    }
    return None;
  }

  /** The ceiling of an inexact `k`-th root is no exact root either. */
  lemma CeilingRoot(n: nat, k: nat)
    requires k >= 1
    ensures Pow(IntRoot(n, k) + 1, k) != n
  {
  }

  /** A root found by the shortcut is a non-trivial divisor. */
  lemma PerfectPowerRootDivides(n: nat)
    requires n >= 1 && PerfectPowerRoot(n).Some?
    ensures var c := PerfectPowerRoot(n).value;
      1 < c < n && n % c == 0
  {
    var c := PerfectPowerRoot(n).value;
    var hi := FloorLog2(n);
    var k :| 2 <= k <= hi && Pow(c, k) == n;
    assert n >= 4 by {
      assert Pow(2, 2) == 4;
      if hi > 2 {
        PowStrictExponent(2, 2, hi);
      }
    }
    assert c >= 2 by {
      if c <= 1 {
        PowZeroOrOne(c, k);
      }
    }
    assert c < n by {
      PowAboveBase(c, k);
    }
    assert n % c == 0 by {
      assert Pow(c, k) == c * Pow(c, k - 1);
      DividesMultiple(c, Pow(c, k - 1));
    }
  }

  lemma PowZeroOrOne(c: nat, k: nat)
    requires c <= 1 && k >= 1
    ensures Pow(c, k) <= 1
  {
    if c == 1 {
      PowOne(k);
    } else {
      assert Pow(c, k) == c * Pow(c, k - 1);
    }
  }

  /** With exact roots the shortcut finds every perfect power. */
  lemma PerfectPowerRootComplete(n: nat, b: nat, k: nat)
    requires b >= 2 && k >= 2 && Pow(b, k) == n
    ensures n >= 1 && PerfectPowerRoot(n).Some?
  {
    assert n >= 1 by {
      PowPositive(b, k);
    }
    var hi := FloorLog2(n);
    assert Pow(2, k) <= n by {
      if b > 2 {
        PowStrictBase(2, b, k);
      }
    }
    assert k <= hi by {
      if k > hi + 1 {
        PowStrictExponent(2, hi + 1, k);
        assert false;
      }
    }
    assert IntRoot(n, k) == b by {
      PowStrictBase(b, b + 1, k);
      IntRootUnique(n, k, b);
    }
    RootSearchFinds(n, 2, hi, k);
  }

  lemma {:induction false} RootSearchFinds(n: nat, lo: nat, hi: nat, k: nat)
    requires 2 <= lo <= k <= hi && Pow(IntRoot(n, k), k) == n
    ensures RootSearch(n, lo, hi).Some?
    decreases k - lo
  {
    if Pow(IntRoot(n, lo), lo) != n {
      RootSearchFinds(n, lo + 1, hi, k);
    }
  }

  /** Numbers below 4 are never perfect powers with exponent >= 2. */
  lemma PerfectPowerRootSmall(n: nat)
    requires 1 <= n < 4
    ensures PerfectPowerRoot(n) == None
  {
    assert Pow(2, 2) == 4;
    if FloorLog2(n) >= 2 {
      assert false;
    }
  }

  // ---------------------------------------------------------------------
  // Order finders
  // ---------------------------------------------------------------------

  /** The order finder handed to `find_factor`. */
  datatype OrderFinder =
    | Classical                 // classical_order_finder with four parameters
    | ClassicalTwoParameter     // a two-parameter classical_order_finder called with four arguments
    | Quantum(noiseModel: string)

  /** The exceptions an order finder can raise. */
  datatype FinderError = InvalidBaseError | ArityMismatch

  /** One call of the order finder on base `x`; `reading` is the quantum
      measurement, ignored by the classical finders. */
  method RunOrderFinder(finder: OrderFinder, x: nat, n: nat, reading: nat) returns (r: Result<Option<nat>, FinderError>)
    ensures r.Err? <==> finder.ClassicalTwoParameter? || !ValidBase(x, n)
    ensures finder == Classical && ValidBase(x, n) ==> r == Ok(Some(Order(x, n)))
    ensures r.Ok? && r.value.Some? ==>
      r.value.value >= 1 && Pow(x, r.value.value) % n == 1 && r.value.value % Order(x, n) == 0
  {
    match finder
    case ClassicalTwoParameter =>
      return Err(ArityMismatch);
    case Classical =>
      var order := ClassicalOrderFinder(x, n);
      if order.Err? {
        return Err(InvalidBaseError);
      }
      return Ok(Some(order.value));
    case Quantum(noise) =>
      var q := QuantumOrderFinder(x, n, reading, noise);
      if q.Err? {
        return Err(InvalidBaseError);
      }
      QuantumOrderFinderSound(x, n, reading, noise);
      return Ok(q.value);
  }

  // ---------------------------------------------------------------------
  // Shor's reduction
  // ---------------------------------------------------------------------

  /** A square root of 1 modulo `n` other than `1` and `n - 1` shares a
      non-trivial factor with `n` through `y - 1`. */
  lemma ShorReduction(y: nat, n: nat)
    requires 1 < y < n - 1 && (y * y) % n == 1
    ensures 1 < Gcd(y - 1, n) < n
  {
    var a: nat, b: nat := y - 1, y + 1;
    SquareRootOfOneDivides(y, n, a, b);
    ProperFactorFromProduct(n, a, b);
  }

  /** `y^2 == 1` modulo `n` makes `n` divide `(y - 1)(y + 1)`. */
  lemma SquareRootOfOneDivides(y: nat, n: nat, a: int, b: int)
    requires n > 1 && (y * y) % n == 1 && a == y - 1 && b == y + 1
    ensures Divides(n, a * b)
  {
    ModEqDivides(1, y * y, n);
    DifferenceOfSquares(y, a, b);
  }

  /** If `n` divides `a * b` but neither positive factor reaches `n`, then
      `gcd(a, n)` is a proper factor of `n`. */
  lemma ProperFactorFromProduct(n: nat, a: nat, b: nat)
    requires Divides(n, a * b) && 0 < a < n && 0 < b < n
    ensures 1 < Gcd(a, n) < n
  {
    GcdPositive(a, n);
    GcdDivides(a, n);
    DividesBound(Gcd(a, n), n);
    NotCoprimeToFactor(n, a, b);
    NotMultipleBelow(n, a);
  }

  /** If `n` divides `a * b` but not the smaller positive `b`, then `a`
      shares a factor with `n`. */
  lemma NotCoprimeToFactor(n: nat, a: nat, b: nat)
    requires Divides(n, a * b) && 0 < b < n
    ensures Gcd(a, n) != 1
  {
    if Gcd(a, n) == 1 {
      Gauss(n, a, b);
      DividesBound(n, b);
    }
  }

  /** A positive number below `n` is not a multiple of `n`. */
  lemma NotMultipleBelow(n: nat, a: nat)
    requires 0 < a < n
    ensures Gcd(a, n) != n
  {
    GcdDivides(a, n);
    if Gcd(a, n) == n {
      DividesBound(n, a);
    }
  }

  lemma DifferenceOfSquares(y: nat, a: int, b: int)
    requires a == y - 1 && b == y + 1
    ensures y * y - 1 == a * b
  {
  }

  /** A draw `x` that makes the reduction succeed: it shares a factor with
      `n`, or its order is even and `x^(r/2)` is not `-1` modulo `n`. */
  ghost predicate GoodBase(x: nat, n: nat)
  {
    (1 < Gcd(x, n) < n) ||
    (ValidBase(x, n) && Order(x, n) % 2 == 0 && Pow(x, Order(x, n) / 2) % n != n - 1)
  }

  /** For a good coprime base the checks of `find_factor` all pass: `y` lies
      strictly between 1 and `n`, and `gcd(y - 1, n)` is a proper factor. */
  lemma GoodBaseSucceeds(x: nat, n: nat)
    requires ValidBase(x, n) && GoodBase(x, n)
    ensures var y := Pow(x, Order(x, n) / 2) % n;
      1 < y < n && 1 < Gcd(y - 1, n) < n
  {
    var r := Order(x, n);
    var h := r / 2;
    assert r % 2 == 0 && h + h == r && 1 <= h < r;
    var y := HalfPowerSquare(x, n, h);
    assert y != 1 && y != n - 1;
    ShorReduction(y, n);
  }

  /** `x^h` squares to `x^(2h)`, also modulo `n`. */
  lemma HalfPowerSquare(x: nat, n: nat, h: nat) returns (y: nat)
    requires n >= 2 && Pow(x, h + h) % n == 1
    ensures y == Pow(x, h) % n && 0 < y < n && (y * y) % n == 1
  {
    var p := Pow(x, h);
    y := p % n;
    assert (y * y) % n == 1 by {
      assert p * p == Pow(x, h + h) by {
        PowAdd(x, h, h);
      }
      ModMulBoth(p, p, n);
    }
    if y == 0 {
      assert false;
    }
  }

  // ---------------------------------------------------------------------
  // find_factor
  // ---------------------------------------------------------------------

  /** `random.randint(2, n - 1)` at cursor `k`. */
  function Draw(n: nat, source: nat -> nat, k: nat): (x: nat)
    requires n >= 3
    ensures 2 <= x < n
  {
    2 + source(k) % (n - 2)
  }

  /** The base drawn in attempt `i` of a search starting at cursor `pos`;
      every attempt consumes two draws (the base and a quantum reading). */
  function BaseAt(n: nat, source: nat -> nat, pos: nat, i: nat): nat
    requires n >= 3
  {
    Draw(n, source, pos + 2 * i)
  }

  /** The default `max_attempts`. */
  const MaxAttempts: nat := 30

  /** One pass of the loop of `find_factor` on the drawn base `x`: a common
      factor found by `gcd`, or else a factor `gcd(y - 1, n)` with
      `y = x^(r/2) mod n` from an even order `r`. */
  method Attempt(n: nat, finder: OrderFinder, x: nat, reading: nat) returns (c: Option<nat>)
    requires 2 <= x < n
    ensures c.Some? ==> 1 < c.value < n && n % c.value == 0
    ensures 1 < Gcd(x, n) < n ==> c == Some(Gcd(x, n))
    ensures finder == Classical && GoodBase(x, n) ==> c.Some?
    ensures finder == ClassicalTwoParameter && c.Some? ==> 1 < Gcd(x, n) < n
  {
    var g := Gcd(x, n);
    if 1 < g < n {
      GcdDivides(x, n);
      return Some(g);
    }
    if finder == Classical && GoodBase(x, n) {
      CoprimeWhenNoFactor(x, n);
      GoodBaseSucceeds(x, n);
    }
    var r := RunOrderFinder(finder, x, n, reading);
    if r.Err? || r.value.None? || r.value.value % 2 != 0 {
      return None;
    }
    var y := Pow(x, r.value.value / 2) % n;
    if !(1 < y < n) {
      return None;
    }
    var factor := Gcd(y - 1, n);
    if 1 < factor < n {
      GcdDivides(y - 1, n);
      return Some(factor);
    }
    return None;
  }

  /** `find_factor`: a proper divisor of `n`, or `None`. Exceptions of the
      order finder, a missing or odd order, and a `y` outside `(1, n)` each
      use up one attempt. */
  method FindFactor(n: nat, finder: OrderFinder, maxAttempts: int, source: nat -> nat, pos: nat)
    returns (c: Option<nat>, next: nat)
    requires n >= 2
    ensures c.Some? ==> 1 < c.value < n && n % c.value == 0
    ensures IsPrime(n) ==> c == None
    ensures !IsPrime(n) && n % 2 == 0 ==> c == Some(2)
    ensures !IsPrime(n) && n % 2 == 1 && PerfectPowerRoot(n).Some? ==>
      c == PerfectPowerRoot(n) && next == pos
    ensures pos <= next <= pos + 2 * (if maxAttempts < 0 then 0 else maxAttempts)
    ensures (finder == Classical && !IsPrime(n) && n % 2 == 1 &&
             exists i :: 0 <= i < maxAttempts && GoodBase(BaseAt(n, source, pos, i), n)) ==> c.Some?
    ensures (finder == ClassicalTwoParameter && c.Some? && n % 2 == 1) ==>
            (PerfectPowerRoot(n).Some? ||
             exists i :: 0 <= i < maxAttempts && 1 < Gcd(BaseAt(n, source, pos, i), n) < n)
  {
    if IsPrime(n) {
      return None, pos;
    }
    if n % 2 == 0 {
      return Some(2), pos;
    }
    c := FindFactorOfPrimePower(n);
    if c.Some? {
      PerfectPowerRootDivides(n);
      return c, pos;
    }
    c, next := SearchBases(n, finder, maxAttempts, source, pos);
  }

  /** The loop of `find_factor`: up to `maxAttempts` attempts, each on a
      fresh base, stopping at the first factor found. */
  method SearchBases(n: nat, finder: OrderFinder, maxAttempts: int, source: nat -> nat, pos: nat)
    returns (c: Option<nat>, next: nat)
    requires n >= 3
    ensures c.Some? ==> 1 < c.value < n && n % c.value == 0
    ensures pos <= next <= pos + 2 * (if maxAttempts < 0 then 0 else maxAttempts)
    ensures (finder == Classical &&
             exists i :: 0 <= i < maxAttempts && GoodBase(BaseAt(n, source, pos, i), n)) ==> c.Some?
    ensures (exists i :: 0 <= i < maxAttempts && 1 < Gcd(BaseAt(n, source, pos, i), n) < n) ==> c.Some?
    ensures (finder == ClassicalTwoParameter && c.Some?) ==>
            exists i :: 0 <= i < maxAttempts && 1 < Gcd(BaseAt(n, source, pos, i), n) < n
  {
    next := pos;
    var attempt := 0;
    while attempt < maxAttempts
      invariant 0 <= attempt <= (if maxAttempts < 0 then 0 else maxAttempts)
      invariant next == pos + 2 * attempt
      invariant finder == Classical ==>
        forall i :: 0 <= i < attempt ==> !GoodBase(BaseAt(n, source, pos, i), n)
      invariant forall i :: 0 <= i < attempt ==> !(1 < Gcd(BaseAt(n, source, pos, i), n) < n)
    {
      var x := Draw(n, source, next);
      assert x == BaseAt(n, source, pos, attempt);
      c := Attempt(n, finder, x, source(next + 1));
      next := next + 2;
      attempt := attempt + 1;
      if c.Some? {
        return c, next;
      }
    }
    return None, next;
  }

  /** A draw in `[2, n)` without a proper common factor is coprime to `n`. */
  lemma CoprimeWhenNoFactor(x: nat, n: nat)
    requires 2 <= x < n && !(1 < Gcd(x, n) < n)
    ensures Gcd(x, n) == 1 && ValidBase(x, n)
  {
    GcdPositive(x, n);
    GcdDivides(x, n);
    DividesBound(Gcd(x, n), x);
  }

  // ---------------------------------------------------------------------
  // factor_number
  // ---------------------------------------------------------------------

  /** The dictionary `factor_number` returns. */
  datatype FactorResult =
    | PrimeResult(factors: seq<nat>)
    | CompositeResult(factors: seq<nat>)
    | ErrorResult(message: string)

  predicate Sorted(s: seq<nat>)
  {
    forall i, j :: 0 <= i < j < |s| ==> s[i] <= s[j]
  }

  /** `sorted`: insertion sort. */
  function Sort(s: seq<nat>): (t: seq<nat>)
    ensures Sorted(t) && multiset(t) == multiset(s)
  {
    if |s| == 0 then []
    else
      assert s == [s[0]] + s[1..];
      Insert(s[0], Sort(s[1..]))
  }

  function Insert(x: nat, s: seq<nat>): (t: seq<nat>)
    requires Sorted(s)
    ensures Sorted(t) && multiset(t) == multiset(s) + multiset{x}
    ensures |t| == |s| + 1 && t[0] == (if |s| > 0 && s[0] < x then s[0] else x)
  {
    if |s| == 0 then [x]
    else if x <= s[0] then [x] + s
    else
      var rest := s[1..];
      SortedTail(s);
      assert s == [s[0]] + rest;
      var u := Insert(x, rest);
      ConsSorted(s[0], u);
      [s[0]] + u
  }

  lemma SortedTail(s: seq<nat>)
    requires Sorted(s) && |s| > 0
    ensures Sorted(s[1..])
  {
    var rest := s[1..];
    forall i, j | 0 <= i < j < |rest| ensures rest[i] <= rest[j] {
      assert rest[i] == s[i + 1] && rest[j] == s[j + 1];
    }
  }

  lemma ConsSorted(y: nat, u: seq<nat>)
    requires Sorted(u) && (|u| > 0 ==> y <= u[0])
    ensures Sorted([y] + u)
  {
    var t := [y] + u;
    forall i, j | 0 <= i < j < |t| ensures t[i] <= t[j] {
      if i == 0 {
        assert t[j] == u[j - 1] && u[0] <= u[j - 1];
      } else {
        assert t[i] == u[i - 1] && t[j] == u[j - 1];
      }
    }
  }

  lemma {:induction false} ProductInsert(x: nat, s: seq<nat>)
    requires Sorted(s)
    ensures Product(Insert(x, s)) == x * Product(s)
    decreases |s|
  {
    if |s| == 0 {
      assert Product([x]) == Product([]) * x;
    } else if x <= s[0] {
      ProductCons(x, s);
    } else {
      var rest := s[1..];
      SortedTail(s);
      var u := Insert(x, rest);
      assert Insert(x, s) == [s[0]] + u;
      ProductInsert(x, rest);
      ProductCons(s[0], u);
      assert s == [s[0]] + rest;
      ProductCons(s[0], rest);
      MulSwap(s[0], x, Product(rest));
    }
  }

  lemma MulSwap(a: int, b: int, c: int)
    ensures a * (b * c) == b * (a * c)
  {
  }

  /** Sorting keeps the product. */
  lemma {:induction false} ProductSort(s: seq<nat>)
    ensures Product(Sort(s)) == Product(s)
  {
    if |s| > 0 {
      var x, rest := s[0], s[1..];
      var t := Sort(rest);
      assert Sort(s) == Insert(x, t);
      assert Product(t) == Product(rest) by {
        ProductSort(rest);
      }
      assert Product(Insert(x, t)) == x * Product(t) by {
        ProductInsert(x, t);
      }
      assert Product(s) == x * Product(rest) by {
        assert s == [x] + rest;
        ProductCons(x, rest);
      }
    }
  }

  predicate AllPrime(s: seq<nat>)
  {
    forall i :: 0 <= i < |s| ==> IsPrime(s[i])
  }

  /** Every value of a permutation of prime factors is prime. */
  lemma AllPrimeSort(s: seq<nat>)
    requires AllPrime(s)
    ensures AllPrime(Sort(s))
  {
    var t := Sort(s);
    forall i | 0 <= i < |t| ensures IsPrime(t[i]) {
      assert t[i] in multiset(t);
      assert t[i] in multiset(s);
      var j :| 0 <= j < |s| && s[j] == t[i];
    }
  }

  /** `factor_number`: an error for `n <= 1`, `[n]` for a prime, and
      otherwise the sorted factors of the two parts of a found divisor,
      recursing into parts that are not prime. A part whose recursion fails
      contributes nothing, so the product of the factors divides `n`, and
      equals it exactly when no part was lost (`complete`). When every
      proper divisor of `n` is prime, no part can be lost. */
  method FactorNumber(n: int, finder: OrderFinder, source: nat -> nat, pos: nat)
    returns (res: FactorResult, next: nat, ghost complete: bool)
    ensures n <= 1 ==> res == ErrorResult("Input must be greater than 1")
    ensures n >= 2 && IsPrime(n) ==> res == PrimeResult([n])
    ensures res.PrimeResult? ==> n >= 2 && IsPrime(n)
    ensures res.ErrorResult? && n >= 2 ==> res == ErrorResult("Failed to find factors") && !IsPrime(n)
    ensures res.CompositeResult? ==>
      n >= 2 && !IsPrime(n) && Sorted(res.factors) && AllPrime(res.factors) &&
      Divides(Product(res.factors), n) && (complete <==> Product(res.factors) == n)
    ensures res.CompositeResult? && ProperDivisorsPrime(n) ==> Product(res.factors) == n
    ensures next >= pos
    decreases if n < 0 then 0 else n, 0
  {
    complete := true;
    if n <= 1 {
      return ErrorResult("Input must be greater than 1"), pos, complete;
    }
    if IsPrime(n) {
      return PrimeResult([n]), pos, complete;
    }
    var p;
    p, next := FindFactor(n, finder, MaxAttempts, source, pos);
    if p.None? {
      return ErrorResult("Failed to find factors"), next, complete;
    }
    var q := n / p.value;
    QuotientBounds(n, p.value);
    var parts := [p.value, q];
    var factors: seq<nat> := [];
    for i := 0 to 2
      invariant AllPrime(factors)
      invariant Divides(Product(factors), Product(parts[..i]))
      invariant Product(parts[..i]) >= 1
      invariant complete <==> Product(factors) == Product(parts[..i])
      invariant ProperDivisorsPrime(n) ==> complete
      invariant next >= pos
    {
      var part := parts[i];
      var partFactors;
      ghost var partComplete;
      partFactors, next, partComplete := FactorPart(part, finder, source, next);
      assert parts[..i + 1] == parts[..i] + [part];
      FactorStep(factors, partFactors, parts[..i], part, complete, partComplete);
      PartPrime(n, p.value, q, part);
      factors := factors + partFactors;
      complete := complete && partComplete;
    }
    assert parts[..2] == parts;
    SortedFactors(factors, parts, n, complete);
    return CompositeResult(Sort(factors)), next, complete;
  }

  /** The factors one part of a split contributes: the part itself when it is
      prime, the factors of its own decomposition otherwise, and nothing when
      that decomposition fails. */
  method FactorPart(part: nat, finder: OrderFinder, source: nat -> nat, pos: nat)
    returns (factors: seq<nat>, next: nat, ghost complete: bool)
    requires part >= 2
    ensures AllPrime(factors) && Divides(Product(factors), part)
    ensures complete <==> Product(factors) == part
    ensures IsPrime(part) ==> factors == [part] && complete
    ensures next >= pos
    decreases part, 1
  {
    if IsPrime(part) {
      assert Product([part]) == Product([]) * part;
      DividesMultiple(part, 1);
      return [part], pos, true;
    }
    var sub;
    sub, next, complete := FactorNumber(part, finder, source, pos);
    if sub.ErrorResult? {
      assert Divides(1, part);
      return [], next, false;
    }
    factors := sub.factors;
  }

  /** The sorted factors of both parts of a split of `n` are prime, and
      their product divides `n`, whole exactly when nothing was lost. */
  lemma SortedFactors(factors: seq<nat>, parts: seq<nat>, n: nat, complete: bool)
    requires |parts| == 2 && parts[0] * parts[1] == n
    requires AllPrime(factors) && Divides(Product(factors), Product(parts))
    requires complete <==> Product(factors) == Product(parts)
    ensures Sorted(Sort(factors)) && AllPrime(Sort(factors))
    ensures Divides(Product(Sort(factors)), n) && (complete <==> Product(Sort(factors)) == n)
  {
    ProductPair(parts);
    ProductSort(factors);
    AllPrimeSort(factors);
  }

  lemma ProductPair(parts: seq<nat>)
    requires |parts| == 2
    ensures Product(parts) == parts[0] * parts[1]
  {
    assert parts[..1] == [parts[0]];
    assert Product([parts[0]]) == Product([]) * parts[0];
  }

  /** Every proper divisor of `n` is prime: `n` is a prime times a prime. */
  predicate ProperDivisorsPrime(n: int)
  {
    forall d: nat :: 1 < d < n && Divides(d, n) ==> IsPrime(d)
  }

  /** Both parts of the split `n = p * q` are proper divisors, so they
      are prime when every proper divisor of `n` is. */
  lemma PartPrime(n: nat, p: nat, q: nat, part: nat)
    requires 1 < p < n && 1 < q < n && p * q == n && (part == p || part == q)
    ensures 1 < part < n && Divides(part, n)
    ensures ProperDivisorsPrime(n) ==> IsPrime(part)
  {
    assert n == q * p;
    DividesMultiple(part, if part == p then q else p);
  }

  /** Appending the factors of one more part keeps the product whole
      exactly when it was whole and the part's is whole: a factor product
      divides its target, so a short one stays short. */
  lemma FactorStep(factors: seq<nat>, partFactors: seq<nat>, done: seq<nat>, part: nat,
                    complete: bool, partComplete: bool)
    requires Product(done) >= 1 && part >= 1
    requires Divides(Product(factors), Product(done)) && (complete <==> Product(factors) == Product(done))
    requires Divides(Product(partFactors), part) && (partComplete <==> Product(partFactors) == part)
    ensures Product(done + [part]) >= 1
    ensures Divides(Product(factors + partFactors), Product(done + [part]))
    ensures (complete && partComplete) <==> Product(factors + partFactors) == Product(done + [part])
  {
    ProductSnoc(done, part);
    ProductAppend(factors, partFactors);
    ExtendDivides(Product(factors), Product(done), Product(partFactors), part);
    ExtendComplete(Product(factors), Product(done), Product(partFactors), part, complete, partComplete);
    MulAtLeast(Product(done), part);
  }

  lemma ProductSnoc(s: seq<nat>, x: nat)
    ensures Product(s + [x]) == Product(s) * x
  {
    assert (s + [x])[..|s|] == s;
  }

  lemma ExtendComplete(a: nat, x: nat, b: nat, y: nat, ca: bool, cb: bool)
    requires Divides(a, x) && Divides(b, y) && x > 0 && y > 0
    requires (ca <==> a == x) && (cb <==> b == y)
    ensures (ca && cb) <==> a * b == x * y
  {
    DividesBound(a, x);
    DividesBound(b, y);
    if a < x {
      MulMonotone(b, y, a);
      MulStrict(a, x, y);
      assert a * b <= a * y < x * y;
    } else if b < y {
      MulStrict(b, y, a);
      assert a * b < a * y;
    }
  }

  lemma QuotientBounds(n: nat, p: nat)
    requires 1 < p < n && n % p == 0
    ensures 1 < n / p < n && p * (n / p) == n
  {
    var q := n / p;
    assert n == p * q;
    assert q >= 2 by {
      if q <= 1 {
        MulMonotone(q, 1, p);
      }
    }
    MulStrict(1, p, q);
  }

  /** Appending `b`, which divides `y`, to factors whose product divides
      `x` gives factors whose product divides `x * y`. */
  lemma ExtendDivides(a: nat, x: nat, b: nat, y: nat)
    requires Divides(a, x) && Divides(b, y)
    ensures Divides(a * b, x * y)
  {
    DividesProduct(a, b, x, y);
  }

  // ---------------------------------------------------------------------
  // The two-parameter classical order finder
  // ---------------------------------------------------------------------

  /** 15 is not a perfect power: `floor(log2 15) = 3`, and neither
      `3^2 = 9` nor `2^3 = 8` is 15. */
  lemma FifteenIsNoPerfectPower()
    ensures PerfectPowerRoot(15) == None
  {
    FloorLog2Fifteen();
    NoExactRootOfFifteen();
  }

  lemma FloorLog2Fifteen()
    ensures FloorLog2(15) == 3
  {
    assert Pow(2, 3) == 8 && Pow(2, 4) == 16;
    FloorLog2Unique(15, 3);
  }

  /** Neither the square root nor the cube root of 15 is exact. */
  lemma NoExactRootOfFifteen()
    ensures RootSearch(15, 2, 3) == None
  {
    NoExactCubeRootOfFifteen();
    SquareRootOfFifteen();
    assert Pow(3, 2) == 9;
  }

  lemma NoExactCubeRootOfFifteen()
    ensures RootSearch(15, 3, 3) == None
  {
    CubeRootOfFifteen();
    assert Pow(2, 3) == 8;
  }

  lemma SquareRootOfFifteen()
    ensures IntRoot(15, 2) == 3
  {
    assert Pow(3, 2) == 9 && Pow(4, 2) == 16;
    IntRootUnique(15, 2, 3);
  }

  lemma CubeRootOfFifteen()
    ensures IntRoot(15, 3) == 2
  {
    assert Pow(2, 3) == 8 && Pow(3, 3) == 27;
    IntRootUnique(15, 3, 2);
  }

  /** Base 2 is good for 15: its order is 4 and `2^2 = 4` is not `-1`. */
  lemma TwoIsGoodForFifteen()
    ensures GoodBase(2, 15)
  {
    assert Gcd(2, 15) == 1;
    assert Pow(2, 1) == 2 && Pow(2, 2) == 4 && Pow(2, 3) == 8 && Pow(2, 4) == 16;
    assert IsOrder(2, 15, 4);
    OrderUnique(2, 15, 4, Order(2, 15));
  }

  /** A concrete input on which the two finders part ways: `n = 15` with every
      draw 0, so that every attempt uses base 2. The two-parameter finder
      raises on every attempt and finds nothing; the four-parameter one
      finds a factor on the first attempt. */
  method ArityMismatchExample() returns (asWritten: Option<nat>, corrected: Option<nat>)
    ensures asWritten == None
    ensures corrected.Some? && 1 < corrected.value < 15 && 15 % corrected.value == 0
  {
    var source: nat -> nat := k => 0;
    FifteenComposite();
    ZeroSourceOnFifteen(source);
    var next;
    asWritten, next := FindFactor(15, ClassicalTwoParameter, MaxAttempts, source, 0);
    corrected, next := FindFactor(15, Classical, MaxAttempts, source, 0);
  }

  /** 15 is odd, composite and no perfect power. */
  lemma FifteenComposite()
    ensures !IsPrime(15) && PerfectPowerRoot(15) == None
  {
    assert 15 % 3 == 0;
    FifteenIsNoPerfectPower();
  }

  /** With every draw 0 the first base tried on 15 is good and no base
      shares a factor with 15. */
  lemma ZeroSourceOnFifteen(source: nat -> nat)
    requires forall k :: source(k) == 0
    ensures exists i :: 0 <= i < MaxAttempts && GoodBase(BaseAt(15, source, 0, i), 15)
    ensures !exists i :: 0 <= i < MaxAttempts && 1 < Gcd(BaseAt(15, source, 0, i), 15) < 15
  {
    ZeroSourceBases(source);
    assert GoodBase(BaseAt(15, source, 0, 0), 15) by {
      TwoIsGoodForFifteen();
    }
    assert Gcd(2, 15) == 1;
  }

  /** With every draw 0, every attempt on 15 uses base 2. */
  lemma ZeroSourceBases(source: nat -> nat)
    requires forall k :: source(k) == 0
    ensures forall i :: BaseAt(15, source, 0, i) == 2
  {
  }
}
