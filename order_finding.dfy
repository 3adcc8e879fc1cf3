/** The classical order finder and the multiplicative group of the factoring
    engine: for `x` coprime to `n`, the order of `x` modulo `n` is the least
    `r >= 1` with `x^r mod n == 1`. */
module OrderFinding {
  import opened Wrappers
  import opened Arith

  /** The guard shared by both order finders: `x` is an element of the
      multiplicative group modulo `n` other than 1. */
  predicate ValidBase(x: int, n: int)
  {
    2 <= x < n && Gcd(x as nat, n as nat) == 1
  }

  /** `r` is the multiplicative order of `x` modulo `n`. */
  predicate IsOrder(x: nat, n: nat, r: nat)
  {
    n > 0 && r >= 1 && Pow(x, r) % n == 1 &&
    forall k :: 1 <= k < r ==> Pow(x, k) % n != 1
  }

  /** A sequence longer than the number of values below `bound` repeats a
      value. */
  lemma {:induction false} Pigeonhole(s: seq<nat>, bound: nat)
    requires |s| > bound
    requires forall i :: 0 <= i < |s| ==> s[i] < bound
    ensures exists i, j :: 0 <= i < j < |s| && s[i] == s[j]
    decreases bound
  {
    assert s[0] < bound;
    var last := s[|s| - 1];
    var t := s[..|s| - 1];
    if i :| 0 <= i < |t| && t[i] == last {
      assert s[i] == s[|s| - 1];
    } else {
      // Drop the last value and close the gap it leaves below `bound`.
      var u := seq(|t|, k requires 0 <= k < |t| => if t[k] > last then t[k] - 1 else t[k]);
      forall k | 0 <= k < |u|
        ensures u[k] < bound - 1
      {
        assert t[k] == s[k] && t[k] != last;
      }
      Pigeonhole(u, bound - 1);
      var i, j :| 0 <= i < j < |u| && u[i] == u[j];
      assert t[i] != last && t[j] != last;
      assert s[i] == t[i] == t[j] == s[j];
    }
  }

  /** Some power `x^r` with `1 <= r <= n` is 1 modulo `n`. */
  lemma OrderExists(x: nat, n: nat)
    requires ValidBase(x, n)
    ensures exists r :: 1 <= r <= n && Pow(x, r) % n == 1
  {
    var i, j := RepeatedPower(x, n);
    var a, b := Pow(x, i), Pow(x, j - i);
    assert a * b == Pow(x, j) by {
      PowAdd(x, i, j - i);
    }
    assert b >= 1 by {
      PowPositive(x, j - i);
    }
    assert Gcd(a, n) == 1 by {
      CoprimePow(x, i, n);
    }
    assert a % n == (b * a) % n;
    CancelCoprime(n, a, b);
    assert 1 <= j - i <= n && Pow(x, j - i) % n == 1;
  }

  /** Among `x^0, ..., x^n` modulo `n` two coincide. */
  lemma RepeatedPower(x: nat, n: nat) returns (i: nat, j: nat)
    requires n >= 1
    ensures i < j <= n && Pow(x, i) % n == Pow(x, j) % n
  {
    var s := seq(n + 1, k requires 0 <= k <= n => Pow(x, k) % n);
    Pigeonhole(s, n);
    i, j :| 0 <= i < j < |s| && s[i] == s[j];
  }

  /** The first exponent in `[k, bound]` that brings `x` back to 1, given
      that none below `k` does and `bound` does. */
  function OrderFrom(x: nat, n: nat, k: nat, bound: nat): (r: nat)
    requires n >= 2 && 1 <= k <= bound && Pow(x, bound) % n == 1
    requires forall j :: 1 <= j < k ==> Pow(x, j) % n != 1
    ensures IsOrder(x, n, r) && k <= r <= bound
    decreases bound - k
  {
    if Pow(x, k) % n == 1 then k else OrderFrom(x, n, k + 1, bound)
  }

  /** The multiplicative order of a valid base: it exists, is at least 2
      (since `x != 1`) and at most `n`. */
  ghost function Order(x: nat, n: nat): (r: nat)
    requires ValidBase(x, n)
    ensures IsOrder(x, n, r) && 2 <= r <= n
  {
    OrderExists(x, n);
    var b :| 1 <= b <= n && Pow(x, b) % n == 1;
    assert Pow(x, 1) == x;
    ModUnique(x, n, 0, x);
    OrderFrom(x, n, 1, b)
  }

  /** The order is unique. */
  lemma OrderUnique(x: nat, n: nat, r1: nat, r2: nat)
    requires IsOrder(x, n, r1) && IsOrder(x, n, r2)
    ensures r1 == r2
  {
  }

  /** Every `x^k mod n == 1` with `x` coprime to `n` has `k` a multiple of the
      order: a period found by any means is a multiple of the true order. */
  lemma OrderDividesPeriods(x: nat, n: nat, r: nat, k: nat)
    requires n >= 2 && IsOrder(x, n, r) && Pow(x, k) % n == 1
    ensures k % r == 0
  {
    var q, s := Divide(k, r);
    var a, b := Pow(x, r * q), Pow(x, s);
    assert Pow(x, k) == a * b by {
      PowAdd(x, r * q, s);
    }
    assert a % n == 1 by {
      PowRepeat(x, r, q, n);
    }
    assert b % n == 1 by {
      ModMulLeft(a, b, n);
    }
  }

  /** `(x^r)^q` is 1 modulo `n` when `x^r` is. */
  lemma {:induction false} PowRepeat(x: nat, r: nat, q: nat, n: nat)
    requires n >= 2 && Pow(x, r) % n == 1
    ensures Pow(x, r * q) % n == 1
  {
    if q == 0 {
      assert Pow(x, 0) == 1;
      ModUnique(1, n, 0, 1);
    } else {
      PowRepeat(x, r, q - 1, n);
      assert r * q == r * (q - 1) + r;
      PowAdd(x, r * (q - 1), r);
      ModMulBoth(Pow(x, r * (q - 1)), Pow(x, r), n);
      ModUnique(1, n, 0, 1);
    }
  }

  /** One multiplication by `x` modulo `n` advances the exponent by one. */
  lemma PowStep(x: nat, n: nat, r: nat, y: nat)
    requires n > 0 && y == Pow(x, r) % n
    ensures (x * y) % n == Pow(x, r + 1) % n
  {
    var p := Pow(x, r);
    assert Pow(x, r + 1) == p * x;
    ModMulLeft(p, x, n);
    assert (p % n) * x == x * y;
  }

  datatype OrderError = InvalidBase

  /** `classical_order_finder`: raises (here `Err`) on an invalid base, and
      otherwise multiplies by `x` modulo `n` until reaching 1. */
  method ClassicalOrderFinder(x: int, n: int) returns (res: Result<nat, OrderError>)
    ensures res.Err? <==> !ValidBase(x, n)
    ensures res.Ok? ==> IsOrder(x as nat, n as nat, res.value) && res.value >= 2
    ensures res.Ok? ==> res.value == Order(x as nat, n as nat)
  {
    if x < 2 || x >= n || Gcd(x as nat, n as nat) > 1 {
      return Err(InvalidBase);
    }
    var xn, nn := x as nat, n as nat;
    GcdPositive(xn, nn);
    OrderExists(xn, nn);
    ghost var bound :| 1 <= bound <= nn && Pow(xn, bound) % nn == 1;
    var r: nat, y: nat := 1, xn;
    assert Pow(xn, 1) == xn;
    ModUnique(xn, nn, 0, xn);
    while y != 1
      invariant 1 <= r <= bound
      invariant y == Pow(xn, r) % nn
      invariant forall k :: 1 <= k < r ==> Pow(xn, k) % nn != 1
      decreases bound - r
    {
      PowStep(xn, nn, r, y);
      y := (xn * y) % nn;
      r := r + 1;
    }
    OrderUnique(xn, nn, r, Order(xn, nn));
    return Ok(r);
  }

  /** `multiplicative_group`: 1 followed by every `x` in `[2, n)` coprime to
      `n`, ascending. */
  method MultiplicativeGroup(n: nat) returns (group: seq<nat>)
    requires n > 1
    ensures |group| >= 1 && group[0] == 1
    ensures forall i, j :: 0 <= i < j < |group| ==> group[i] < group[j]
    ensures forall x :: x in group <==> 1 <= x < n && Gcd(x, n) == 1
  {
    assert Gcd(1, n) == 1 by {
      CoprimeByCombination(1, n, 1, 0);
    }
    group := [1];
    for x := 2 to n
      invariant |group| >= 1 && group[0] == 1
      invariant forall i, j :: 0 <= i < j < |group| ==> group[i] < group[j]
      invariant forall i :: 0 <= i < |group| ==> group[i] < x
      invariant forall y :: y in group <==> y == 1 || (2 <= y < x && Gcd(y, n) == 1)
    {
      if Gcd(x, n) == 1 {
        group := group + [x];
      }
    }
  }

  /** The non-identity group elements are exactly the bases the order
      finders accept. */
  lemma GroupElementsAreBases(n: nat, group: seq<nat>, x: nat)
    requires n > 1
    requires forall y :: y in group <==> 1 <= y < n && Gcd(y, n) == 1
    ensures (x in group && x != 1) <==> ValidBase(x, n)
  {
  }
}
