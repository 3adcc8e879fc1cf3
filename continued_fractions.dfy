/** Exact non-negative rationals and Python's `Fraction.limit_denominator`,
    the continued-fraction step that turns a measured phase `v / 2^m` into a
    candidate order. */
module ContinuedFractions {
  import opened Arith

  /** A non-negative rational `num / den`. */
  datatype Fraction = Fraction(num: nat, den: nat)

  /** The normal form every Python `Fraction` is kept in. */
  predicate Reduced(f: Fraction)
  {
    f.den >= 1 && Gcd(f.num, f.den) == 1
  }

  function Abs(z: int): nat
  {
    if z < 0 then -z else z
  }

  // ---------------------------------------------------------------------
  // Normalisation
  // ---------------------------------------------------------------------

  /** `Fraction(a, b)`: divides out the gcd. */
  function MakeFraction(a: nat, b: nat): (f: Fraction)
    requires b >= 1
    ensures Reduced(f)
    ensures f.num * b == a * f.den
  {
    DivideOutGcd(a, b);
    Fraction(a / Gcd(a, b), b / Gcd(a, b))
  }

  lemma DivideOutGcd(a: nat, b: nat)
    requires b >= 1
    ensures Gcd(a, b) >= 1
    ensures b / Gcd(a, b) >= 1
    ensures Gcd(a / Gcd(a, b), b / Gcd(a, b)) == 1
    ensures (a / Gcd(a, b)) * b == a * (b / Gcd(a, b))
  {
    var g := Gcd(a, b);
    GcdDivides(a, b);
    var a', b' := a / g, b / g;
    assert a == a' * g by { ExactQuotient(a, g); }
    assert b == b' * g by { ExactQuotient(b, g); }
    var st := ExtGcd(a, b);
    var s, t := st.0, st.1;
    assert g * (a' * s + b' * t) == g * 1 by {
      assert a * s + b * t == g;
      Spread(g, a', s, b', t);
    }
    CancelLeft(g, a' * s + b' * t, 1);
    CoprimeByCombination(a', b', s, t);
    assert a' * b == a * b' by {
      Regroup(a', b', g);
    }
  }

  lemma Spread(g: int, x: int, s: int, y: int, t: int)
    ensures g * (x * s + y * t) == (x * g) * s + (y * g) * t
  {
  }

  lemma Regroup(x: int, y: int, g: int)
    ensures x * (y * g) == (x * g) * y
  {
  }

  /** Multiplication by a positive number is injective. */
  lemma CancelLeft(g: int, x: int, y: int)
    requires g >= 1 && g * x == g * y
    ensures x == y
  {
    MulDistributes(x, y, g);
    if x > y {
      MulAtLeast(g, x - y);
    } else if x < y {
      MulDistributes(y, x, g);
      MulAtLeast(g, y - x);
    }
  }

  /** Two reduced fractions of equal value are identical. */
  lemma ReducedUnique(f: Fraction, g: Fraction)
    requires Reduced(f) && Reduced(g)
    requires f.num * g.den == g.num * f.den
    ensures f == g
  {
    var a, b, c, d := f.num, f.den, g.num, g.den;
    assert Divides(d, c * b) by {
      DividesMultiple(d, a);
      assert d * a == c * b;
    }
    assert Divides(d, b) by { Gauss(d, c, b); }
    assert Divides(b, a * d) by {
      DividesMultiple(b, c);
      assert b * c == a * d;
    }
    assert Divides(b, d) by { Gauss(b, a, d); }
    DividesBound(d, b);
    DividesBound(b, d);
    CancelLeft(b, a, c);
  }

  // ---------------------------------------------------------------------
  // limit_denominator
  // ---------------------------------------------------------------------

  /** The variables of the continued-fraction loop: the last two
      convergents `p0/q0`, `p1/q1` and the remaining quotient `n/d`. */
  datatype State = State(p0: nat, q0: nat, p1: nat, q1: nat, n: nat, d: nat)

  /** What the loop keeps while expanding `N/D` under denominator bound
      `bound`: the remainders reconstruct `N` and `D`, consecutive
      convergents have determinant +-1, and no denominator exceeds the
      bound. */
  predicate Inv(N: nat, D: nat, bound: nat, s: State)
  {
    s.q1 * s.n + s.q0 * s.d == D &&
    s.p1 * s.n + s.p0 * s.d == N &&
    (s.p1 * s.q0 - s.p0 * s.q1 == 1 || s.p1 * s.q0 - s.p0 * s.q1 == -1) &&
    s.d >= 1 && s.q0 <= bound && s.q1 <= bound && (s.q1 == 0 ==> s.q0 == 1)
  }

  /** One iteration: `a = n//d` and the next convergent. */
  function Next(s: State): (t: State)
    requires s.d >= 1
    ensures t.d < s.d
  {
    var a := s.n / s.d;
    State(s.p1, s.q1, s.p0 + a * s.p1, s.q0 + a * s.q1, s.d, s.n - a * s.d)
  }

  /** The loop exits once the next denominator would exceed the bound. */
  predicate Exhausted(bound: nat, s: State)
    requires s.d >= 1
  {
    s.q0 + (s.n / s.d) * s.q1 > bound
  }

  /** If `d` divides both `N == p*d` and `D == q*d` of a reduced fraction,
      then `d` is 1. */
  lemma ExactStep(N: nat, D: nat, d: nat, p: nat, q: nat)
    requires d >= 1 && D == q * d && N == p * d && Gcd(N, D) == 1
    ensures D == q
  {
    DividesMultiple(d, p);
    DividesMultiple(d, q);
    GcdGreatest(N, D, d);
    DividesBound(d, 1);
  }

  lemma NextInv(N: nat, D: nat, bound: nat, s: State)
    requires bound >= 1 && D > bound && Gcd(N, D) == 1 && Inv(N, D, bound, s)
    requires !Exhausted(bound, s)
    ensures Inv(N, D, bound, Next(s))
  {
    var a, r := Divide(s.n, s.d);
    var t := Next(s);
    assert t == State(s.p1, s.q1, s.p0 + a * s.p1, s.q0 + a * s.q1, s.d, r);
    assert t.q1 * t.n + t.q0 * t.d == D && t.p1 * t.n + t.p0 * t.d == N by {
      StepInv(N, D, s.p0, s.q0, s.p1, s.q1, s.n, s.d, a, r);
    }
    assert t.p1 * t.q0 - t.p0 * t.q1 == -(s.p1 * s.q0 - s.p0 * s.q1) by {
      DetFlip(s.p0, s.q0, s.p1, s.q1, a);
    }
    assert t.d >= 1 by {
      if t.d == 0 {
        ExactStep(N, D, s.d, t.p1, t.q1);
      }
    }
    assert t.q1 == 0 ==> t.q0 == 1 by {
      if t.q1 == 0 {
        NextDenominatorZero(s.p0, s.q0, s.p1, s.q1, a);
      }
    }
  }

  /** The next denominator `q0 + a * q1` vanishes only at the start of the
      expansion, where `q1 == 1`. */
  lemma NextDenominatorZero(p0: nat, q0: nat, p1: nat, q1: nat, a: nat)
    requires q1 == 0 ==> q0 == 1
    requires p1 * q0 - p0 * q1 == 1 || p1 * q0 - p0 * q1 == -1
    requires q0 + a * q1 == 0
    ensures q1 == 1
  {
    if q1 == 0 {
      assert false;
    }
    assert q0 == 0 by {
      MulAtLeast(1, 1);
      assert a * q1 >= 0;
    }
    assert p0 * q1 == 1;
    MulAtLeast(p0, q1);
  }

  /** One step of the expansion keeps the reconstruction identities and
      flips the sign of the determinant. */
  lemma StepInv(N: int, D: int, p0: int, q0: int, p1: int, q1: int, n: int, d: int, a: int, r: int)
    requires q1 * n + q0 * d == D && p1 * n + p0 * d == N && n == a * d + r
    ensures (q0 + a * q1) * d + q1 * r == D
    ensures (p0 + a * p1) * d + p1 * r == N
    ensures (p0 + a * p1) * q1 - p1 * (q0 + a * q1) == -(p1 * q0 - p0 * q1)
  {
    Rebuild(q0, q1, n, d, a, r);
    Rebuild(p0, p1, n, d, a, r);
    DetFlip(p0, q0, p1, q1, a);
  }

  lemma Rebuild(x0: int, x1: int, n: int, d: int, a: int, r: int)
    requires n == a * d + r
    ensures (x0 + a * x1) * d + x1 * r == x1 * n + x0 * d
  {
  }

  lemma DetFlip(p0: int, q0: int, p1: int, q1: int, a: int)
    ensures (p0 + a * p1) * q1 - p1 * (q0 + a * q1) == -(p1 * q0 - p0 * q1)
  {
  }

  /** The `while True` loop of `limit_denominator`, run to its `break`. */
  function Loop(N: nat, D: nat, bound: nat, s: State): (t: State)
    requires bound >= 1 && D > bound && Gcd(N, D) == 1 && Inv(N, D, bound, s)
    ensures Inv(N, D, bound, t) && Exhausted(bound, t)
    decreases s.d
  {
    if Exhausted(bound, s) then s
    else
      NextInv(N, D, bound, s);
      Loop(N, D, bound, Next(s))
  }

  /** The last convergent `p1/q1` at the break. */
  function Convergent(t: State): Fraction
  {
    Fraction(t.p1, t.q1)
  }

  /** The best semiconvergent `(p0 + k*p1)/(q0 + k*q1)` at the break, with
      `k = (bound - q0) // q1`. */
  function SemiConvergent(bound: nat, t: State): Fraction
    requires t.q1 >= 1 && t.q0 <= bound
  {
    var k := (bound - t.q0) / t.q1;
    Fraction(t.p0 + k * t.p1, t.q0 + k * t.q1)
  }

  /** `Fraction.limit_denominator(bound)` on a fraction in normal form: the
      fraction itself when its denominator is small enough, and otherwise the
      nearer of the last convergent and the best semiconvergent. */
  function LimitDenominator(f: Fraction, bound: nat): (r: Fraction)
    requires Reduced(f) && bound >= 1
    ensures Reduced(r) && r.den <= bound
    ensures f.den <= bound ==> r == f
    ensures (bound + 1) * Abs(r.num * f.den - r.den * f.num) <= r.den * f.den
  {
    if f.den <= bound then
      assert f.num * f.den - f.den * f.num == 0;
      f
    else
      var t := Loop(f.num, f.den, bound, State(0, 1, 1, 0, f.num, f.den));
      Candidates(f.num, f.den, bound, t);
      if 2 * t.d * SemiConvergent(bound, t).den <= f.den then Convergent(t)
      else SemiConvergent(bound, t)
  }

  // ---------------------------------------------------------------------
  // The two candidates at the break
  // ---------------------------------------------------------------------

  /** Error bound `|num/den - N/D| <= 1/(bound+1)`, cross-multiplied. */
  predicate Close(N: nat, D: nat, bound: nat, r: Fraction)
  {
    (bound + 1) * Abs(r.num * D - r.den * N) <= r.den * D
  }

  /** At the break, both candidates are reduced and within the bound, the
      convergent is within `1/(bound+1)` of `N/D`, and so is the
      semiconvergent whenever it is the nearer one. */
  lemma Candidates(N: nat, D: nat, bound: nat, t: State)
    requires bound >= 1 && D > bound && Inv(N, D, bound, t) && Exhausted(bound, t)
    ensures t.q1 >= 1
    ensures Reduced(Convergent(t)) && t.q1 <= bound && Close(N, D, bound, Convergent(t))
    ensures Reduced(SemiConvergent(bound, t)) && SemiConvergent(bound, t).den <= bound
    ensures 2 * t.d * SemiConvergent(bound, t).den > D ==> Close(N, D, bound, SemiConvergent(bound, t))
  {
    ConvergentCandidate(N, D, bound, t);
    SemiCandidate(N, D, bound, t);
  }

  lemma ConvergentCandidate(N: nat, D: nat, bound: nat, t: State)
    requires bound >= 1 && D > bound && Inv(N, D, bound, t) && Exhausted(bound, t)
    ensures t.q1 >= 1
    ensures Reduced(Convergent(t)) && Close(N, D, bound, Convergent(t))
  {
    assert t.q1 >= 1;
    assert Reduced(Convergent(t)) by {
      DetCoprime(t.p1, t.q1, t.p0, t.q0);
    }
    var err := Abs(t.p1 * D - t.q1 * N);
    assert err == t.d by {
      ConvergentError(N, D, t.p0, t.q0, t.p1, t.q1, t.n, t.d, t.p1 * t.q0 - t.p0 * t.q1);
    }
    assert t.d * (bound + 1) <= D by {
      RemainderBound(D, t.q0, t.q1, t.n, t.d, t.n / t.d, bound);
    }
    assert D <= t.q1 * D by {
      MulAtLeast(D, t.q1);
    }
    CloseFrom(N, D, bound, Convergent(t), t.d);
  }

  lemma CloseFrom(N: nat, D: nat, bound: nat, r: Fraction, e: nat)
    requires Abs(r.num * D - r.den * N) == e && e * (bound + 1) <= r.den * D
    ensures Close(N, D, bound, r)
  {
  }

  lemma SemiCandidate(N: nat, D: nat, bound: nat, t: State)
    requires bound >= 1 && D > bound && Inv(N, D, bound, t) && Exhausted(bound, t)
    ensures t.q1 >= 1
    ensures Reduced(SemiConvergent(bound, t)) && SemiConvergent(bound, t).den <= bound
    ensures 2 * t.d * SemiConvergent(bound, t).den > D ==> Close(N, D, bound, SemiConvergent(bound, t))
  {
    var p0, q0, p1, q1, n, d := t.p0, t.q0, t.p1, t.q1, t.n, t.d;
    assert q1 >= 1;
    var k := (bound - q0) / q1;
    var P, Q := p0 + k * p1, q0 + k * q1;
    assert SemiConvergent(bound, t) == Fraction(P, Q);
    var det := p1 * q0 - p0 * q1;
    assert Gcd(P, Q) == 1 by {
      SemiDet(p0, q0, p1, q1, k);
      DetCoprime(P, Q, p1, q1);
    }
    assert q0 == 0 ==> p0 * q1 == -det by {
      if q0 == 0 {
        assert p1 * q0 == 0;
      }
    }
    assert k >= 0 by { QuotientNonnegative(bound - q0, q1); }
    assert 1 <= Q <= bound by {
      SemiDenominator(p0, q0, q1, det, bound, k);
    }
    if 2 * d * Q > D {
      var a := n / d;
      assert k * d <= n by {
        QuotientBound(bound, q0, q1, a, k);
        FloorBelow(k, a, n, d);
      }
      var e := n - k * d;
      assert Abs(P * D - Q * N) == e && D == d * Q + q1 * e by {
        assert q1 * n + q0 * d == D && p1 * n + p0 * d == N;
        assert det == 1 || det == -1;
        SemiError(N, D, p0, q0, p1, q1, n, d, det, k);
      }
      assert d * (bound + 1) <= D by {
        RemainderBound(D, q0, q1, n, d, a, bound);
      }
      assert (bound + 1) * e <= Q * D by {
        SemiBound(D, Q, q1, e, d, bound);
      }
      CloseFrom(N, D, bound, Fraction(P, Q), e);
    }
  }

  /** Consecutive convergents have determinant +-1, so each is in lowest
      terms. */
  lemma DetCoprime(p: nat, q: nat, p': nat, q': nat)
    requires p * q' - p' * q == 1 || p * q' - p' * q == -1
    ensures Gcd(p, q) == 1
  {
    var det := p * q' - p' * q;
    DetIdentity(p, q, p', q', det);
    CoprimeByCombination(p, q, det * q', -det * p');
  }

  lemma DetIdentity(p: int, q: int, p': int, q': int, det: int)
    requires det == p * q' - p' * q && (det == 1 || det == -1)
    ensures p * (det * q') + q * (-det * p') == 1
  {
    assert p * (det * q') + q * (-det * p') == det * det;
  }

  lemma SemiDet(p0: int, q0: int, p1: int, q1: int, k: int)
    ensures (p0 + k * p1) * q1 - p1 * (q0 + k * q1) == -(p1 * q0 - p0 * q1)
  {
  }

  lemma FloorBelow(k: nat, a: nat, n: nat, d: nat)
    requires d >= 1 && a == n / d && k < a
    ensures k * d <= n
  {
    MulMonotone(k, a, d);
  }

  lemma SemiDenominator(p0: nat, q0: nat, q1: nat, det: int, bound: nat, k: nat)
    requires bound >= 1 && q1 >= 1 && q0 <= bound && k == (bound - q0) / q1
    requires det == 1 || det == -1
    requires q0 == 0 ==> p0 * q1 == -det
    ensures 1 <= q0 + k * q1 <= bound
  {
    assert k * q1 <= bound - q0;
    if q0 == 0 {
      MulAtLeast(q1, p0);
      MulAtLeast(p0, q1);
      assert q1 == 1;
    }
  }

  lemma ConvergentError(N: nat, D: nat, p0: nat, q0: nat, p1: nat, q1: nat, n: nat, d: nat, det: int)
    requires q1 * n + q0 * d == D && p1 * n + p0 * d == N
    requires det == p1 * q0 - p0 * q1 && (det == 1 || det == -1)
    ensures Abs(p1 * D - q1 * N) == d
  {
    CrossDet(p1, q1, p0, q0, n, d);
    AbsUnit(det, d);
  }

  lemma SemiError(N: nat, D: nat, p0: nat, q0: nat, p1: nat, q1: nat, n: nat, d: nat, det: int, k: nat)
    requires q1 * n + q0 * d == D && p1 * n + p0 * d == N
    requires det == p1 * q0 - p0 * q1 && (det == 1 || det == -1)
    requires k * d <= n
    ensures Abs((p0 + k * p1) * D - (q0 + k * q1) * N) == n - k * d
    ensures D == d * (q0 + k * q1) + q1 * (n - k * d)
  {
    CrossDet(p1, q1, p0, q0, n, d);
    CrossDetOld(p1, q1, p0, q0, n, d);
    SplitCombination(p0, q0, p1, q1, k, D, N);
    var x, y := p0 * D - q0 * N, p1 * D - q1 * N;
    assert x == -det * n && y == det * d;
    FactorUnit(det, n, k, d);
    AbsUnit(-det, n - k * d);
    SplitDenominator(q0, q1, n, d, k);
  }

  lemma CrossDet(p1: int, q1: int, p0: int, q0: int, n: int, d: int)
    ensures p1 * (q1 * n + q0 * d) - q1 * (p1 * n + p0 * d) == (p1 * q0 - p0 * q1) * d
  {
  }

  lemma CrossDetOld(p1: int, q1: int, p0: int, q0: int, n: int, d: int)
    ensures p0 * (q1 * n + q0 * d) - q0 * (p1 * n + p0 * d) == -(p1 * q0 - p0 * q1) * n
  {
  }

  lemma SplitCombination(p0: int, q0: int, p1: int, q1: int, k: int, D: int, N: int)
    ensures (p0 + k * p1) * D - (q0 + k * q1) * N == (p0 * D - q0 * N) + k * (p1 * D - q1 * N)
  {
  }

  lemma FactorUnit(det: int, n: int, k: int, d: int)
    ensures -det * n + k * (det * d) == -det * (n - k * d)
  {
  }

  lemma SplitDenominator(q0: int, q1: int, n: int, d: int, k: int)
    ensures q1 * n + q0 * d == d * (q0 + k * q1) + q1 * (n - k * d)
  {
  }

  lemma AbsUnit(u: int, e: int)
    requires (u == 1 || u == -1) && e >= 0
    ensures Abs(u * e) == e
  {
  }

  /** `d * (bound + 1) <= D` at the break. */
  lemma RemainderBound(D: nat, q0: nat, q1: nat, n: nat, d: nat, a: nat, bound: nat)
    requires d >= 1 && a == n / d && q1 * n + q0 * d == D && q0 + a * q1 > bound
    ensures d * (bound + 1) <= D
  {
    MulMonotone(a * d, n, q1);
    assert d * (q0 + a * q1) == d * q0 + (a * d) * q1;
    MulMonotone(bound + 1, q0 + a * q1, d);
  }

  lemma QuotientBound(bound: nat, q0: nat, q1: nat, a: nat, k: nat)
    requires q1 >= 1 && q0 <= bound && k == (bound - q0) / q1 && q0 + a * q1 > bound
    ensures k < a
  {
    assert k * q1 <= bound - q0 < a * q1;
    if k >= a {
      MulMonotone(a, k, q1);
    }
  }

  /** The semiconvergent is chosen only when it is nearer than the
      convergent, and then its error is below `1/(bound+1)`. */
  lemma SemiBound(D: nat, Q: nat, q1: nat, e: nat, d: nat, bound: nat)
    requires q1 >= 1 && D == d * Q + q1 * e && 2 * d * Q > D && d * (bound + 1) <= D
    ensures (bound + 1) * e <= Q * D
  {
    var B, x, y, dB := bound + 1, q1 * e, d * Q, d * (bound + 1);
    assert x < y by { Doubled(d, Q, y); }
    MulMonotone(1, q1, e);
    MulMonotone(e, x, B);
    MulStrict(x, y, B);
    MulRegroup(d, Q, B, y, dB);
    MulMonotone(dB, D, Q);
    LeLtEqLe(B * e, B * x, B * y, dB * Q, Q * D);
  }

  lemma Doubled(d: nat, Q: nat, y: nat)
    requires y == d * Q
    ensures 2 * d * Q == 2 * y
  {
  }

  lemma MulRegroup(d: nat, Q: nat, B: nat, y: nat, dB: nat)
    requires y == d * Q && dB == d * B
    ensures B * y == dB * Q
  {
  }

  lemma LeLtEqLe(a: int, b: int, c: int, d: int, e: int)
    requires a <= b < c && c == d && d <= e
    ensures a <= e
  {
  }
}
