/** The quantum order finder around the simulator: the modular-exponentiation
    oracle gate `ModularExp`, the register layout of the order-finding
    circuit, and the classical post-processing of a measured exponent
    register. The simulation itself is not modelled: the measured integer is
    an input. */
module PhaseEstimation {
  import opened Wrappers
  import opened Arith
  import opened OrderFinding
  import opened ContinuedFractions

  // ---------------------------------------------------------------------
  // The ModularExp gate
  // ---------------------------------------------------------------------

  /** A register argument: a list of qubit dimensions, or a classical
      integer. */
  datatype RegisterArg = Dims(dims: seq<nat>) | Int(value: int)

  /** The gate's four registers: target qubits, exponent (qubits or a
      constant), base and modulus. */
  datatype ModularExp = ModularExp(target: seq<nat>, exponent: RegisterArg, base: RegisterArg, modulus: int)

  datatype GateError =
    | RegisterTooSmall   // ValueError: target shorter than the modulus' bit length
    | WrongRegisterCount // ValueError: with_registers given other than 4 values
    | NotARegister       // TypeError: target is not a list, or modulus not an int

  /** `ModularExp.__init__`. */
  function NewModularExp(target: seq<nat>, exponent: RegisterArg, base: RegisterArg, modulus: int): (g: Result<ModularExp, GateError>)
    ensures g.Err? <==> |target| < BitLength(Abs(modulus))
    ensures g.Ok? ==> g.value == ModularExp(target, exponent, base, modulus)
  {
    if |target| < BitLength(Abs(modulus)) then Err(RegisterTooSmall)
    else Ok(ModularExp(target, exponent, base, modulus))
  }

  /** `ModularExp.registers`. */
  function Registers(g: ModularExp): (regs: seq<RegisterArg>)
    ensures |regs| == 4
  {
    [Dims(g.target), g.exponent, g.base, Int(g.modulus)]
  }

  /** `ModularExp.with_registers`: rebuilds a gate from exactly four
      register values. */
  function WithRegisters(regs: seq<RegisterArg>): (g: Result<ModularExp, GateError>)
    ensures |regs| != 4 ==> g == Err(WrongRegisterCount)
    ensures g.Ok? ==> Registers(g.value) == regs
    ensures g.Ok? <==> |regs| == 4 && regs[0].Dims? && regs[3].Int? &&
                       |regs[0].dims| >= BitLength(Abs(regs[3].value))
  {
    if |regs| != 4 then Err(WrongRegisterCount)
    else if !regs[0].Dims? || !regs[3].Int? then Err(NotARegister)
    else NewModularExp(regs[0].dims, regs[1], regs[2], regs[3].value)
  }

  /** Taking a constructed gate apart and rebuilding it gives it back. */
  lemma WithRegistersRoundTrip(target: seq<nat>, exponent: RegisterArg, base: RegisterArg, modulus: int)
    requires NewModularExp(target, exponent, base, modulus).Ok?
    ensures var g := NewModularExp(target, exponent, base, modulus).value;
      WithRegisters(Registers(g)) == Ok(g)
  {
  }

  /** `ModularExp.apply` on register values: multiplies the target by
      `base^exponent` modulo `modulus`, and leaves values at or above the
      modulus alone. */
  function Apply(target: nat, exponent: nat, base: nat, modulus: nat): (r: nat)
    ensures target < modulus ==> r < modulus
    ensures target >= modulus ==> r == target
  {
    if target >= modulus then target else (target * Pow(base, exponent)) % modulus
  }

  /** Applying the gate for `e1` and then for `e2` is applying it for
      `e1 + e2`. */
  lemma ApplyCompose(target: nat, e1: nat, e2: nat, base: nat, modulus: nat)
    ensures Apply(Apply(target, e1, base, modulus), e2, base, modulus) == Apply(target, e1 + e2, base, modulus)
  {
    if target < modulus {
      var b1, b2 := Pow(base, e1), Pow(base, e2);
      ModMulLeft(target * b1, b2, modulus);
      PowAdd(base, e1, e2);
      assert (target * b1) * b2 == target * (b1 * b2);
    }
  }

  /** For a base coprime to the modulus the gate permutes register values,
      as a reversible arithmetic gate must. */
  lemma ApplyInjective(t1: nat, t2: nat, exponent: nat, base: nat, modulus: nat)
    requires modulus >= 1 && Gcd(base, modulus) == 1
    requires Apply(t1, exponent, base, modulus) == Apply(t2, exponent, base, modulus)
    ensures t1 == t2
  {
    if t1 < modulus && t2 < modulus {
      var b := Pow(base, exponent);
      CoprimePow(base, exponent, modulus);
      if t1 >= t2 {
        ResidueCancel(t1, t2, b, modulus);
      } else {
        ResidueCancel(t2, t1, b, modulus);
      }
    }
  }

  lemma ResidueCancel(t1: nat, t2: nat, b: nat, m: nat)
    requires t2 <= t1 < m && Gcd(b, m) == 1 && (t1 * b) % m == (t2 * b) % m
    ensures t1 == t2
  {
    ModEqDivides(t2 * b, t1 * b, m);
    assert t1 * b - t2 * b == b * (t1 - t2);
    Gauss(m, b, t1 - t2);
    if t1 > t2 {
      DividesBound(m, t1 - t2);
    }
  }

  /** Started from 1, the gate computes `x^e mod n`. */
  lemma ApplyFromOne(e: nat, x: nat, n: nat)
    requires n >= 2
    ensures Apply(1, e, x, n) == Pow(x, e) % n
  {
  }

  /** Started from 1, the gate's output is periodic in the exponent with the
      order of `x`: the periodicity that phase estimation reads out. */
  lemma ApplyPeriodic(e: nat, x: nat, n: nat)
    requires ValidBase(x, n)
    ensures Apply(1, e + Order(x, n), x, n) == Apply(1, e, x, n)
  {
    var r := Order(x, n);
    ApplyCompose(1, r, e, x, n);
    assert Apply(1, r, x, n) == 1;
  }

  // ---------------------------------------------------------------------
  // The order-finding circuit
  // ---------------------------------------------------------------------

  /** The noise channel added to every moment of the circuit. */
  datatype Noise = Noiseless | Depolarize(p: real) | BitFlip(p: real)

  /** The `noise_model` names the circuit builder recognises; any other name
      leaves the circuit noiseless. */
  function NoiseFor(model: string): (c: Noise)
    ensures c == Noiseless <==> model != "depolarizing" && model != "bitflip"
    ensures model == "depolarizing" <==> c == Depolarize(0.01)
    ensures model == "bitflip" <==> c == BitFlip(0.02)
    ensures c.Depolarize? ==> c.p == 0.01
    ensures c.BitFlip? ==> c.p == 0.02
  {
    if model == "depolarizing" then Depolarize(0.01)
    else if model == "bitflip" then BitFlip(0.02)
    else Noiseless
  }

  /** What the circuit builder fixes classically: the qubit flipped to
      prepare the target, the two registers as line-qubit indices, the
      oracle gate and the noise. */
  datatype OrderFindingCircuit = OrderFindingCircuit(
    flipped: nat,
    targetQubits: seq<nat>,
    exponentQubits: seq<nat>,
    gate: ModularExp,
    noise: Noise)

  /** `make_order_finding_circuit`, without the gates the simulator alone
      interprets (Hadamards, inverse QFT, measurement). */
  function MakeOrderFindingCircuit(x: nat, n: nat, noiseModel: string): (c: OrderFindingCircuit)
    requires n >= 1
    ensures |c.targetQubits| == BitLength(n) && |c.exponentQubits| == 2 * BitLength(n) + 3
    ensures c.gate.target == seq(BitLength(n), _ => 2)
    ensures c.gate.exponent == Dims(seq(2 * BitLength(n) + 3, _ => 2))
    ensures c.gate.base == Int(x) && c.gate.modulus == n
    ensures c.flipped == c.targetQubits[|c.targetQubits| - 1]
  {
    var L := BitLength(n);
    var g := NewModularExp(seq(L, _ => 2), Dims(seq(2 * L + 3, _ => 2)), Int(x), n);
    var target := seq(L, i => i);
    OrderFindingCircuit(target[L - 1], target, seq(2 * L + 3, j => L + j), g.value, NoiseFor(noiseModel))
  }

  /** The target register holds qubits `[0, L)` and the exponent register
      qubits `[L, 3L+3)`: disjoint, and together every qubit of the
      circuit. */
  lemma CircuitLayout(x: nat, n: nat, noiseModel: string, q: nat)
    requires n >= 1
    ensures var c := MakeOrderFindingCircuit(x, n, noiseModel);
      var L := BitLength(n);
      (q in c.targetQubits <==> q < L) &&
      (q in c.exponentQubits <==> L <= q < 3 * L + 3) &&
      !(q in c.targetQubits && q in c.exponentQubits)
  {
    var c := MakeOrderFindingCircuit(x, n, noiseModel);
    var L := BitLength(n);
    if q < L {
      assert c.targetQubits[q] == q;
    }
    if L <= q < 3 * L + 3 {
      assert c.exponentQubits[q - L] == q;
    }
  }

  /** The target register's initial bits: 1 on the flipped qubit, 0
      elsewhere. */
  function InitialTargetBits(c: OrderFindingCircuit): seq<nat>
  {
    seq(|c.targetQubits|, i requires 0 <= i < |c.targetQubits| =>
      if c.targetQubits[i] == c.flipped then 1 else 0)
  }

  /** The flipped qubit is the last, least significant, target qubit, so
      in big-endian order the target register starts at the value 1. */
  lemma CircuitStartsAtOne(x: nat, n: nat, noiseModel: string)
    requires n >= 1
    ensures BigEndianBits(InitialTargetBits(MakeOrderFindingCircuit(x, n, noiseModel))) == 1
  {
    var c := MakeOrderFindingCircuit(x, n, noiseModel);
    var L := |c.targetQubits|;
    var bits := InitialTargetBits(c);
    assert c.targetQubits == seq(L, i => i) && c.flipped == L - 1;
    assert bits[L - 1] == 1;
    assert bits[..L - 1] == seq(L - 1, _ => 0);
    ZerosValue(L - 1);
  }

  /** The value of a big-endian bit string. */
  function BigEndianBits(bits: seq<nat>): (v: nat)
    ensures |bits| == 0 ==> v == 0
  {
    if |bits| == 0 then 0 else 2 * BigEndianBits(bits[..|bits| - 1]) + bits[|bits| - 1]
  }

  lemma {:induction false} ZerosValue(k: nat)
    ensures BigEndianBits(seq(k, _ => 0)) == 0
  {
    if k > 0 {
      assert seq(k, _ => 0)[..k - 1] == seq(k - 1, _ => 0);
      ZerosValue(k - 1);
    }
  }

  /** The oracle gate built by the circuit is always accepted by the
      constructor, and the exponent register has more than `2 log2 n` bits:
      `2^(2L+3) > 8 n^2`, the precision phase estimation needs. */
  lemma CircuitWellSized(x: nat, n: nat, noiseModel: string)
    requires n >= 1
    ensures var c := MakeOrderFindingCircuit(x, n, noiseModel);
      NewModularExp(c.gate.target, c.gate.exponent, c.gate.base, c.gate.modulus).Ok? &&
      Pow(2, |c.exponentQubits|) > 8 * (n * n)
  {
    PhasePrecision(n);
  }

  lemma PhasePrecision(n: nat)
    requires n >= 1
    ensures Pow(2, 2 * BitLength(n) + 3) > 8 * (n * n)
  {
    var L := BitLength(n);
    var p := Pow(2, L);
    EightSquares(L);
    SquareStrict(n, p);
  }

  /** `2^(2L + 3) == 8 * (2^L)^2`. */
  lemma EightSquares(L: nat)
    ensures Pow(2, 2 * L + 3) == (Pow(2, L) * Pow(2, L)) * 8
  {
    PowAdd(2, L, L);
    PowAdd(2, L + L, 3);
    assert Pow(2, 3) == 8;
  }

  lemma SquareStrict(n: nat, p: nat)
    requires n < p
    ensures n * n < p * p
  {
    MulStrict(n, p, p);
    if n >= 1 {
      MulStrict(n, p, n);
    }
  }

  // ---------------------------------------------------------------------
  // Reading the measurement
  // ---------------------------------------------------------------------

  /** `process_measurement`: the exponent register read as `v` over `m`
      bits gives the phase `v / 2^m`; its best approximation with
      denominator at most `n` proposes a candidate order, which is returned
      only if it passes the classical check `x^r mod n == 1`. */
  function ProcessMeasurement(v: nat, m: nat, x: nat, n: nat): (r: Option<nat>)
    requires n >= 1
    ensures r.Some? ==> 1 <= r.value <= n && Pow(x, r.value) % n == 1
  {
    PowPositive(2, m);
    var f := LimitDenominator(MakeFraction(v, Pow(2, m)), n);
    if f.num == 0 then None
    else if Pow(x, f.den) % n != 1 then None
    else Some(f.den)
  }

  /** A zero reading fails. */
  lemma ZeroMeasurement(m: nat, x: nat, n: nat)
    requires n >= 1
    ensures ProcessMeasurement(0, m, x, n) == None
  {
    PowPositive(2, m);
    var f := MakeFraction(0, Pow(2, m));
    ReducedUnique(f, Fraction(0, 1));
  }

  /** Whatever the reading, a returned candidate is a multiple of the true
      order. */
  lemma MeasurementIsPeriod(v: nat, m: nat, x: nat, n: nat)
    requires ValidBase(x, n) && ProcessMeasurement(v, m, x, n).Some?
    ensures ProcessMeasurement(v, m, x, n).value % Order(x, n) == 0
  {
    OrderDividesPeriods(x, n, Order(x, n), ProcessMeasurement(v, m, x, n).value);
  }

  /** An exact reading `v / 2^m == s / r` with `s` coprime to the order `r`
      recovers the order. */
  lemma ExactPhaseRecoversOrder(v: nat, m: nat, s: nat, x: nat, n: nat)
    requires ValidBase(x, n)
    requires s >= 1 && Gcd(s, Order(x, n)) == 1
    requires v * Order(x, n) == s * Pow(2, m)
    ensures ProcessMeasurement(v, m, x, n) == Some(Order(x, n))
  {
    var r := Order(x, n);
    var D := Pow(2, m);
    PowPositive(2, m);
    var f := MakeFraction(v, D);
    CrossMultiply(f.num, f.den, v, D, s, r);
    ReducedUnique(f, Fraction(s, r));
  }

  /** `a/b == v/D` and `v/D == s/r` give `a/b == s/r`. */
  lemma CrossMultiply(a: nat, b: nat, v: nat, D: nat, s: nat, r: nat)
    requires D >= 1 && a * D == v * b && v * r == s * D
    ensures a * r == s * b
  {
    assert (a * r) * D == (a * D) * r == (v * b) * r == (v * r) * b;
    assert (v * r) * b == (s * D) * b == (s * b) * D;
    CancelLeft(D, a * r, s * b);
  }

  /** `quantum_order_finder`: the same guard as the classical finder, then
      one measured value `v` of the circuit's exponent register (only the
      first repetition is read) decoded by `process_measurement`. */
  function QuantumOrderFinder(x: int, n: int, v: nat, noiseModel: string): (r: Result<Option<nat>, OrderError>)
    ensures r.Err? <==> !ValidBase(x, n)
    ensures r.Ok? && r.value.Some? ==>
      1 <= r.value.value <= n && Pow(x as nat, r.value.value) % n == 1
  {
    if x < 2 || n <= x || Gcd(x as nat, n as nat) > 1 then Err(InvalidBase)
    else
      GcdPositive(x as nat, n as nat);
      var c := MakeOrderFindingCircuit(x as nat, n as nat, noiseModel);
      Ok(ProcessMeasurement(v, |c.exponentQubits|, x as nat, n as nat))
  }

  /** Every order the quantum finder reports is a multiple of the true
      order; on an exact reading it is the true order. */
  lemma QuantumOrderFinderSound(x: nat, n: nat, v: nat, noiseModel: string)
    requires ValidBase(x, n)
    ensures var r := QuantumOrderFinder(x, n, v, noiseModel);
      r.Ok? && (r.value.Some? ==> r.value.value % Order(x, n) == 0)
  {
    var c := MakeOrderFindingCircuit(x, n, noiseModel);
    if ProcessMeasurement(v, |c.exponentQubits|, x, n).Some? {
      MeasurementIsPeriod(v, |c.exponentQubits|, x, n);
    }
  }
}
