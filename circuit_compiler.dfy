/** `create_circuit_from_json`: the JSON circuit description the front end
    sends is validated and turned into a list of gates. Qubit names are
    resolved through the layout, every gate's arity is enforced, unknown
    gates are rejected, and one measurement of every qubit ends the circuit.
    Gates are an abstract datatype over qubit indices, not library objects. */
module CircuitCompiler {
  import opened Wrappers

  // ---------------------------------------------------------------------
  // Input and output
  // ---------------------------------------------------------------------

  /** The `type` field of an operation: the sixteen names the compiler
      compares it against, or any other string. */
  datatype GateType =
    | TypeH | TypeMeasure | TypeX | TypeY | TypeZ
    | TypeRx | TypeRy | TypeRz
    | TypeCnot | TypeSwap | TypeCrz | TypeCz | TypeCy | TypeCcx | TypeCrx | TypeCry
    | Other(name: string)

  /** The name each known gate type is written as. */
  function GateTypeName(t: GateType): string
  {
    match t
    case TypeH => "H"
    case TypeMeasure => "MEASURE"
    case TypeX => "X"
    case TypeY => "Y"
    case TypeZ => "Z"
    case TypeRx => "RX"
    case TypeRy => "RY"
    case TypeRz => "RZ"
    case TypeCnot => "CNOT"
    case TypeSwap => "SWAP"
    case TypeCrz => "CRZ"
    case TypeCz => "CZ"
    case TypeCy => "CY"
    case TypeCcx => "CCX"
    case TypeCrx => "CRX"
    case TypeCry => "CRY"
    case Other(name) => name
  }

  const KnownNames: set<string> :=
    {"H", "MEASURE", "X", "Y", "Z", "RX", "RY", "RZ",
     "CNOT", "SWAP", "CRZ", "CZ", "CY", "CCX", "CRX", "CRY"}

  /** The comparisons `gate_type == "H"`, `gate_type == "MEASURE"`, ...
      done once: the known type a name spells, or `Other`. */
  function ParseGateType(s: string): (t: GateType)
    ensures t.Other? <==> s !in KnownNames
  {
    if s == "H" then TypeH
    else if s == "MEASURE" then TypeMeasure
    else if s == "X" then TypeX
    else if s == "Y" then TypeY
    else if s == "Z" then TypeZ
    else if s == "RX" then TypeRx
    else if s == "RY" then TypeRy
    else if s == "RZ" then TypeRz
    else if s == "CNOT" then TypeCnot
    else if s == "SWAP" then TypeSwap
    else if s == "CRZ" then TypeCrz
    else if s == "CZ" then TypeCz
    else if s == "CY" then TypeCy
    else if s == "CCX" then TypeCcx
    else if s == "CRX" then TypeCrx
    else if s == "CRY" then TypeCry
    else Other(s)
  }

  /** Reading a type and writing it back loses nothing. */
  lemma ParseGateTypeName(s: string)
    ensures GateTypeName(ParseGateType(s)) == s
  {
    if s !in KnownNames {
      assert ParseGateType(s) == Other(s);
    }
  }

  /** Every known type is read back from its name. */
  lemma GateTypeNameParse(t: GateType)
    requires !t.Other? || t.name !in KnownNames
    ensures ParseGateType(GateTypeName(t)) == t
  {
  }

  /** One entry of `circuit.operations`, its `type` read by
      `ParseGateType`. A missing `targets` field reads as the empty list;
      `control` is a comma-separated list of names; the angle is a number,
      absent or not. */
  datatype Operation = Operation(gateType: GateType, targets: seq<string>,
                                 control: Option<string>, angle: Option<real>)

  /** The gates the compiler emits, on the qubits `LineQubit(i)` written as
      their indices `i`. `Measure(q)` is keyed by the qubit's own name.
      `ControlledZ` is the controlled-`Z` gate emitted for `CRZ`, kept apart
      from the `CZ` gate emitted for `CZ`. */
  datatype Gate =
    | H(q: nat) | X(q: nat) | Y(q: nat) | Z(q: nat)
    | Measure(q: nat)
    | Rx(theta: real, q: nat) | Ry(theta: real, q: nat) | Rz(theta: real, q: nat)
    | Cnot(c: nat, t: nat) | Swap(a: nat, b: nat)
    | ControlledZ(c: nat, t: nat) | Cz(c: nat, t: nat)
    | Ccx(c1: nat, c2: nat, t: nat)
    | Crx(theta: real, c: nat, t: nat) | Cry(theta: real, c: nat, t: nat)
    | MeasureAll(qs: seq<nat>, key: string)

  /** The `ValueError`s the compiler raises. */
  datatype CompileError =
    | InvalidQubits
    | ArityMismatch(gateType: GateType)
    | UnsupportedGate(gateType: GateType)
    | DuplicateQubits(gateType: GateType)
    | NoQubitsToMeasure

  /** The qubits a gate acts on. */
  function Acts(g: Gate): seq<nat>
  {
    match g
    case H(q) => [q]
    case X(q) => [q]
    case Y(q) => [q]
    case Z(q) => [q]
    case Measure(q) => [q]
    case Rx(_, q) => [q]
    case Ry(_, q) => [q]
    case Rz(_, q) => [q]
    case Cnot(c, t) => [c, t]
    case Swap(a, b) => [a, b]
    case ControlledZ(c, t) => [c, t]
    case Cz(c, t) => [c, t]
    case Ccx(c1, c2, t) => [c1, c2, t]
    case Crx(_, c, t) => [c, t]
    case Cry(_, c, t) => [c, t]
    case MeasureAll(qs, _) => qs
  }

  // ---------------------------------------------------------------------
  // Qubit names
  // ---------------------------------------------------------------------

  /** The dictionary `{name: LineQubit(index) for index, name in
      enumerate(keys)}`: every key of the layout mapped to its position (a
      repeated key to its last one). */
  function QubitMap(keys: seq<string>): (qubits: map<string, nat>)
    ensures forall name :: name in qubits <==> name in keys
    ensures forall name <- qubits :: qubits[name] < |keys| && keys[qubits[name]] == name
    decreases |keys|
  {
    if |keys| == 0 then map[]
    else QubitMap(keys[..|keys| - 1])[keys[|keys| - 1] := |keys| - 1]
  }

  predicate Distinct<T(==)>(xs: seq<T>)
  {
    forall i, j :: 0 <= i < j < |xs| ==> xs[i] != xs[j]
  }

  /** Different names never share a position: each maps to a position
      holding itself. */
  lemma QubitMapInjective(keys: seq<string>, a: string, b: string)
    requires a in QubitMap(keys) && b in QubitMap(keys)
    requires QubitMap(keys)[a] == QubitMap(keys)[b]
    ensures a == b
  {
  }

  /** The keys of a dictionary are distinct, so each layout name maps to
      its own position. */
  lemma QubitMapIndex(keys: seq<string>, i: nat)
    requires Distinct(keys) && i < |keys|
    ensures QubitMap(keys)[keys[i]] == i
  {
    var j := QubitMap(keys)[keys[i]];
    assert keys[j] == keys[i];
  }

  /** The indices of all layout qubits, in order: `qubits.values()`. */
  function AllQubits(n: nat): (qs: seq<nat>)
    ensures |qs| == n && forall i :: 0 <= i < n ==> qs[i] == i
  {
    seq(n, i requires 0 <= i < n => i)
  }

  /** The list comprehension over `qubits.get`, with its `None in ...`
      check: every name resolved, or `None` when one is missing. */
  function Resolve(qubits: map<string, nat>, names: seq<string>): (r: Option<seq<nat>>)
    ensures r.Some? <==> forall name <- names :: name in qubits
    ensures r.Some? ==> |r.value| == |names|
    ensures r.Some? ==>
      forall i :: 0 <= i < |names| ==> names[i] in qubits && r.value[i] == qubits[names[i]]
    decreases |names|
  {
    if |names| == 0 then Some([])
    else
      var init, last := names[..|names| - 1], names[|names| - 1];
      assert forall name <- names :: name in init || name == last;
      match Resolve(qubits, init)
      case None => None
      case Some(qs) => if last in qubits then Some(qs + [qubits[last]]) else None
  }

  /** Every resolved index is a layout position. */
  lemma ResolveInLayout(layout: seq<string>, names: seq<string>)
    requires Resolve(QubitMap(layout), names).Some?
    ensures forall q <- Resolve(QubitMap(layout), names).value :: q < |layout|
  {
    var qubits := QubitMap(layout);
    var qs := Resolve(qubits, names).value;
    forall q <- qs
      ensures q < |layout|
    {
      var i :| 0 <= i < |qs| && qs[i] == q;
      assert q == qubits[names[i]];
    }
  }

  // ---------------------------------------------------------------------
  // Splitting the control field
  // ---------------------------------------------------------------------

  /** Python's `s.split(sep)`: the pieces between separators, empty ones
      included; never an empty list. */
  function Split(s: string, sep: char): (parts: seq<string>)
    ensures |parts| >= 1
    ensures forall p <- parts :: sep !in p
    decreases |s|
  {
    if |s| == 0 then [""]
    else
      var rest := Split(s[1..], sep);
      if s[0] == sep then [""] + rest
      else [[s[0]] + rest[0]] + rest[1..]
  }

  /** `sep.join(parts)`. */
  function Join(parts: seq<string>, sep: char): string
    requires |parts| >= 1
    decreases |parts|
  {
    if |parts| == 1 then parts[0] else parts[0] + [sep] + Join(parts[1..], sep)
  }

  /** Joining the pieces gives back the string that was split. */
  lemma {:induction false} JoinSplit(s: string, sep: char)
    ensures Join(Split(s, sep), sep) == s
    decreases |s|
  {
    if |s| > 0 {
      var rest := Split(s[1..], sep);
      JoinSplit(s[1..], sep);
      if s[0] == sep {
        assert Split(s, sep)[1..] == rest;
      } else {
        var parts := Split(s, sep);
        assert parts[1..] == rest[1..];
        if |rest| > 1 {
          assert Join(rest, sep) == rest[0] + [sep] + Join(rest[1..], sep);
        }
      }
    }
  }

  /** Splitting a join of pieces free of the separator gives the pieces. */
  lemma {:induction false} SplitJoin(parts: seq<string>, sep: char)
    requires |parts| >= 1 && forall p <- parts :: sep !in p
    ensures Split(Join(parts, sep), sep) == parts
    decreases |parts|, |parts[0]|
  {
    var p := parts[0];
    if |parts| == 1 {
      SplitPiece(p, sep);
    } else {
      var tail := Join(parts[1..], sep);
      SplitJoin(parts[1..], sep);
      SplitPrefix(p, sep, tail);
    }
  }

  /** A piece without separator splits to itself. */
  lemma {:induction false} SplitPiece(p: string, sep: char)
    requires sep !in p
    ensures Split(p, sep) == [p]
    decreases |p|
  {
    if |p| > 0 {
      SplitPiece(p[1..], sep);
      assert [p[0]] + p[1..] == p;
    }
  }

  /** A piece without separator, then the separator, then `s`: the piece
      comes first and the split of `s` follows. */
  lemma {:induction false} SplitPrefix(p: string, sep: char, s: string)
    requires sep !in p
    ensures Split(p + [sep] + s, sep) == [p] + Split(s, sep)
    decreases |p|
  {
    var w := p + [sep] + s;
    if |p| == 0 {
      assert w[1..] == s;
    } else {
      assert w[1..] == p[1..] + [sep] + s;
      SplitPrefix(p[1..], sep, s);
      assert [p[0]] + p[1..] == p;
    }
  }

  /** `"q0,q1".split(",")` names two controls. */
  lemma SplitTwoControls()
    ensures Split("q0,q1", ',') == ["q0", "q1"]
  {
    SplitPrefix("q0", ',', "q1");
    assert "q0" + [','] + "q1" == "q0,q1";
    SplitPiece("q1", ',');
  }

  /** `control.split(",") if control else []`: an absent or empty control
      field names no controls. */
  function ControlNames(control: Option<string>): (names: seq<string>)
    ensures |names| == 0 <==> control.None? || control.value == ""
  {
    if control.Some? && control.value != "" then Split(control.value, ',') else []
  }

  // ---------------------------------------------------------------------
  // One operation
  // ---------------------------------------------------------------------

  /** Python truthiness of the angle: absent and zero are false. */
  predicate Truthy(angle: Option<real>)
  {
    angle.Some? && angle.value != 0.0
  }

  /** The gate types applied once per target: `H`, `MEASURE`, `X`, `Y`,
      `Z`, and the rotations when their angle is truthy. */
  predicate PerTarget(gateType: GateType, angle: Option<real>)
  {
    match gateType
    case TypeH | TypeMeasure | TypeX | TypeY | TypeZ => true
    case TypeRx | TypeRy | TypeRz => Truthy(angle)
    case _ => false
  }

  /** The gate a per-target type applies to qubit `q`. */
  function TargetGate(gateType: GateType, angle: Option<real>, q: nat): (g: Gate)
    requires PerTarget(gateType, angle)
    ensures Acts(g) == [q]
  {
    match gateType
    case TypeH => H(q)
    case TypeMeasure => Measure(q)
    case TypeX => X(q)
    case TypeY => Y(q)
    case TypeZ => Z(q)
    case TypeRx => Rx(angle.value, q)
    case TypeRy => Ry(angle.value, q)
    case TypeRz => Rz(angle.value, q)
  }

  /** One gate per target, in target order. */
  function OnEach(gateType: GateType, angle: Option<real>, ts: seq<nat>): (gates: seq<Gate>)
    requires PerTarget(gateType, angle)
    ensures |gates| == |ts|
    ensures forall i :: 0 <= i < |ts| ==> gates[i] == TargetGate(gateType, angle, ts[i])
    decreases |ts|
  {
    if |ts| == 0 then []
    else OnEach(gateType, angle, ts[..|ts| - 1]) + [TargetGate(gateType, angle, ts[|ts| - 1])]
  }

  /** The branches for gates on a fixed number of qubits, with their arity
      checks; everything else is unsupported. `CRZ` ignores its angle. */
  function ShapedGates(gateType: GateType, ts: seq<nat>, cs: seq<nat>, angle: Option<real>)
    : Result<seq<Gate>, CompileError>
  {
    var pair := |cs| == 1 && |ts| == 1;
    match gateType
    case TypeCnot =>
      if pair then Ok([Cnot(cs[0], ts[0])]) else Err(ArityMismatch(gateType))
    case TypeSwap =>
      if |ts| == 2 then Ok([Swap(ts[0], ts[1])]) else Err(ArityMismatch(gateType))
    case TypeCrz =>
      if pair then Ok([ControlledZ(cs[0], ts[0])]) else Err(ArityMismatch(gateType))
    case TypeCz =>
      if pair then Ok([Cz(cs[0], ts[0])]) else Err(ArityMismatch(gateType))
    case TypeCy =>
      if pair then Ok([Cnot(cs[0], ts[0]), Y(ts[0]), Cnot(cs[0], ts[0])])
      else Err(ArityMismatch(gateType))
    case TypeCcx =>
      if |cs| == 2 && |ts| == 1 then Ok([Ccx(cs[0], cs[1], ts[0])])
      else Err(ArityMismatch(gateType))
    case TypeCrx =>
      if !Truthy(angle) then Err(UnsupportedGate(gateType))
      else if pair then Ok([Crx(angle.value, cs[0], ts[0])]) else Err(ArityMismatch(gateType))
    case TypeCry =>
      if !Truthy(angle) then Err(UnsupportedGate(gateType))
      else if pair then Ok([Cry(angle.value, cs[0], ts[0])]) else Err(ArityMismatch(gateType))
    case _ => Err(UnsupportedGate(gateType))
  }

  /** The library refuses a gate whose qubits repeat (`CNOT(q, q)`,
      `SWAP(q, q)`, ...) with a `ValueError`. */
  function MultiQubitGate(gateType: GateType, ts: seq<nat>, cs: seq<nat>, angle: Option<real>)
    : Result<seq<Gate>, CompileError>
  {
    match ShapedGates(gateType, ts, cs, angle)
    case Err(e) => Err(e)
    case Ok(gates) =>
      if forall g <- gates :: Distinct(Acts(g)) then Ok(gates) else Err(DuplicateQubits(gateType))
  }

  /** The gates for resolved targets `ts` and controls `cs`. */
  function Emit(gateType: GateType, angle: Option<real>, ts: seq<nat>, cs: seq<nat>)
    : Result<seq<Gate>, CompileError>
  {
    if PerTarget(gateType, angle) then Ok(OnEach(gateType, angle, ts))
    else MultiQubitGate(gateType, ts, cs, angle)
  }

  /** The targets and controls of an operation resolved, or `None`. */
  function ResolveOperation(qubits: map<string, nat>, op: Operation): (r: Option<(seq<nat>, seq<nat>)>)
    ensures r.Some? <==>
      Resolve(qubits, op.targets).Some? && Resolve(qubits, ControlNames(op.control)).Some?
    ensures r.Some? ==>
      r.value == (Resolve(qubits, op.targets).value, Resolve(qubits, ControlNames(op.control)).value)
  {
    match (Resolve(qubits, op.targets), Resolve(qubits, ControlNames(op.control)))
    case (Some(ts), Some(cs)) => Some((ts, cs))
    case (_, _) => None
  }

  /** The gates of one operation, with the qubit check first. */
  function CompileOperation(qubits: map<string, nat>, op: Operation): Result<seq<Gate>, CompileError>
  {
    match ResolveOperation(qubits, op)
    case None => Err(InvalidQubits)
    case Some((ts, cs)) => Emit(op.gateType, op.angle, ts, cs)
  }

  /** The gate types the compiler knows, rotations counting only with a
      truthy angle. */
  predicate Supported(gateType: GateType, angle: Option<real>)
  {
    match gateType
    case TypeRx | TypeRy | TypeRz | TypeCrx | TypeCry => Truthy(angle)
    case Other(_) => false
    case _ => true
  }

  /** The numbers of targets and controls each gate type demands; gates
      applied per target take any number. */
  predicate ArityOk(gateType: GateType, targets: nat, controls: nat)
  {
    match gateType
    case TypeCnot | TypeCrz | TypeCz | TypeCy | TypeCrx | TypeCry => controls == 1 && targets == 1
    case TypeSwap => targets == 2
    case TypeCcx => controls == 2 && targets == 1
    case _ => true
  }

  /** The qubits a gate of the type is built on are pairwise different:
      both targets of `SWAP`, the controls and the target of the
      controlled gates. Gates applied per target act on one qubit each. */
  predicate QubitsDistinct<T(==)>(gateType: GateType, ts: seq<T>, cs: seq<T>)
  {
    match gateType
    case TypeSwap => Distinct(ts)
    case TypeCnot | TypeCrz | TypeCz | TypeCy | TypeCcx | TypeCrx | TypeCry => Distinct(cs + ts)
    case _ => true
  }

  /** For resolved qubits: an unsupported gate type (a rotation with a
      falsy angle included) fails first, then a wrong number of qubits,
      then a qubit used twice by one gate; otherwise there are gates. */
  lemma EmitOutcome(gateType: GateType, angle: Option<real>, ts: seq<nat>, cs: seq<nat>)
    ensures var r := Emit(gateType, angle, ts, cs);
      (r == Err(UnsupportedGate(gateType)) <==> !Supported(gateType, angle)) &&
      (r == Err(ArityMismatch(gateType)) <==>
        Supported(gateType, angle) && !ArityOk(gateType, |ts|, |cs|)) &&
      (r == Err(DuplicateQubits(gateType)) <==>
        Supported(gateType, angle) && ArityOk(gateType, |ts|, |cs|) && !QubitsDistinct(gateType, ts, cs)) &&
      (r.Ok? <==>
        Supported(gateType, angle) && ArityOk(gateType, |ts|, |cs|) && QubitsDistinct(gateType, ts, cs))
  {
    if !PerTarget(gateType, angle) && Supported(gateType, angle) && ArityOk(gateType, |ts|, |cs|) {
      ShapedDistinct(gateType, ts, cs, angle);
    }
  }

  /** With the right numbers of qubits, the gates are built, and none of
      them repeats a qubit exactly when the type's qubits are distinct. */
  lemma ShapedDistinct(gateType: GateType, ts: seq<nat>, cs: seq<nat>, angle: Option<real>)
    requires !PerTarget(gateType, angle) && Supported(gateType, angle) && ArityOk(gateType, |ts|, |cs|)
    ensures ShapedGates(gateType, ts, cs, angle).Ok?
    ensures (forall g <- ShapedGates(gateType, ts, cs, angle).value :: Distinct(Acts(g))) <==>
      QubitsDistinct(gateType, ts, cs)
  {
    var gates := ShapedGates(gateType, ts, cs, angle).value;
    if gateType == TypeSwap {
      assert ts == [ts[0], ts[1]] && gates == [Swap(ts[0], ts[1])];
      SingleGateDistinct(gates);
    } else if gateType == TypeCcx {
      assert cs + ts == [cs[0], cs[1], ts[0]] && gates == [Ccx(cs[0], cs[1], ts[0])];
      SingleGateDistinct(gates);
    } else if gateType == TypeCy {
      assert cs + ts == [cs[0], ts[0]];
      assert gates == [Cnot(cs[0], ts[0]), Y(ts[0]), Cnot(cs[0], ts[0])];
      assert (forall g <- gates :: Distinct(Acts(g))) <==> Distinct(Acts(gates[0]));
    } else {
      assert cs + ts == [cs[0], ts[0]];
      assert |gates| == 1 && Acts(gates[0]) == cs + ts;
      SingleGateDistinct(gates);
    }
  }

  lemma SingleGateDistinct(gates: seq<Gate>)
    requires |gates| == 1
    ensures (forall g <- gates :: Distinct(Acts(g))) <==> Distinct(Acts(gates[0]))
  {
    assert gates[0] in gates;
  }

  /** Once the qubits are resolved, the qubit error cannot occur. */
  lemma EmitNotInvalid(gateType: GateType, angle: Option<real>, ts: seq<nat>, cs: seq<nat>)
    ensures Emit(gateType, angle, ts, cs) != Err(InvalidQubits)
  {
  }

  /** The outcome of one operation: a name missing from the layout fails
      first, whatever the gate; then the gate type decides, then the
      numbers of targets and controls, then whether a gate names one qubit
      twice. */
  lemma CompileOperationOutcome(layout: seq<string>, op: Operation)
    ensures var controls := ControlNames(op.control);
      var r := CompileOperation(QubitMap(layout), op);
      (r == Err(InvalidQubits) <==> exists name <- op.targets + controls :: name !in layout) &&
      ((forall name <- op.targets + controls :: name in layout) ==>
        (r == Err(UnsupportedGate(op.gateType)) <==> !Supported(op.gateType, op.angle)) &&
        (r == Err(ArityMismatch(op.gateType)) <==>
          Supported(op.gateType, op.angle) && !ArityOk(op.gateType, |op.targets|, |controls|)) &&
        (r == Err(DuplicateQubits(op.gateType)) <==>
          Supported(op.gateType, op.angle) && ArityOk(op.gateType, |op.targets|, |controls|) &&
          !QubitsDistinct(op.gateType, op.targets, controls)) &&
        (r.Ok? <==>
          Supported(op.gateType, op.angle) && ArityOk(op.gateType, |op.targets|, |controls|) &&
          QubitsDistinct(op.gateType, op.targets, controls)))
  {
    var qubits := QubitMap(layout);
    var controls := ControlNames(op.control);
    var names := op.targets + controls;
    assert forall name <- names :: name in op.targets || name in controls;
    assert forall name <- op.targets :: name in names;
    assert forall name <- controls :: name in names;
    if forall name <- names :: name in layout {
      var ts, cs := Resolve(qubits, op.targets).value, Resolve(qubits, controls).value;
      EmitOutcome(op.gateType, op.angle, ts, cs);
      QubitsDistinctResolved(layout, op.gateType, op.targets, controls);
    }
  }

  /** Whether a gate's qubits repeat is decided on its names. */
  lemma QubitsDistinctResolved(layout: seq<string>, gateType: GateType, targets: seq<string>, controls: seq<string>)
    requires Resolve(QubitMap(layout), targets).Some? && Resolve(QubitMap(layout), controls).Some?
    ensures QubitsDistinct(gateType, Resolve(QubitMap(layout), targets).value,
                           Resolve(QubitMap(layout), controls).value) <==>
      QubitsDistinct(gateType, targets, controls)
  {
    var ts, cs := Resolve(QubitMap(layout), targets).value, Resolve(QubitMap(layout), controls).value;
    DistinctResolved(layout, targets, ts);
    DistinctResolved(layout, controls + targets, cs + ts);
  }

  /** Resolving names through the layout keeps them apart exactly when
      they were apart: different names never share a qubit. */
  lemma DistinctResolved(layout: seq<string>, names: seq<string>, qs: seq<nat>)
    requires |qs| == |names|
    requires forall i :: 0 <= i < |names| ==>
      names[i] in QubitMap(layout) && qs[i] == QubitMap(layout)[names[i]]
    ensures Distinct(names) <==> Distinct(qs)
  {
    forall i, j | 0 <= i < j < |names| && qs[i] == qs[j]
      ensures names[i] == names[j]
    {
      QubitMapInjective(layout, names[i], names[j]);
    }
  }

  /** `H`, `X`, `Y`, `Z` and `MEASURE` emit one gate per target, on the
      targets' qubits, in target order. */
  lemma OnePerTarget(qubits: map<string, nat>, op: Operation)
    requires op.gateType in {TypeH, TypeX, TypeY, TypeZ, TypeMeasure}
    requires forall name <- op.targets :: name in qubits
    requires forall name <- ControlNames(op.control) :: name in qubits
    ensures var r := CompileOperation(qubits, op);
      r.Ok? && |r.value| == |op.targets| &&
      forall i :: 0 <= i < |op.targets| ==>
        op.targets[i] in qubits &&
        Acts(r.value[i]) == [qubits[op.targets[i]]] &&
        (op.gateType == TypeH <==> r.value[i].H?) &&
        (op.gateType == TypeMeasure <==> r.value[i].Measure?)
  {
    var (ts, cs) := ResolveOperation(qubits, op).value;
    assert CompileOperation(qubits, op) == Ok(OnEach(op.gateType, op.angle, ts));
  }

  /** `CY` becomes `CNOT`, `Y`, `CNOT`; `CRZ` becomes a controlled `Z`
      whatever its angle; either fails when control and target coincide. */
  lemma ControlledExpansions(qubits: map<string, nat>, op: Operation, c: string, t: string)
    requires op.gateType in {TypeCy, TypeCrz} && op.targets == [t] && op.control == Some(c)
    requires ',' !in c && c != "" && c in qubits && t in qubits
    ensures var qc, qt := qubits[c], qubits[t];
      CompileOperation(qubits, op) ==
        if qc == qt then Err(DuplicateQubits(op.gateType))
        else if op.gateType == TypeCy then Ok([Cnot(qc, qt), Y(qt), Cnot(qc, qt)])
        else Ok([ControlledZ(qc, qt)])
  {
    SplitPiece(c, ',');
    var qc, qt := qubits[c], qubits[t];
    assert ControlNames(op.control) == [c];
    ResolveSingle(qubits, t);
    ResolveSingle(qubits, c);
    assert CompileOperation(qubits, op) == MultiQubitGate(op.gateType, [qt], [qc], op.angle);
    ShapedDistinct(op.gateType, [qt], [qc], op.angle);
    assert [qc] + [qt] == [qc, qt];
    DistinctPair(qc, qt);
  }

  /** `CNOT` with `q0` as both control and target is refused, and so is a
      layout without qubits even when there is nothing else to do. */
  lemma RefusedCircuits()
    ensures Circuit(["q0", "q1"], [Operation(TypeCnot, ["q0"], Some("q0"), None)]) ==
      Err(DuplicateQubits(TypeCnot))
    ensures Circuit([], []) == Err(NoQubitsToMeasure)
  {
    var layout := ["q0", "q1"];
    var op := Operation(TypeCnot, ["q0"], Some("q0"), None);
    QubitMapIndex(layout, 0);
    ControlledCnot(QubitMap(layout), op, "q0", "q0");
    assert CompileAll(QubitMap(layout), [op]) == [Err(DuplicateQubits(TypeCnot))];
  }

  /** `CNOT` with one control and one target. */
  lemma ControlledCnot(qubits: map<string, nat>, op: Operation, c: string, t: string)
    requires op.gateType == TypeCnot && op.targets == [t] && op.control == Some(c)
    requires ',' !in c && c != "" && c in qubits && t in qubits
    ensures var qc, qt := qubits[c], qubits[t];
      CompileOperation(qubits, op) ==
        if qc == qt then Err(DuplicateQubits(TypeCnot)) else Ok([Cnot(qc, qt)])
  {
    SplitPiece(c, ',');
    var qc, qt := qubits[c], qubits[t];
    assert ControlNames(op.control) == [c];
    ResolveSingle(qubits, t);
    ResolveSingle(qubits, c);
    assert CompileOperation(qubits, op) == MultiQubitGate(op.gateType, [qt], [qc], op.angle);
    ShapedDistinct(op.gateType, [qt], [qc], op.angle);
    assert [qc] + [qt] == [qc, qt];
    DistinctPair(qc, qt);
  }

  lemma DistinctPair<T>(a: T, b: T)
    ensures Distinct([a, b]) <==> a != b
  {
    var pair := [a, b];
    assert pair[0] == a && pair[1] == b;
  }

  lemma ResolveSingle(qubits: map<string, nat>, name: string)
    requires name in qubits
    ensures Resolve(qubits, [name]) == Some([qubits[name]])
  {
    var names := [name];
    assert names[..0] == [] && names[0] == name;
    assert Resolve(qubits, names[..0]) == Some([]);
    assert [] + [qubits[name]] == [qubits[name]];
  }

  /** A rotation with an absent or zero angle is an unsupported gate. */
  lemma FalsyRotation(qubits: map<string, nat>, op: Operation)
    requires op.gateType in {TypeRx, TypeRy, TypeRz, TypeCrx, TypeCry} && !Truthy(op.angle)
    requires forall name <- op.targets :: name in qubits
    requires forall name <- ControlNames(op.control) :: name in qubits
    ensures CompileOperation(qubits, op) == Err(UnsupportedGate(op.gateType))
  {
    var (ts, cs) := ResolveOperation(qubits, op).value;
    EmitOutcome(op.gateType, op.angle, ts, cs);
  }

  /** Every gate of a compiled operation acts on layout qubits only. */
  lemma OperationInLayout(layout: seq<string>, op: Operation)
    requires CompileOperation(QubitMap(layout), op).Ok?
    ensures forall g <- CompileOperation(QubitMap(layout), op).value, q <- Acts(g) :: q < |layout|
  {
    var (ts, cs) := ResolveOperation(QubitMap(layout), op).value;
    ResolveInLayout(layout, op.targets);
    ResolveInLayout(layout, ControlNames(op.control));
    EmitInRange(op.gateType, op.angle, ts, cs, |layout|);
  }

  /** Gates on qubits below `n` stay below `n`. */
  lemma EmitInRange(gateType: GateType, angle: Option<real>, ts: seq<nat>, cs: seq<nat>, n: nat)
    requires Emit(gateType, angle, ts, cs).Ok?
    requires (forall q <- ts :: q < n) && (forall q <- cs :: q < n)
    ensures forall g <- Emit(gateType, angle, ts, cs).value, q <- Acts(g) :: q < n
  {
    if PerTarget(gateType, angle) {
      var gates := OnEach(gateType, angle, ts);
      forall g <- gates, q <- Acts(g)
        ensures q < n
      {
        var i :| 0 <= i < |gates| && gates[i] == g;
        assert Acts(g) == [ts[i]] && ts[i] in ts;
      }
    } else {
      forall i | 0 <= i < |ts|
        ensures ts[i] < n
      {
        assert ts[i] in ts;
      }
      forall i | 0 <= i < |cs|
        ensures cs[i] < n
      {
        assert cs[i] in cs;
      }
    }
  }

  // ---------------------------------------------------------------------
  // The whole circuit
  // ---------------------------------------------------------------------

  /** The gates of a list of per-operation results in order, or the first
      error among them. */
  function Sequence(results: seq<Result<seq<Gate>, CompileError>>): Result<seq<Gate>, CompileError>
    decreases |results|
  {
    if |results| == 0 then Ok([])
    else
      match Sequence(results[..|results| - 1])
      case Err(e) => Err(e)
      case Ok(gates) =>
        match results[|results| - 1]
        case Err(e) => Err(e)
        case Ok(more) => Ok(gates + more)
  }

  /** The result of every operation on its own, in order. */
  function CompileAll(qubits: map<string, nat>, ops: seq<Operation>): (results: seq<Result<seq<Gate>, CompileError>>)
    ensures |results| == |ops|
    decreases |ops|
  {
    if |ops| == 0 then []
    else CompileAll(qubits, ops[..|ops| - 1]) + [CompileOperation(qubits, ops[|ops| - 1])]
  }

  /** The `i`-th result is the `i`-th operation's. */
  lemma {:induction false} CompileAllAt(qubits: map<string, nat>, ops: seq<Operation>, i: nat)
    requires i < |ops|
    ensures CompileAll(qubits, ops)[i] == CompileOperation(qubits, ops[i])
    decreases |ops|
  {
    if i < |ops| - 1 {
      CompileAllAt(qubits, ops[..|ops| - 1], i);
    }
  }

  /** What `create_circuit_from_json` returns: the operations' gates and
      one final measurement of all qubits keyed `"result"`. The library
      refuses a measurement of no qubits, so an empty layout fails there. */
  function Circuit(layout: seq<string>, ops: seq<Operation>): Result<seq<Gate>, CompileError>
  {
    match Sequence(CompileAll(QubitMap(layout), ops))
    case Err(e) => Err(e)
    case Ok(gates) =>
      if |layout| == 0 then Err(NoQubitsToMeasure)
      else Ok(gates + [MeasureAll(AllQubits(|layout|), "result")])
  }

  /** The sequence fails exactly when some result is an error, and then
      with the first error. */
  lemma {:induction false} FirstError(results: seq<Result<seq<Gate>, CompileError>>)
    ensures Sequence(results).Err? <==> exists i :: 0 <= i < |results| && results[i].Err?
    ensures Sequence(results).Err? ==>
      exists i :: 0 <= i < |results| && results[i] == Sequence(results) &&
        forall j :: 0 <= j < i ==> results[j].Ok?
    decreases |results|
  {
    if |results| > 0 {
      var init := results[..|results| - 1];
      FirstError(init);
      assert forall i :: 0 <= i < |init| ==> init[i] == results[i];
    }
  }

  /** The circuit fails exactly when one of its operations fails or the
      layout is empty. A failing operation's error is the first one's, no
      gate of an operation after it mattering; with every operation
      compiled, the error is the empty measurement. */
  lemma CircuitError(layout: seq<string>, ops: seq<Operation>)
    ensures Circuit(layout, ops).Err? <==>
      (exists i :: 0 <= i < |ops| && CompileOperation(QubitMap(layout), ops[i]).Err?) || |layout| == 0
    ensures (exists i :: 0 <= i < |ops| && CompileOperation(QubitMap(layout), ops[i]).Err?) ==>
      Circuit(layout, ops).Err? &&
      exists i :: 0 <= i < |ops| && Err(Circuit(layout, ops).error) == CompileOperation(QubitMap(layout), ops[i]) &&
        forall j :: 0 <= j < i ==> CompileOperation(QubitMap(layout), ops[j]).Ok?
    ensures (forall i :: 0 <= i < |ops| ==> CompileOperation(QubitMap(layout), ops[i]).Ok?) && |layout| == 0 ==>
      Circuit(layout, ops) == Err(NoQubitsToMeasure)
  {
    var qubits := QubitMap(layout);
    var rs := CompileAll(qubits, ops);
    FirstError(rs);
    forall i | 0 <= i < |ops|
      ensures rs[i] == CompileOperation(qubits, ops[i])
    {
      CompileAllAt(qubits, ops, i);
    }
  }

  /** The circuit ends with the measurement of every qubit in layout order,
      and no gate touches a qubit outside the layout. */
  lemma CircuitShape(layout: seq<string>, ops: seq<Operation>)
    requires Circuit(layout, ops).Ok?
    ensures |layout| >= 1
    ensures var gates := Circuit(layout, ops).value;
      |gates| >= 1 && gates[|gates| - 1] == MeasureAll(AllQubits(|layout|), "result") &&
      forall g <- gates, q <- Acts(g) :: q < |layout|
  {
    var qubits := QubitMap(layout);
    var rs := CompileAll(qubits, ops);
    forall i | 0 <= i < |rs| && rs[i].Ok?
      ensures forall g <- rs[i].value, q <- Acts(g) :: q < |layout|
    {
      CompileAllAt(qubits, ops, i);
      OperationInLayout(layout, ops[i]);
    }
    SequenceInLayout(rs, |layout|);
  }

  lemma {:induction false} SequenceInLayout(results: seq<Result<seq<Gate>, CompileError>>, n: nat)
    requires Sequence(results).Ok?
    requires forall i :: 0 <= i < |results| && results[i].Ok? ==>
      forall g <- results[i].value, q <- Acts(g) :: q < n
    ensures forall g <- Sequence(results).value, q <- Acts(g) :: q < n
    decreases |results|
  {
    if |results| > 0 {
      SequenceInLayout(results[..|results| - 1], n);
    }
  }

  /** One more result: its gates are appended, or its error is the
      sequence's. */
  lemma SequenceStep(results: seq<Result<seq<Gate>, CompileError>>, i: nat, gates: seq<Gate>)
    requires i < |results| && Sequence(results[..i]) == Ok(gates)
    ensures Sequence(results[..i + 1]) ==
      match results[i]
      case Err(e) => Err(e)
      case Ok(more) => Ok(gates + more)
  {
    assert results[..i + 1][..i] == results[..i];
  }

  /** Once the results so far hold an error, the whole sequence fails the
      same way. */
  lemma {:induction false} ErrorPersists(results: seq<Result<seq<Gate>, CompileError>>, i: nat, e: CompileError)
    requires i <= |results| && Sequence(results[..i]) == Err(e)
    ensures Sequence(results) == Err(e)
    decreases |results| - i
  {
    if i < |results| {
      assert results[..i + 1][..i] == results[..i];
      ErrorPersists(results, i + 1, e);
    } else {
      assert results[..i] == results;
    }
  }

  /** One operation of the loop: resolve the qubit names, then append the
      operation's gates to `circuit` (the per-target gates one target at a
      time), or fail. */
  method AppendOperation(qubits: map<string, nat>, op: Operation, circuit: seq<Gate>)
    returns (r: Result<seq<Gate>, CompileError>)
    ensures r == match CompileOperation(qubits, op)
                 case Err(e) => Err(e)
                 case Ok(gates) => Ok(circuit + gates)
  {
    var targetQubits := Resolve(qubits, op.targets);
    var controlQubits := Resolve(qubits, ControlNames(op.control));
    if targetQubits.None? || controlQubits.None? {
      return Err(InvalidQubits);
    }
    var ts := targetQubits.value;
    if PerTarget(op.gateType, op.angle) {
      var out := AppendOnEach(op.gateType, op.angle, ts, circuit);
      return Ok(out);
    }
    var gates := MultiQubitGate(op.gateType, ts, controlQubits.value, op.angle);
    if gates.Err? {
      return Err(gates.error);
    }
    return Ok(circuit + gates.value);
  }

  /** The per-target loop: one gate of the type on each target, in order. */
  method AppendOnEach(gateType: GateType, angle: Option<real>, ts: seq<nat>, circuit: seq<Gate>)
    returns (out: seq<Gate>)
    requires PerTarget(gateType, angle)
    ensures out == circuit + OnEach(gateType, angle, ts)
  {
    out := circuit;
    for j := 0 to |ts|
      invariant out == circuit + OnEach(gateType, angle, ts[..j])
    {
      OnEachStep(gateType, angle, ts, j, circuit, out);
      out := out + [TargetGate(gateType, angle, ts[j])];
    }
    assert ts[..|ts|] == ts;
  }

  /** Appending the gate on target `j` extends the per-target gates of the
      first `j` targets to the first `j + 1`. */
  lemma OnEachStep(gateType: GateType, angle: Option<real>, ts: seq<nat>, j: nat,
                   circuit: seq<Gate>, out: seq<Gate>)
    requires PerTarget(gateType, angle) && j < |ts|
    requires out == circuit + OnEach(gateType, angle, ts[..j])
    ensures out + [TargetGate(gateType, angle, ts[j])] == circuit + OnEach(gateType, angle, ts[..j + 1])
  {
    var g := TargetGate(gateType, angle, ts[j]);
    var prefix, longer := ts[..j], ts[..j + 1];
    assert longer[..j] == prefix && longer[j] == ts[j];
    var before := OnEach(gateType, angle, prefix);
    assert OnEach(gateType, angle, longer) == before + [g];
    assert (circuit + before) + [g] == circuit + (before + [g]);
  }

  /** `create_circuit_from_json`: number the layout's qubits, walk the
      operations appending each one's gates, and finish with the
      measurement of every qubit. */
  method CreateCircuitFromJson(layout: seq<string>, operations: seq<Operation>)
    returns (r: Result<seq<Gate>, CompileError>)
    ensures r == Circuit(layout, operations)
  {
    var qubits := QubitMap(layout);
    ghost var results := CompileAll(qubits, operations);
    var circuit: seq<Gate> := [];
    var i := 0;
    while i < |operations|
      invariant 0 <= i <= |operations|
      invariant Sequence(results[..i]) == Ok(circuit)
      decreases |operations| - i
    {
      CompileAllAt(qubits, operations, i);
      SequenceStep(results, i, circuit);
      var next := AppendOperation(qubits, operations[i], circuit);
      if next.Err? {
        ErrorPersists(results, i + 1, next.error);
        return Err(next.error);
      }
      circuit := next.value;
      i := i + 1;
    }
    assert results[..i] == results;
    if |layout| == 0 {
      return Err(NoQubitsToMeasure);
    }
    return Ok(circuit + [MeasureAll(AllQubits(|layout|), "result")]);
  }
}
