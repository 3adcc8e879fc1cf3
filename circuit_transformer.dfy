/** `transformCircuit`: the front end's gates, placed on a grid by the user,
    become the JSON circuit description that `create_circuit_from_json`
    reads. Qubit `i` is named `q<i>` in the layout, in the targets and in
    the comma-separated control field. */
module CircuitTransformer {
  import opened Wrappers
  import opened CircuitCompiler

  // ---------------------------------------------------------------------
  // Qubit names
  // ---------------------------------------------------------------------

  /** The decimal digit `d`. */
  function DigitChar(d: nat): (c: char)
    requires d < 10
    ensures '0' <= c <= '9'
  {
    ('0' as int + d) as char
  }

  /** The decimal numeral of `n`, as a template literal prints it. */
  function NatString(n: nat): (s: string)
    ensures |s| >= 1 && forall c <- s :: '0' <= c <= '9'
    ensures n >= 10 ==> |s| >= 2
    decreases n
  {
    if n < 10 then [DigitChar(n)] else NatString(n / 10) + [DigitChar(n % 10)]
  }

  /** `${i}` for an integer `i`: a minus sign before a negative number. */
  function IntString(i: int): (s: string)
    ensures |s| >= 1 && (s[0] == '-' <==> i < 0)
  {
    if i < 0 then "-" + NatString(-i)
    else
      var s := NatString(i);
      assert s[0] in s;
      s
  }

  /** `q${i}`: the name of qubit `i`. */
  function QubitName(i: int): (name: string)
    ensures |name| >= 2 && name[0] == 'q' && ',' !in name
  {
    "q" + IntString(i)
  }

  /** Different numbers have different numerals. */
  lemma {:induction false} NatStringInjective(a: nat, b: nat)
    requires NatString(a) == NatString(b)
    ensures a == b
    decreases a
  {
    if a >= 10 && b >= 10 {
      var sa, sb := NatString(a), NatString(b);
      assert sa[..|sa| - 1] == NatString(a / 10);
      assert sb[..|sb| - 1] == NatString(b / 10);
      assert DigitChar(a % 10) == sa[|sa| - 1] == DigitChar(b % 10);
      NatStringInjective(a / 10, b / 10);
    }
  }

  /** Different qubits have different names. */
  lemma QubitNameInjective(i: int, j: int)
    requires QubitName(i) == QubitName(j)
    ensures i == j
  {
    var si, sj := IntString(i), IntString(j);
    assert si == QubitName(i)[1..] == QubitName(j)[1..] == sj;
    if i < 0 {
      assert NatString(-i) == si[1..] == sj[1..] == NatString(-j);
      NatStringInjective(-i, -j);
    } else {
      NatStringInjective(i, j);
    }
  }

  // ---------------------------------------------------------------------
  // The layout
  // ---------------------------------------------------------------------

  /** `circuit.layout`: its `type`, its `dimensions`, and the `qubits`
      object, whose keys are kept in insertion order and each mapped to its
      `position`. */
  datatype CircuitLayout = CircuitLayout(kind: string, dimensions: seq<int>,
                                         keys: seq<string>, positions: map<string, seq<int>>)

  /** The qubit names `q0`, ..., `q<n-1>`, in order. */
  function LayoutKeys(n: nat): (keys: seq<string>)
    ensures |keys| == n && forall i :: 0 <= i < n ==> keys[i] == QubitName(i)
  {
    seq(n, i requires 0 <= i < n => QubitName(i))
  }

  /** The layout names are distinct, as the keys of an object are. */
  lemma LayoutKeysDistinct(n: nat)
    ensures Distinct(LayoutKeys(n))
  {
    var keys := LayoutKeys(n);
    forall i, j | 0 <= i < j < n
      ensures keys[i] != keys[j]
    {
      if keys[i] == keys[j] {
        QubitNameInjective(i, j);
      }
    }
  }

  /** The layout object after the first `i` rounds of the loop. */
  ghost predicate LayoutSoFar(i: nat, keys: seq<string>, positions: map<string, seq<int>>)
  {
    keys == LayoutKeys(i) &&
    (forall name :: name in positions <==> name in keys) &&
    forall j :: 0 <= j < i ==> positions[keys[j]] == [j]
  }

  /** One round adds a name the object does not have yet. */
  lemma LayoutStep(i: nat, keys: seq<string>, positions: map<string, seq<int>>)
    requires LayoutSoFar(i, keys, positions)
    ensures QubitName(i) !in positions
    ensures LayoutSoFar(i + 1, keys + [QubitName(i)], positions[QubitName(i) := [i]])
  {
    var name := QubitName(i);
    if name in positions {
      var j :| 0 <= j < |keys| && keys[j] == name;
      QubitNameInjective(i, j);
    }
    var keys', positions' := keys + [name], positions[name := [i]];
    forall j | 0 <= j < i + 1
      ensures positions'[keys'[j]] == [j]
    {
      if j < i && keys[j] == name {
        QubitNameInjective(i, j);
      }
    }
  }

  /** The layout loop: `qubitLayout[q${i}] = { position: [i] }` for every
      `i` below `qubits`. An assignment to a key the object already has
      would keep the key's place; none happens, since the names differ. */
  method BuildLayout(qubits: int) returns (layout: CircuitLayout)
    ensures layout.kind == "linear" && layout.dimensions == [qubits]
    ensures layout.keys == LayoutKeys(if qubits < 0 then 0 else qubits)
    ensures LayoutSoFar(|layout.keys|, layout.keys, layout.positions)
  {
    var keys: seq<string> := [];
    var positions: map<string, seq<int>> := map[];
    var i := 0;
    while i < qubits
      invariant 0 <= i <= (if qubits < 0 then 0 else qubits)
      invariant LayoutSoFar(i, keys, positions)
      decreases qubits - i
    {
      var name := QubitName(i);
      LayoutStep(i, keys, positions);
      assert name !in positions;
      keys := keys + [name];
      positions := positions[name := [i]];
      i := i + 1;
    }
    return CircuitLayout("linear", [qubits], keys, positions);
  }

  // ---------------------------------------------------------------------
  // Operations
  // ---------------------------------------------------------------------

  /** A gate placed in the editor. `type` and `targets` may be missing at
      run time (`None`, or the empty string for the type); `controls` and
      the angle in `params` are optional. */
  datatype UiGate = UiGate(gateType: Option<string>, targets: Option<seq<int>>,
                           controls: Option<seq<int>>, step: int, angle: Option<real>)

  /** An entry of `circuit.operations`. */
  datatype JsonOperation = JsonOperation(opType: string, targets: seq<string>,
                                         control: Option<string>, angle: Option<real>)

  /** `toUpperCase` on one character: the ASCII letters. */
  function UpperChar(c: char): char
  {
    if 'a' <= c <= 'z' then (c as int - 32) as char else c
  }

  /** `s.toUpperCase()`, character by character. */
  function Upper(s: string): (r: string)
    ensures |r| == |s| && forall i :: 0 <= i < |s| ==> r[i] == UpperChar(s[i])
  {
    seq(|s|, i requires 0 <= i < |s| => UpperChar(s[i]))
  }

  /** `xs.map(x => q${x})`. */
  function Names(qs: seq<int>): (names: seq<string>)
    ensures |names| == |qs| && forall i :: 0 <= i < |qs| ==> names[i] == QubitName(qs[i])
  {
    seq(|qs|, i requires 0 <= i < |qs| => QubitName(qs[i]))
  }

  /** The guard `!gate.targets || !gate.type`, negated: the gate is kept.
      An empty `targets` array is truthy and keeps the gate. */
  predicate Kept(g: UiGate)
  {
    g.targets.Some? && g.gateType.Some? && g.gateType.value != ""
  }

  /** The callback of `circuit.map`: `null` for a dropped gate, otherwise the
      operation, its `control` and `angle` set only when present. */
  function TransformGate(g: UiGate): (op: Option<JsonOperation>)
  {
    if !Kept(g) then None
    else
      var control :=
        if g.controls.Some? && |g.controls.value| > 0 then Some(Join(Names(g.controls.value), ','))
        else None;
      Some(JsonOperation(Upper(g.gateType.value), Names(g.targets.value), control, g.angle))
  }

  /** `circuit.map(...).filter(op => op !== null)`: the operations of the
      kept gates, in order. */
  function TransformOperations(gates: seq<UiGate>): (ops: seq<JsonOperation>)
    decreases |gates|
  {
    if |gates| == 0 then []
    else
      var init := TransformOperations(gates[..|gates| - 1]);
      match TransformGate(gates[|gates| - 1])
      case None => init
      case Some(op) => init + [op]
  }

  /** The gates that survive the filter, in order. */
  function KeptGates(gates: seq<UiGate>): (kept: seq<UiGate>)
    ensures forall g <- kept :: Kept(g) && g in gates
    decreases |gates|
  {
    if |gates| == 0 then []
    else
      var init := KeptGates(gates[..|gates| - 1]);
      var last := gates[|gates| - 1];
      if Kept(last) then init + [last] else init
  }

  /** Filtering distributes over concatenation: the gates kept from `a + b`
      are those kept from `a`, then those kept from `b`. With
      `KeptGatesSingle` this determines the filter completely: order is
      preserved and nothing is reordered or invented. */
  lemma {:induction false} KeptGatesAppend(a: seq<UiGate>, b: seq<UiGate>)
    ensures KeptGates(a + b) == KeptGates(a) + KeptGates(b)
    decreases |b|
  {
    if |b| == 0 {
      assert a + b == a;
    } else {
      var init := b[..|b| - 1];
      KeptGatesAppend(a, init);
      var ab := a + b;
      assert ab[..|ab| - 1] == a + init && ab[|ab| - 1] == b[|b| - 1];
    }
  }

  /** A single gate is kept exactly when it passes the guard. */
  lemma KeptGatesSingle(g: UiGate)
    ensures KeptGates([g]) == if Kept(g) then [g] else []
  {
    var gates := [g];
    assert gates[..0] == [];
  }

  /** Every gate that passes the guard survives the filter. */
  lemma {:induction false} KeptGatesComplete(gates: seq<UiGate>)
    ensures forall g <- gates :: Kept(g) ==> g in KeptGates(gates)
    decreases |gates|
  {
    if |gates| > 0 {
      var init, last := gates[..|gates| - 1], gates[|gates| - 1];
      KeptGatesComplete(init);
      assert forall g <- gates :: g in init || g == last;
    }
  }

  /** The operations are those of the kept gates, one each and in the same
      order; there are never more operations than gates, and as many
      exactly when no gate is dropped. */
  lemma {:induction false} TransformOperationsKept(gates: seq<UiGate>)
    ensures var ops, kept := TransformOperations(gates), KeptGates(gates);
      |ops| == |kept| &&
      (forall i :: 0 <= i < |kept| ==> Some(ops[i]) == TransformGate(kept[i])) &&
      |ops| <= |gates| &&
      (|ops| == |gates| <==> forall g <- gates :: Kept(g))
  {
    OperationsMatchKept(gates);
    KeptGatesCount(gates);
  }

  /** One operation per kept gate, position by position. */
  lemma {:induction false} OperationsMatchKept(gates: seq<UiGate>)
    ensures var ops, kept := TransformOperations(gates), KeptGates(gates);
      |ops| == |kept| && forall i :: 0 <= i < |kept| ==> Some(ops[i]) == TransformGate(kept[i])
    decreases |gates|
  {
    if |gates| > 0 {
      var init, last := gates[..|gates| - 1], gates[|gates| - 1];
      OperationsMatchKept(init);
      var ops, kept := TransformOperations(init), KeptGates(init);
      if Kept(last) {
        assert TransformOperations(gates) == ops + [TransformGate(last).value];
        assert KeptGates(gates) == kept + [last];
      } else {
        assert TransformOperations(gates) == ops;
        assert KeptGates(gates) == kept;
      }
    }
  }

  /** No more kept gates than gates, and as many exactly when none is
      dropped. */
  lemma {:induction false} KeptGatesCount(gates: seq<UiGate>)
    ensures |KeptGates(gates)| <= |gates|
    ensures |KeptGates(gates)| == |gates| <==> forall g <- gates :: Kept(g)
    decreases |gates|
  {
    if |gates| > 0 {
      var init, last := gates[..|gates| - 1], gates[|gates| - 1];
      KeptGatesCount(init);
      assert forall g <- gates :: g in init || g == last;
      assert forall g <- init :: g in gates;
    }
  }

  /** A kept gate's operation: its type upper-cased, its targets named in
      order, a `control` exactly when there are controls, and an angle
      exactly when one is given. The control field splits back into the
      controls' names. */
  lemma TransformGateFields(g: UiGate)
    requires Kept(g)
    ensures var op := TransformGate(g).value;
      op.opType == Upper(g.gateType.value) &&
      op.targets == Names(g.targets.value) &&
      (op.control.Some? <==> g.controls.Some? && |g.controls.value| > 0) &&
      (op.control.Some? ==> Split(op.control.value, ',') == Names(g.controls.value)) &&
      op.angle == g.angle
  {
    if g.controls.Some? && |g.controls.value| > 0 {
      var names := Names(g.controls.value);
      assert forall name <- names :: ',' !in name;
      SplitJoin(names, ',');
    }
  }

  /** The object `transformCircuit` returns, without its fixed metadata. */
  datatype CircuitData = CircuitData(layout: CircuitLayout, operations: seq<JsonOperation>)

  /** `transformCircuit(circuit, qubits)`. */
  method TransformCircuit(circuit: seq<UiGate>, qubits: int) returns (data: CircuitData)
    ensures data.layout.kind == "linear" && data.layout.dimensions == [qubits]
    ensures data.layout.keys == LayoutKeys(if qubits < 0 then 0 else qubits)
    ensures LayoutSoFar(|data.layout.keys|, data.layout.keys, data.layout.positions)
    ensures data.operations == TransformOperations(circuit)
  {
    var layout := BuildLayout(qubits);
    data := CircuitData(layout, TransformOperations(circuit));
  }

  // ---------------------------------------------------------------------
  // What the compiler makes of it
  // ---------------------------------------------------------------------

  /** The compiler's reading of a JSON operation. */
  function ToCompiler(op: JsonOperation): Operation
  {
    Operation(ParseGateType(op.opType), op.targets, op.control, op.angle)
  }

  /** The gates the editor offers. */
  const UiGateTypes: seq<string> :=
    ["h", "x", "cnot", "rz", "rx", "ry", "swap", "ccx", "cz", "cy", "crz", "measure"]

  /** Every gate type the editor offers is, upper-cased, a type the
      compiler knows. */
  lemma UiGateTypesKnown()
    ensures forall t <- UiGateTypes :: Upper(t) in KnownNames
  {
    assert Upper("h") == "H";
    assert Upper("x") == "X";
    assert Upper("cnot") == "CNOT";
    assert Upper("rz") == "RZ";
    assert Upper("rx") == "RX";
    assert Upper("ry") == "RY";
    assert Upper("swap") == "SWAP";
    assert Upper("ccx") == "CCX";
    assert Upper("cz") == "CZ";
    assert Upper("cy") == "CY";
    assert Upper("crz") == "CRZ";
    assert Upper("measure") == "MEASURE";
  }

  /** A kept gate on qubits below `n` compiles, against the layout of `n`
      qubits, with its targets and controls resolved back to their own
      indices: the qubit check of the compiler never fails on it. */
  lemma TransformedQubitsResolve(g: UiGate, n: nat)
    requires Kept(g)
    requires forall t <- g.targets.value :: 0 <= t < n
    requires g.controls.Some? ==> forall c <- g.controls.value :: 0 <= c < n
    ensures var op := ToCompiler(TransformGate(g).value);
      var qubits := QubitMap(LayoutKeys(n));
      var controls := if g.controls.Some? then g.controls.value else [];
      Resolve(qubits, op.targets) == Some(g.targets.value) &&
      Resolve(qubits, ControlNames(op.control)) == Some(controls) &&
      CompileOperation(qubits, op) != Err(InvalidQubits)
  {
    var qubits := QubitMap(LayoutKeys(n));
    var op := ToCompiler(TransformGate(g).value);
    var controls := if g.controls.Some? then g.controls.value else [];
    assert Resolve(qubits, op.targets) == Some(g.targets.value) by {
      ResolveNames(n, g.targets.value);
    }
    assert Resolve(qubits, ControlNames(op.control)) == Some(controls) by {
      TransformGateFields(g);
      assert ControlNames(op.control) == Names(controls);
      ResolveNames(n, controls);
    }
    EmitNotInvalid(op.gateType, op.angle, g.targets.value, controls);
  }

  /** Names of layout qubits resolve to their own indices. */
  lemma ResolveNames(n: nat, qs: seq<int>)
    requires forall q <- qs :: 0 <= q < n
    ensures Resolve(QubitMap(LayoutKeys(n)), Names(qs)) == Some(qs)
  {
    var keys := LayoutKeys(n);
    var qubits := QubitMap(keys);
    var names := Names(qs);
    LayoutKeysDistinct(n);
    forall i | 0 <= i < |qs|
      ensures names[i] in qubits && qubits[names[i]] == qs[i]
    {
      assert qs[i] in qs;
      QubitMapIndex(keys, qs[i]);
    }
    assert forall name <- names :: name in qubits;
    var r := Resolve(qubits, names);
    assert |r.value| == |qs| && forall i :: 0 <= i < |qs| ==> r.value[i] == qs[i];
    assert r.value == qs;
  }
}
