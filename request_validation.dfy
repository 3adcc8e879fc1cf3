/** `FactorInputSerializer`: the fields a factoring request may carry, their
    types, bounds, choices and defaults. Validation either yields the
    validated data or reports every field that failed. */
module RequestValidation {
  import opened Wrappers

  /** A field value as the parsed request body holds it. */
  datatype Raw = IntValue(i: int) | BoolValue(b: bool) | StrValue(s: string) | Null

  /** The validated data. */
  datatype FactorInput = FactorInput(number: int, useQuantum: bool, shots: int,
                                     noiseModel: string, backend: string)

  const NoiseModels: set<string> := {"ideal", "depolarizing", "bitflip"}
  const Backends: set<string> := {"simulator", "ibm_q", "google_qpu"}

  /** `IntegerField(min_value=lo, max_value=hi)` on a present value. */
  function IntegerField(v: Raw, lo: int, hi: Option<int>): (r: Option<int>)
    ensures r.Some? <==> v.IntValue? && lo <= v.i && (hi.None? || v.i <= hi.value)
    ensures r.Some? ==> r.value == v.i
  {
    if v.IntValue? && lo <= v.i && (hi.None? || v.i <= hi.value) then Some(v.i) else None
  }

  /** `BooleanField` on a present value. */
  function BooleanField(v: Raw): (r: Option<bool>)
    ensures r.Some? <==> v.BoolValue?
    ensures r.Some? ==> r.value == v.b
  {
    if v.BoolValue? then Some(v.b) else None
  }

  /** `ChoiceField(choices)` on a present value. */
  function ChoiceField(v: Raw, choices: set<string>): (r: Option<string>)
    ensures r.Some? <==> v.StrValue? && v.s in choices
    ensures r.Some? ==> r.value == v.s
  {
    if v.StrValue? && v.s in choices then Some(v.s) else None
  }

  /** An optional field: its default when absent, otherwise the field's own
      check. */
  function WithDefault<T>(request: map<string, Raw>, name: string, default: T,
                          check: Raw -> Option<T>): Option<T>
  {
    if name in request then check(request[name]) else Some(default)
  }

  function NumberField(request: map<string, Raw>): Option<int>
  {
    if "number" in request then IntegerField(request["number"], 2, None) else None
  }

  function UseQuantumField(request: map<string, Raw>): Option<bool>
  {
    WithDefault(request, "use_quantum", false, BooleanField)
  }

  function ShotsField(request: map<string, Raw>): Option<int>
  {
    WithDefault(request, "shots", 100, v => IntegerField(v, 1, Some(10000)))
  }

  function NoiseModelField(request: map<string, Raw>): Option<string>
  {
    WithDefault(request, "noise_model", "ideal", v => ChoiceField(v, NoiseModels))
  }

  function BackendField(request: map<string, Raw>): Option<string>
  {
    WithDefault(request, "backend", "simulator", v => ChoiceField(v, Backends))
  }

  /** The names of the fields that fail, as the serializer's `errors` keys. */
  function Errors(request: map<string, Raw>): set<string>
  {
    (if NumberField(request).None? then {"number"} else {}) +
    (if UseQuantumField(request).None? then {"use_quantum"} else {}) +
    (if ShotsField(request).None? then {"shots"} else {}) +
    (if NoiseModelField(request).None? then {"noise_model"} else {}) +
    (if BackendField(request).None? then {"backend"} else {})
  }

  /** `is_valid()` and `validated_data`, or the failing fields. */
  function Validate(request: map<string, Raw>): Result<FactorInput, set<string>>
  {
    var errors := Errors(request);
    if errors == {} then
      Ok(FactorInput(NumberField(request).value, UseQuantumField(request).value,
                     ShotsField(request).value, NoiseModelField(request).value,
                     BackendField(request).value))
    else Err(errors)
  }

  /** The constraints validated data satisfies. */
  predicate ValidInput(x: FactorInput)
  {
    x.number >= 2 && 1 <= x.shots <= 10000 && x.noiseModel in NoiseModels && x.backend in Backends
  }

  /** Validated data meets every constraint and carries the request's own
      values, or the defaults for absent optional fields. */
  lemma ValidateSound(request: map<string, Raw>)
    requires Validate(request).Ok?
    ensures var x := Validate(request).value;
      ValidInput(x) &&
      request["number"] == IntValue(x.number) &&
      x.useQuantum == (if "use_quantum" in request then request["use_quantum"].b else false) &&
      x.shots == (if "shots" in request then request["shots"].i else 100) &&
      x.noiseModel == (if "noise_model" in request then request["noise_model"].s else "ideal") &&
      x.backend == (if "backend" in request then request["backend"].s else "simulator")
  {
    assert Errors(request) == {};
    assert NumberField(request).Some?;
    assert ShotsField(request).Some?;
    assert NoiseModelField(request).Some?;
    assert BackendField(request).Some?;
    assert UseQuantumField(request).Some?;
  }

  /** A request without `number` is rejected, whatever else it holds; one
      with only a valid `number` gets every default. */
  lemma NumberRequired(request: map<string, Raw>, n: int)
    ensures "number" !in request ==> Validate(request).Err? && "number" in Validate(request).error
    ensures n >= 2 ==> Validate(map["number" := IntValue(n)]) == Ok(FactorInput(n, false, 100, "ideal", "simulator"))
  {
    if "number" !in request {
      assert "number" in Errors(request);
    }
    var only := map["number" := IntValue(n)];
    if n >= 2 {
      assert "use_quantum" !in only && "shots" !in only && "noise_model" !in only && "backend" !in only;
      assert Errors(only) == {};
    }
  }

  /** A field value out of range or out of its choices names that field
      among the errors. */
  lemma OutOfRangeRejected(request: map<string, Raw>)
    ensures ("number" in request && request["number"].IntValue? && request["number"].i < 2) ==>
      Validate(request).Err? && "number" in Validate(request).error
    ensures ("shots" in request && request["shots"].IntValue? &&
             (request["shots"].i < 1 || request["shots"].i > 10000)) ==>
      Validate(request).Err? && "shots" in Validate(request).error
    ensures ("noise_model" in request && request["noise_model"].StrValue? &&
             request["noise_model"].s !in NoiseModels) ==>
      Validate(request).Err? && "noise_model" in Validate(request).error
    ensures ("backend" in request && request["backend"].StrValue? &&
             request["backend"].s !in Backends) ==>
      Validate(request).Err? && "backend" in Validate(request).error
  {
  }

  /** The request body that sends every field of `x`. */
  function Request(x: FactorInput): map<string, Raw>
  {
    map["number" := IntValue(x.number), "use_quantum" := BoolValue(x.useQuantum),
        "shots" := IntValue(x.shots), "noise_model" := StrValue(x.noiseModel),
        "backend" := StrValue(x.backend)]
  }

  /** Validation accepts exactly the requests built from data meeting the
      constraints, and gives that data back. */
  lemma ValidateRequest(x: FactorInput)
    ensures Validate(Request(x)).Ok? <==> ValidInput(x)
    ensures ValidInput(x) ==> Validate(Request(x)) == Ok(x)
  {
    var request := Request(x);
    assert request["number"] == IntValue(x.number);
    assert request["use_quantum"] == BoolValue(x.useQuantum);
    assert request["shots"] == IntValue(x.shots);
    assert request["noise_model"] == StrValue(x.noiseModel);
    assert request["backend"] == StrValue(x.backend);
    if Validate(request).Ok? {
      ValidateSound(request);
    }
  }
}
