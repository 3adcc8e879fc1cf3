# SuperPos factoring engine, RSA helpers, circuit compiler and decoder in Dafny

This project models the computational core of SuperPos, a teaching site for quantum computing. Each part below is modelled and verified.

- **Integer-factorisation engine.** It follows Shor's algorithm:
  - the classical order finder;
  - the arithmetic of the modular-exponentiation gate (`ModularExp`) and the sizes of its registers;
  - decoding of a phase-estimation measurement by continued fractions (`Fraction.limit_denominator`), with the order re-checked classically;
  - the prime-power shortcut;
  - the randomised witness search of `find_factor`;
  - the recursive, sorted decomposition of `factor_number`.
- **Textbook RSA helpers.** These are unpadded RSAEP/RSADP (section 5.1 of RFC 8017) over big-endian byte chunks:
  - trial-division primality and factoring;
  - key generation, with the public exponent bumped from 65537 until it is coprime to φ;
  - fixed-width chunked encryption and decryption;
  - decryption after factoring the modulus.

  Correctness of RSA rests on Fermat's little theorem, which is proved here.
- **The JSON-to-gate compiler `create_circuit_from_json`.** It resolves qubit names against the layout, splits comma-separated controls, enforces each gate's arity, rejects unknown gates and rotations with a falsy angle, and ends with a measurement of every qubit. The library's own refusals are modelled as errors too: a multi-qubit gate that names one qubit twice, and a final measurement with no qubits. Gates are an abstract datatype, not cirq objects.
- **The repetition-code decoder of the fault-tolerance demo.** It covers the noisy syndrome rounds, the per-qubit majority vote, the corrected logical bit (with its tie case) and the success flag.
- **The front end's `transformCircuit`.** It maps editor gates to the JSON operations the compiler reads, and builds the linear qubit layout.
- **The field constraints of `FactorInputSerializer`.** They form a validation function.

Randomness is modelled as an oracle `source: nat -> nat` read at an explicit cursor, or as a draw function `nat -> Draw`. Properties are stated for every oracle. Primality is the mathematical predicate `IsPrime`. The quantum measurement is an input.

Modules:

| module | contents |
|---|---|
| `Wrappers` | `Option`, `Result` |
| `Arith` | powers, gcd and extended Euclid, divisibility, primes, `ISqrt`, `BitLength`, `IntRoot`, `FloorLog2`, `ModPow`, `ModInverse` |
| `Bytes` | `int.from_bytes` / `int.to_bytes`, big-endian |
| `ContinuedFractions` | exact fractions and `limit_denominator` |
| `OrderFinding` | orders modulo `n`, `classical_order_finder`, `multiplicative_group` |
| `PhaseEstimation` | `ModularExp`, `make_order_finding_circuit`, `process_measurement`, `quantum_order_finder` |
| `Factoring` | `find_factor_of_prime_power`, `find_factor`, `factor_number` |
| `Fermat` | Fermat's little theorem and RSA correctness |
| `Rsa` | the RSA helpers |
| `CircuitCompiler` | `create_circuit_from_json` |
| `CircuitTransformer` | `transformCircuit` |
| `FaultTolerance` | `process_fault_tolerance` / `run_fault_tolerance` |
| `RequestValidation` | `FactorInputSerializer` |

`SuperPos/Pos/services/quantum.py` and `SuperPos/Pos/views.py` contain the same factoring engine and the same compiler. Each is modelled once. The one behavioural difference, the two-parameter `classical_order_finder` of `views.py`, is the order-finder variant `Factoring.ClassicalTwoParameter` (see Findings).

Where the code and its documentation disagree, the model follows the code:
- `factor_number` silently drops a sub-factorisation that returns an error dict (`"factors" in subfactors`). So the returned factors need not multiply to `n`. `Factoring.FactorNumber` proves that their product divides `n`, that it equals `n` exactly when no part was lost, and that nothing can be lost when every proper divisor of `n` is prime (a product of two primes).
- `generate_prime`'s docstring promises "the specified bit length". The code only guarantees an odd prime below `2^bits`, and the model states that.

## Model

| member | source | states |
|---|---|---|
| Arith.ModPow | SuperPos/Pos/services/crypto.py:52 | `pow(b, e, n)` is below `n` |
| Arith.ModPowIsPow | SuperPos/Pos/services/crypto.py:52 | modular exponentiation by repeated reduction equals `b^e mod n` |
| Arith.ISqrt | SuperPos/Pos/services/crypto.py:11 | the integer square root bound of the trial-division range: `r*r <= n < (r+1)*(r+1)` |
| Arith.BitLength | SuperPos/Pos/services/crypto.py:46 | `int.bit_length`: `n < 2^l`, `2^(l-1) <= n` for `n > 0`, and `l == 0` exactly for `n == 0` |
| Arith.IntRoot | SuperPos/Pos/services/quantum.py:141-147 | the exact `k`-th root that replaces `floor(n ** (1/k))`: `r^k <= n < (r+1)^k` |
| Arith.FloorLog2 | SuperPos/Pos/services/quantum.py:140 | `floor(log2 n)` exactly: `2^k <= n < 2^(k+1)` |
| Arith.FloorLog2Unique | SuperPos/Pos/services/quantum.py:140 | `floor(log2 n)` is the only `k` with `2^k <= n < 2^(k+1)` |
| Arith.ModInverse | SuperPos/Pos/services/crypto.py:40 | `mod_inverse(a, m)` succeeds iff `m >= 2` and `gcd(a, m) == 1`, and then returns `d < m` with `a*d ≡ 1 (mod m)` |
| Bytes.FromBytes | SuperPos/Pos/services/crypto.py:51 | `int.from_bytes(bs, "big")` is below `256^len(bs)` |
| Bytes.ToBytes | SuperPos/Pos/services/crypto.py:54 | `to_bytes(len, "big")` succeeds iff the value fits in `len` bytes (otherwise Python's `OverflowError`), and its output has length `len` and decodes back to the value |
| Bytes.ToBytesFromBytes | SuperPos/Pos/services/crypto.py:51-54 | encoding the value of a byte string at its own width gives the byte string back |
| Bytes.EncodeFromBytes | SuperPos/Pos/services/crypto.py:51-54 | the same round trip for the total encoder |
| Bytes.MinimalBytes | SuperPos/Pos/services/crypto.py:78-80 | `to_bytes((v.bit_length() + 7) // 8)` has exactly that length and decodes to `v` |
| Bytes.MinimalBytesFromBytes | SuperPos/Pos/services/crypto.py:76-80 | re-encoding a chunk minimally gives it back iff it is empty or has no leading zero byte |
| Bytes.MinimalBytesDropsZeros | shors.py:29-32 | minimal re-encoding of a chunk's value is the chunk with its leading zero bytes removed |
| Bytes.DropLeadingZeros | shors.py:32 | the result is no longer than its input, and equals it iff the input is empty or starts non-zero |
| ContinuedFractions.MakeFraction | SuperPos/Pos/services/quantum.py:89 | `Fraction(a, b)` is in lowest terms and equal to `a/b` |
| ContinuedFractions.ReducedUnique | SuperPos/Pos/services/quantum.py:92 | two fractions in lowest terms with the same value are identical (so the reduced denominator is well defined) |
| ContinuedFractions.LimitDenominator | SuperPos/Pos/services/quantum.py:92 | `limit_denominator(bound)` is in lowest terms, has denominator `<= bound`, returns the input when its denominator already fits, and is within `1/(bound+1)` of the input |
| OrderFinding.OrderExists | SuperPos/Pos/services/quantum.py:131-135 | for a valid base some exponent in `[1, n]` gives `x^r ≡ 1`, so the order-finding loop ends |
| OrderFinding.OrderUnique | SuperPos/Pos/services/quantum.py:125 | the smallest positive `r` with `x^r ≡ 1` is unique |
| OrderFinding.Order | SuperPos/Pos/services/quantum.py:125 | the order of a valid base exists and lies in `[2, n]` |
| OrderFinding.OrderDividesPeriods | SuperPos/Pos/services/quantum.py:100-101 | every exponent with `x^k ≡ 1` is a multiple of the order |
| OrderFinding.ClassicalOrderFinder | SuperPos/Pos/services/quantum.py:122-135 | raises (`Err`) iff `x < 2`, `x >= n` or `gcd(x, n) > 1`; otherwise returns the order: `x^r ≡ 1 (mod n)`, no smaller positive exponent works, `r >= 2` |
| OrderFinding.MultiplicativeGroup | SuperPos/Pos/views.py:242-249 | requires `n > 1`; returns `1` first, strictly ascending, exactly the `x` in `[1, n)` coprime to `n` |
| OrderFinding.GroupElementsAreBases | SuperPos/Pos/views.py:242-255 | the group elements other than `1` are exactly the bases `classical_order_finder` accepts |
| PhaseEstimation.NewModularExp | SuperPos/Pos/services/quantum.py:18-26 | the constructor fails iff the target register is shorter than `modulus.bit_length()`, and otherwise stores its four registers |
| PhaseEstimation.WithRegisters | SuperPos/Pos/services/quantum.py:31-37 | fails for any register count other than 4; succeeds iff there are 4 registers and the constructor's size check passes; the rebuilt gate has those registers |
| PhaseEstimation.WithRegistersRoundTrip | SuperPos/Pos/services/quantum.py:28-37 | rebuilding a gate from its own `registers()` gives the same gate |
| PhaseEstimation.Apply | SuperPos/Pos/services/quantum.py:39-44 | returns `target` unchanged when `target >= modulus`, and otherwise a value below `modulus` |
| PhaseEstimation.ApplyCompose | SuperPos/Pos/services/quantum.py:39-44 | applying exponents `e1` then `e2` equals applying `e1 + e2` |
| PhaseEstimation.ApplyInjective | SuperPos/Pos/services/quantum.py:39-44 | for a base coprime to the modulus the gate is injective on targets, as a reversible arithmetic gate must be |
| PhaseEstimation.ApplyPeriodic | SuperPos/Pos/services/quantum.py:39-44 | starting from target 1, the gate's output is periodic in the exponent with period the order of `x` |
| PhaseEstimation.NoiseFor | SuperPos/Pos/services/quantum.py:76-79 | `"depolarizing"` gives depolarising noise 0.01, `"bitflip"` bit flips 0.02, anything else no noise |
| PhaseEstimation.MakeOrderFindingCircuit | SuperPos/Pos/services/quantum.py:60-68 | target register of `L = n.bit_length()` qubits, exponent register of `2L+3` qubits, gate registers `[2]*L`, `[2]*(2L+3)`, base `x`, modulus `n`, and X on the last target qubit |
| PhaseEstimation.CircuitLayout | SuperPos/Pos/services/quantum.py:60-62 | target qubits are exactly `[0, L)`, exponent qubits exactly `[L, 3L+3)`, and the two are disjoint |
| PhaseEstimation.CircuitStartsAtOne | SuperPos/Pos/services/quantum.py:68 | the X on `target[L-1]` makes the target register hold the big-endian value 1 |
| PhaseEstimation.CircuitWellSized | SuperPos/Pos/services/quantum.py:65 | the gate built for the circuit passes the constructor's size check, and the exponent register has more than `2 log2 n + 3` bits (`2^(2L+3) > 8n²`) |
| PhaseEstimation.ProcessMeasurement | SuperPos/Pos/services/quantum.py:84-102 | any returned `r` satisfies `1 <= r <= n` and `x^r mod n == 1`, so no unverified order is ever returned |
| PhaseEstimation.ZeroMeasurement | SuperPos/Pos/services/quantum.py:94-96 | a zero reading has numerator 0 and gives `None` |
| PhaseEstimation.MeasurementIsPeriod | SuperPos/Pos/services/quantum.py:98-102 | any returned `r` is a multiple of the true order |
| PhaseEstimation.ExactPhaseRecoversOrder | SuperPos/Pos/services/quantum.py:89-102 | a reading `v/2^m == s/r` with `s` coprime to the order `r` gives back exactly `r` |
| PhaseEstimation.QuantumOrderFinder | SuperPos/Pos/services/quantum.py:105-119 | raises iff the base is invalid (the same guard as the classical finder), and any returned order is verified and `<= n` |
| PhaseEstimation.QuantumOrderFinderSound | SuperPos/Pos/services/quantum.py:105-119 | for a valid base it never raises, and any returned order is a multiple of the true order |
| Factoring.RootSearch | SuperPos/Pos/services/quantum.py:140-147 | a returned `c` satisfies `c^k == n` for some `k` in the searched range |
| Factoring.FindFactorOfPrimePower | SuperPos/Pos/services/quantum.py:138-148 | the loop over `k in [2, floor(log2 n)]` returns what the specification function `PerfectPowerRoot` does |
| Factoring.PerfectPowerRootDivides | SuperPos/Pos/services/quantum.py:143-147 | a returned root is a non-trivial divisor: `1 < c < n` and `c` divides `n` |
| Factoring.PerfectPowerRootComplete | SuperPos/Pos/services/quantum.py:138-148 | with exact roots, every perfect power `b^k` (`b, k >= 2`) is found |
| Factoring.PerfectPowerRootSmall | SuperPos/Pos/services/quantum.py:140 | for `n < 4` the range of `k` is empty and the result is `None` |
| Factoring.RunOrderFinder | SuperPos/Pos/services/quantum.py:180-183 | an order finder raises iff it is the two-parameter variant or the base is invalid; the classical one returns the order; any returned order is verified and a multiple of the order |
| Factoring.ShorReduction | SuperPos/Pos/services/quantum.py:194-200 | a square root `y` of 1 modulo `n` with `1 < y < n-1` gives `1 < gcd(y-1, n) < n` |
| Factoring.GoodBaseSucceeds | SuperPos/Pos/services/quantum.py:189-200 | a base of even order whose half power is not `-1` yields a proper factor |
| Factoring.Draw | SuperPos/Pos/services/quantum.py:170 | `random.randint(2, n-1)` lies in `[2, n)` |
| Factoring.Attempt | SuperPos/Pos/services/quantum.py:169-200 | one loop pass returns only proper divisors; a lucky gcd is returned at once; with the classical finder a good base always succeeds; with the two-parameter finder only the lucky-gcd branch can succeed |
| Factoring.FindFactor | SuperPos/Pos/services/quantum.py:151-202 | `None` for prime `n`; `2` for even composite `n`; for an odd composite perfect power, the root `PerfectPowerRoot(n)` with no draw consumed; any other result is a proper divisor; at most `max_attempts` attempts of two draws each; with the classical finder a good base among the drawn ones guarantees success; with the two-parameter finder success needs a perfect power or a lucky gcd |
| Factoring.SearchBases | SuperPos/Pos/services/quantum.py:168-202 | the bounded attempt loop returns only proper divisors, succeeds if any drawn base has a lucky gcd or (classically) is good, and consumes two draws per attempt |
| Factoring.Sort | SuperPos/Pos/services/quantum.py:249 | `sorted(factors)` is sorted and a permutation of its input |
| Factoring.ProductSort | SuperPos/Pos/services/quantum.py:249 | sorting keeps the product |
| Factoring.AllPrimeSort | SuperPos/Pos/services/quantum.py:249 | sorting keeps every factor prime |
| Factoring.FactorNumber | SuperPos/Pos/services/quantum.py:205-249 | error dict for `n <= 1`; `[n]` exactly for prime `n`; "Failed to find factors" only for composites; otherwise sorted prime factors whose product divides `n`, and equals `n` if and only if no sub-call failed; always equals `n` when every proper divisor of `n` is prime |
| Factoring.FactorPart | SuperPos/Pos/services/quantum.py:239-247 | one part contributes prime factors whose product divides it, and equals it if and only if its decomposition did not fail; a prime part contributes itself |
| Factoring.ArityMismatchExample | SuperPos/Pos/views.py:444-447 | on `n = 15` with the all-zero source the two-parameter finder finds nothing, while the four-parameter finder finds a proper divisor |
| Fermat.Fermat | shors.py:17-21 | Fermat's little theorem: `a^(p-1) ≡ 1 (mod p)` for prime `p` not dividing `a` |
| Fermat.FermatExponent | shors.py:17-21 | `m^(1 + k(p-1)) ≡ m (mod p)` for every `m` |
| Fermat.RsaCorrect | shors.py:17-21 | for distinct primes and `e*d ≡ 1 (mod (p-1)(q-1))`, `(m^e mod pq)^d mod pq == m` for every `m < pq` |
| Rsa.TrialDivision | SuperPos/Pos/services/crypto.py:7-14 | `n >= 2` is prime iff no `k` in `[2, isqrt(n)]` divides it |
| Rsa.IsPrimeTrial | SuperPos/Pos/services/crypto.py:7-14 | `is_prime(n)` is false for `n < 2`, and otherwise true iff `n` is prime |
| Rsa.LeastDivisorFrom | SuperPos/Pos/services/crypto.py:62-64 | the first divisor found in `[k, isqrt(n)]` is the least one there, and `None` means there is none |
| Rsa.TrialFactor | SuperPos/Pos/services/crypto.py:60-65 | a returned pair `(i, j)` has `2 <= i <= j` and `i * j == n` |
| Rsa.FactorN | SuperPos/Pos/services/crypto.py:60-65 | the trial-division loop returns what `TrialFactor` specifies |
| Rsa.TrialFactorSound | SuperPos/Pos/services/crypto.py:60-65 | the returned `i` is prime and the least divisor `>= 2` |
| Rsa.TrialFactorNone | SuperPos/Pos/views.py:186-191 | `(None, None)` exactly when `n < 2` or `n` is prime |
| Rsa.TrialFactorSemiprime | shors.py:6-15 | for `n = p*q` with distinct primes, `factor_n` returns `p` and `q` |
| Rsa.Candidate | SuperPos/Pos/services/crypto.py:20-22 | the candidate `getrandbits(bits)`, bumped when even, is odd |
| Rsa.CandidateBound | SuperPos/Pos/services/crypto.py:20-22 | a prime candidate is below `2^bits` |
| Rsa.GeneratePrime | SuperPos/Pos/services/crypto.py:17-24 | returns the first prime candidate from the cursor on: an odd prime below `2^bits`; every earlier candidate failed `is_prime` |
| Rsa.GenerateRsaKeypair | SuperPos/Pos/services/crypto.py:27-41 | two distinct primes below `2^16` and `n = pq < 2^32`; `e` is the least value `>= 65537` coprime to φ; `e*d ≡ 1 (mod φ)` with `d < φ` |
| Rsa.KeySize | te.py:31 | two primes below `2^bits` make a modulus below `2^(2 bits)` |
| Rsa.ChunkBelowModulus | SuperPos/Pos/services/crypto.py:46-51 | every plaintext chunk of at most `(bitlen(n) - 1) // 8` bytes has a value below `n` |
| Rsa.BlockFits | SuperPos/Pos/services/crypto.py:53-54 | a value below `n` fits in `(bitlen(n) + 7) // 8` bytes, so `to_bytes` cannot overflow |
| Rsa.CipherBlock | SuperPos/Pos/services/crypto.py:52-54 | each cipher block is exactly `(bitlen(n) + 7) // 8` bytes and encodes `m^e mod n` |
| Rsa.EncryptMessage | SuperPos/Pos/services/crypto.py:44-56 | the chunk loop raises (zero step) iff `chunk_size == 0`, gives an empty ciphertext for `n == 0`, and otherwise returns the chunked encryption `EncryptBlocks` |
| Rsa.NumChunksCeil | SuperPos/Pos/services/crypto.py:49 | the number of chunks of `range(0, len, size)` is `ceil(len / size)` |
| Rsa.EncryptLength | SuperPos/Pos/services/crypto.py:49-56 | the raw ciphertext has length `ceil(len(msg) / chunk_size) * block_size` |
| Rsa.BlockSizeZero | SuperPos/Pos/services/crypto.py:72 | the block size is 0 exactly for `n == 0` |
| Rsa.DecryptMessage | SuperPos/Pos/services/crypto.py:68-81 | the block loop raises iff `n == 0`, and otherwise returns the blockwise decryption `DecryptBlocks` |
| Rsa.ChunksStartNonzeroAtMultiples | shors.py:17-21 | "every chunk starts with a non-zero byte" is the same as "the message is non-zero at every multiple of the chunk size" |
| Rsa.StripChunksIdentity | shors.py:29-33 | dropping each chunk's leading zeros shortens the message or keeps it, and keeps it exactly when every chunk starts non-zero |
| Rsa.DecryptEncrypt | shors.py:17-33 | under a valid key, decrypting the encryption gives the message with each chunk's leading zeros dropped |
| Rsa.RoundTrip | shors.py:17-21 | under a valid key the decryption is never longer than the message, and equals it iff every plaintext chunk starts with a non-zero byte |
| Rsa.RsaDecrypt | SuperPos/Pos/views.py:224-240 | fails with "Failed to factor n" exactly when `n < 2` or `n` is prime; otherwise derives φ and `d = e^-1 mod φ` from the factors and decrypts |
| Rsa.FactoredKey | shors.py:51-58 | factoring `p*q` and inverting `e` modulo `(p-1)(q-1)` yields a valid private exponent |
| Rsa.FactoringRecoversMessage | shors.py:51-61 | breaking the key by trial division and decrypting recovers every message whose chunks start non-zero |
| CircuitCompiler.ParseGateType | SuperPos/Pos/services/quantum.py:283-374 | a gate-type string is one of the sixteen handled names or else `Other` |
| CircuitCompiler.ParseGateTypeName | SuperPos/Pos/services/quantum.py:283-374 | parsing a type string loses nothing: printing it back gives the string |
| CircuitCompiler.GateTypeNameParse | SuperPos/Pos/services/quantum.py:283-374 | printing a gate type and parsing it gives the type back |
| CircuitCompiler.QubitMap | experiments/SuperPos/Pos/views.py:87-88 | the qubit dictionary has exactly the layout's keys, and maps each to an index whose key it is |
| CircuitCompiler.QubitMapIndex | experiments/SuperPos/Pos/views.py:88 | with distinct keys, the `i`-th key maps to `i` |
| CircuitCompiler.Resolve | experiments/SuperPos/Pos/views.py:98-103 | name resolution succeeds iff every name is in the layout, and then maps each name to its index, in order |
| CircuitCompiler.ResolveInLayout | experiments/SuperPos/Pos/views.py:88-98 | resolved indices are below the layout size |
| CircuitCompiler.Split | experiments/SuperPos/Pos/views.py:99 | `str.split(",")` returns at least one piece, and no piece contains the separator |
| CircuitCompiler.JoinSplit | experiments/SuperPos/Pos/views.py:99 | joining the pieces of a split gives the string back |
| CircuitCompiler.SplitJoin | experiments/SuperPos/Pos/views.py:99 | splitting a join of separator-free pieces gives the pieces back |
| CircuitCompiler.SplitTwoControls | experiments/SuperPos/Pos/views.py:99 | `"q0,q1"` gives the two controls `q0`, `q1` |
| CircuitCompiler.ControlNames | experiments/SuperPos/Pos/views.py:99 | there are no control names iff `control` is absent or empty (falsy) |
| CircuitCompiler.OnEach | experiments/SuperPos/Pos/views.py:106-131 | one gate per target, in target order |
| CircuitCompiler.EmitOutcome | SuperPos/Pos/services/quantum.py:283-374 | once qubits are resolved: "Unsupported gate type" iff the type is unknown or a rotation has a falsy angle; an arity error iff the gate is supported but has the wrong number of targets or controls; the library's duplicate-qubit error iff, beyond that, a multi-qubit gate names one qubit twice (`QubitsDistinct`); gates otherwise |
| CircuitCompiler.CompileOperationOutcome | SuperPos/Pos/services/quantum.py:270-374 | an operation fails with "Invalid target or control qubits" iff some target or control name is missing from the layout (checked before the type); with all names present, unsupported iff not `Supported`, arity error iff not `ArityOk`, duplicate-qubit error iff the gate's target and control names are not pairwise distinct, and success iff none of these |
| CircuitCompiler.OnePerTarget | experiments/SuperPos/Pos/views.py:106-131 | H, X, Y, Z and MEASURE emit exactly one gate per target, in target order, acting on that target's index |
| CircuitCompiler.ControlledExpansions | experiments/SuperPos/Pos/views.py:141-162 | CY expands to CNOT, Y, CNOT on the same qubits; CRZ ignores its angle and emits one controlled-Z; both are refused when control and target are the same qubit |
| CircuitCompiler.FalsyRotation | SuperPos/Pos/views.py:632-696 | RX, RY, RZ, CRX and CRY with a missing or zero angle fall through to "Unsupported gate type" |
| CircuitCompiler.OperationInLayout | SuperPos/Pos/services/quantum.py:270-374 | every gate an operation emits acts only on qubits of the layout |
| CircuitCompiler.EmitInRange | SuperPos/Pos/services/quantum.py:283-372 | the emitted gates act only on the resolved qubits |
| CircuitCompiler.CompileAll | SuperPos/Pos/services/quantum.py:262 | one result per operation |
| CircuitCompiler.CompileAllAt | SuperPos/Pos/services/quantum.py:262 | the `i`-th result is the compilation of the `i`-th operation |
| CircuitCompiler.FirstError | SuperPos/Pos/services/quantum.py:262-374 | the circuit fails iff some operation fails, and then with the error of the first failing one |
| CircuitCompiler.CircuitError | SuperPos/Pos/services/quantum.py:252-377 | `create_circuit_from_json` raises iff some operation raises or the layout has no qubits; with a failing operation, the error is the first such operation's, all earlier ones having compiled; otherwise it is the refused measurement of no qubits |
| CircuitCompiler.ControlledCnot | SuperPos/Pos/services/quantum.py:289-295 | one control and one target give one CNOT on their qubits, or the duplicate-qubit error when they are the same qubit |
| CircuitCompiler.RefusedCircuits | SuperPos/Pos/services/quantum.py:252-377 | `CNOT` from `q0` to `q0` is refused with the duplicate-qubit error; an empty layout is refused at the final measurement |
| CircuitCompiler.DistinctResolved | SuperPos/Pos/services/quantum.py:256-259 | different layout names never resolve to the same qubit, so names are distinct iff their qubits are |
| CircuitCompiler.CircuitShape | SuperPos/Pos/services/quantum.py:376 | a compiled circuit has a non-empty layout, ends with one measurement of all layout qubits keyed `"result"`, and every gate acts inside the layout |
| CircuitCompiler.SequenceInLayout | SuperPos/Pos/services/quantum.py:262-374 | concatenating in-layout gate lists stays in the layout |
| CircuitCompiler.ErrorPersists | SuperPos/Pos/services/quantum.py:278-280 | once an operation has raised, the whole call has raised with that error |
| CircuitCompiler.AppendOperation | SuperPos/Pos/services/quantum.py:262-374 | one loop pass appends the operation's gates to the circuit, or raises its error |
| CircuitCompiler.AppendOnEach | SuperPos/Pos/services/quantum.py:284-288 | a `for target in target_qubits` loop appends exactly one gate per target, in target order, after the circuit so far |
| CircuitCompiler.CreateCircuitFromJson | SuperPos/Pos/services/quantum.py:252-377 | the appending loop computes the specification `Circuit`: the first error, the empty-measurement error, or all gates in order followed by the final measurement |
| CircuitTransformer.NatString | nextpos/src/utils/circuitTransformer.ts:7 | a decimal numeral is non-empty and all digits |
| CircuitTransformer.QubitName | nextpos/src/utils/circuitTransformer.ts:7 | `` `q${i}` `` starts with `q`, has length at least 2 and contains no comma |
| CircuitTransformer.NatStringInjective | nextpos/src/utils/circuitTransformer.ts:7 | different numbers have different numerals |
| CircuitTransformer.QubitNameInjective | nextpos/src/utils/circuitTransformer.ts:7 | different indices give different qubit names |
| CircuitTransformer.LayoutKeysDistinct | nextpos/src/utils/circuitTransformer.ts:6-7 | the layout keys are pairwise distinct |
| CircuitTransformer.LayoutStep | nextpos/src/utils/circuitTransformer.ts:6-7 | one loop pass adds a fresh key `q{i}` with position `[i]` |
| CircuitTransformer.BuildLayout | nextpos/src/utils/circuitTransformer.ts:5-43 | layout type `"linear"`, `dimensions == [qubits]`, keys exactly `q0 … q{qubits-1}` (none for negative counts), and `q{i}` at position `[i]` |
| CircuitTransformer.KeptGates | nextpos/src/utils/circuitTransformer.ts:11-31 | the surviving gates are input gates that pass the guard |
| CircuitTransformer.KeptGatesAppend | nextpos/src/utils/circuitTransformer.ts:11-31 | the filter distributes over concatenation, so it keeps the input order |
| CircuitTransformer.KeptGatesSingle | nextpos/src/utils/circuitTransformer.ts:12-14 | a single gate survives exactly when it has targets and a non-empty type |
| CircuitTransformer.KeptGatesComplete | nextpos/src/utils/circuitTransformer.ts:11-31 | every gate that passes the guard survives |
| CircuitTransformer.TransformOperationsKept | nextpos/src/utils/circuitTransformer.ts:11-31 | one operation per surviving gate, in order; never more operations than gates; as many exactly when no gate is dropped |
| CircuitTransformer.TransformGateFields | nextpos/src/utils/circuitTransformer.ts:15-28 | type upper-cased; targets are the `q` names in order; `control` present iff `controls` is non-empty, and then it splits back into the control names; `angle` passed through |
| CircuitTransformer.TransformCircuit | nextpos/src/utils/circuitTransformer.ts:3-47 | the result holds the `"linear"` layout of `dimensions [qubits]` with keys `q0 … q{qubits-1}` described above, and the transformed operations |
| CircuitTransformer.UiGateTypesKnown | nextpos/src/utils/circuitTransformer.ts:16 | every gate type of the editor upper-cases to a name the compiler handles |
| CircuitTransformer.TransformedQubitsResolve | nextpos/src/utils/circuitTransformer.ts:15-23 | for indices inside the layout, the compiler resolves the transformed targets and controls back to the original indices and never reports invalid qubits |
| CircuitTransformer.ResolveNames | nextpos/src/utils/circuitTransformer.ts:6-17 | resolving the names of in-range indices against the generated layout gives the indices back |
| FaultTolerance.NoisyRound | SuperPos/Pos/views.py:104 | a noisy round has one bit per qubit, and a bit differs from the ideal one iff its draw is below the error probability |
| FaultTolerance.Rounds | SuperPos/Pos/views.py:102-105 | `syndrome_rounds` rounds, each a noisy copy of the ideal measurement |
| FaultTolerance.RunFaultTolerance | SuperPos/Pos/views.py:98-118 | the round-accumulating loop yields the specified final measurement, corrected state and success flag |
| FaultTolerance.NonFtKeepsIdeal | SuperPos/Pos/views.py:99 | a protocol other than `"ft"` leaves the ideal measurement unchanged |
| FaultTolerance.FtMajority | SuperPos/Pos/services/quantum.py:436-444 | under `"ft"` each final bit is the majority of its column of rounds |
| FaultTolerance.ColumnFlips | SuperPos/Pos/views.py:108-111 | a column's count of ones is the count of flips, or the rounds minus the flips, depending on the ideal bit |
| FaultTolerance.MajorityCorrects | SuperPos/Pos/views.py:108-111 | when fewer than half the rounds flip a qubit, the majority vote restores its ideal bit |
| FaultTolerance.ZeroErrorRound | SuperPos/Pos/views.py:104 | with error probability 0 a round equals the ideal measurement |
| FaultTolerance.ZeroErrorKeepsIdeal | SuperPos/Pos/views.py:103-111 | with error probability 0 and at least one round, the majority vote reproduces the ideal measurement |
| FaultTolerance.NoRoundsReadsZero | SuperPos/Pos/views.py:108-111 | with zero rounds every final bit is 0 |
| FaultTolerance.CorrectedStateCases | SuperPos/Pos/views.py:114-118 | the corrected state is `None` iff `num_qubits` is even and exactly half the bits are 1; otherwise 1 iff more than half are; success iff it equals the secret |
| FaultTolerance.OnesWrong | SuperPos/Pos/views.py:114 | the count of ones is the count of bits differing from 0, and `n` minus the count differing from 1 |
| FaultTolerance.DecodesSecret | SuperPos/Pos/views.py:114-118 | when fewer than half the final bits differ from the secret, the corrected state is the secret and the run succeeds |
| RequestValidation.ValidateSound | SuperPos/Pos/serializers.py:15-35 | validated data has `number >= 2`, `shots` in `[1, 10000]`, `noise_model` and `backend` among their choices, and each field is the request's value or its default (`False`, `100`, `"ideal"`, `"simulator"`) |
| RequestValidation.NumberRequired | SuperPos/Pos/serializers.py:16-19 | a request without `number` is rejected naming `number`; a request with only a valid `number` gets every default |
| RequestValidation.OutOfRangeRejected | SuperPos/Pos/serializers.py:16-35 | an out-of-range `number` or `shots`, or an unknown `noise_model` or `backend`, is rejected naming that field |
| RequestValidation.ValidateRequest | SuperPos/Pos/serializers.py:15-35 | a request carrying every field of `x` is accepted iff `x` meets the constraints, and then validates to `x` |

## Left out

- Quantum simulation with cirq is left out: the Hadamards, the inverse QFT, the noise channels and `Simulator.run`. The exponent-register reading `v` is an input to `ProcessMeasurement` and `QuantumOrderFinder`, and the noise model only selects a channel tag (`NoiseFor`).
- The fault-tolerance encoding circuit and its simulation are left out. The ideal measurement and the secret are inputs to `RunFaultTolerance`.
- Randomness is left out. `random.randint`, `getrandbits` and `random.random` are read from an oracle at an explicit cursor, and `random.choice` of the secret is an input.
- Floating point is left out. `math.sqrt` is the exact `ISqrt`. `math.pow(n, 1/k)` with floor/ceil is the exact `IntRoot`, and `math.log2` is `FloorLog2`. `float(v / 2**m)` with `Fraction.from_float` is the exact fraction `v/2^m`.
- Factoring.PerfectPowerRootComplete: it proves completeness for exact roots. The float computation in the source may miss a root through rounding, and that is not modelled.
- `sympy.isprime` is the mathematical predicate `IsPrime`. `sympy.mod_inverse` is `ModInverse`, built on extended Euclid.
- Base64 (section 4 of RFC 4648) and UTF-8 (RFC 3629) are left out. Messages and ciphertexts are byte strings, and a decryption that is not valid UTF-8 is not modelled as an error.
- Rsa.GeneratePrime: it requires a source that eventually yields a prime candidate. The source loops forever otherwise.
- Rsa.GenerateRsaKeypair: it likewise requires a source that keeps yielding two different primes. `d` is the canonical inverse below φ, as `sympy.mod_inverse` returns it.
- Rsa.EncryptMessage: `e` and `n` are naturals. A negative exponent (for which `pow` computes a modular inverse or raises `ValueError`) and a negative modulus (for which `pow` and `bit_length` work on the sign), with the errors they raise, are not modelled.
- Rsa.DecryptMessage: `d` and `n` are naturals, so negative exponents and moduli, and the errors `pow` raises for them, are not modelled.
- Rsa.RsaDecrypt: `n` and `e` come from `int(...)` on the request and may be negative there. A negative `n` makes `math.sqrt` raise in `factor_n` and a negative `e` reaches `mod_inverse`; neither, nor a non-numeric field, is modelled.
- The Django and DRF plumbing is left out: views, `JsonResponse`, request parsing, routing, `factor_view`. Of it, only the factor-failure branch of `rsa_decrypt` is modelled (`RsaDecrypt`).
- The interactive `main` prompts and timing in `te.py` and `shors.py` are left out. Their factoring and key-derivation steps are modelled (`FactoredKey`, `FactoringRecoversMessage`).
- `cirq_web.Circuit3D`, the HTML generation and the file writes after the final measurement are left out. So are the Gemini chat, the plotly plot builders and `simulate_custom_circuit`. All of these are I/O or rendering.
- ContinuedFractions.LimitDenominator: the contract bounds the error by `1/(bound+1)`; that the result is the nearest fraction with denominator at most `bound` (the best-approximation property Python documents) is not proved. The sharper bound `1/(den*(bound+1))` holds for the convergent but not for the semiconvergent: `Fraction(1, 5).limit_denominator(3)` is `1/3`, whose error `2/15` exceeds `1/12`.
- CircuitCompiler.CreateCircuitFromJson: the layout is the sequence of the JSON layout's keys in order. A JSON object cannot hold a key twice, so the repeated-key case that would make `AllQubits` differ from `qubits.values()` does not arise in the source either.
- CircuitCompiler.CreateCircuitFromJson: an operation without a `type` key (a `KeyError` in the source) is not modelled. A missing `targets` is the empty list, as `operation.get("targets", [])` makes it.
- CircuitCompiler.CreateCircuitFromJson: `MEASURE` naming one qubit twice appends two measurements with the same key; the model accepts that as the compiler does, and what a simulator later makes of repeated keys is not modelled.
- CircuitCompiler.CreateCircuitFromJson: a gate-type string is parsed once into `GateType`, and `angle` is an optional real. Non-numeric JSON angles and NaN are not modelled. An angle is falsy exactly when absent or `0.0`.
- The measurement key `str(target)` of a per-target MEASURE is not modelled; `Measure` records only the qubit.
- CircuitTransformer.Upper: it upper-cases ASCII letters only. JavaScript's `toUpperCase` also maps other Unicode letters, which the editor's gate types do not contain.
- CircuitTransformer.TransformCircuit: the fixed metadata strings of the result are not modelled. A gate's `step` is carried but unused, as in the source.
- CircuitTransformer.QubitName: negative indices are printed with a leading `-`, as JavaScript's template literal does. Non-integer and non-finite numbers are not modelled.
- RequestValidation.IntegerField: DRF's coercion of numeric strings and integral floats to integers is not modelled. Only JSON integers are accepted.
- RequestValidation.BooleanField: DRF's acceptance of strings such as `"true"` and of `0`/`1` as booleans is not modelled.
- RequestValidation.Validate: DRF's `null` handling and its error messages are not modelled. Only the set of failing field names is.
- The Next.js front end other than `transformCircuit` is left out: pages, quizzes, forum, network calls. `types/circuit.ts` is mirrored by the datatypes `UiGate`, `JsonOperation` and `CircuitData`.
- The duplicate factoring engine and compiler in `SuperPos/Pos/views.py` share the one model. Its only behavioural difference is the order-finder variant `ClassicalTwoParameter`.

## Findings

| source | as written | input that shows it | evidently intended | confidence | as-written member | corrected member |
|---|---|---|---|---|---|---|
| SuperPos/Pos/views.py:444-447 | `factor_number` wraps the 2-parameter `classical_order_finder(x, n)` in a lambda that calls it with 4 arguments (`shots`, `noise_model`). Every classical order-finding call therefore raises `TypeError`, and `find_factor` swallows it as a failed attempt | `factor_number(15, use_quantum=False)` with every `randint` draw returning 2: 15 is odd, not a perfect power, and `gcd(2, 15) = 1`, so all 30 attempts fail and the result is "Failed to find factors" | `classical_order_finder` accepting (and ignoring) `shots` and `noise_model`, as in `SuperPos/Pos/services/quantum.py:122-135`, so base 2 of order 4 yields the factor `gcd(2^2 - 1, 15) = 3` | not executed | Factoring.ArityMismatchExample | Factoring.FindFactor |
