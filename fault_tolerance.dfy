/** The repetition-code demonstration `run_fault_tolerance`: a logical bit
    is copied onto every qubit and measured; under the fault-tolerant
    protocol the measurement is repeated over noisy syndrome rounds and
    decided per qubit by majority, and the logical bit is then decided by
    majority over the qubits. The simulator's noiseless measurement and the
    random draws are inputs. */
module FaultTolerance {
  import opened Wrappers

  type Bit = b: nat | b < 2

  /** A draw of `random.random()`, in `[0, 1)`. */
  type Draw = x: real | 0.0 <= x < 1.0

  /** The number of ones. */
  function Ones(bits: seq<Bit>): (s: nat)
    ensures s <= |bits|
    decreases |bits|
  {
    if |bits| == 0 then 0 else Ones(bits[..|bits| - 1]) + bits[|bits| - 1]
  }

  // ---------------------------------------------------------------------
  // Syndrome rounds
  // ---------------------------------------------------------------------

  /** `[1 - bit if random.random() < p else bit for bit in ideal]`, the
      draws for this round starting at index `base` of the draw stream. */
  function NoisyRound(ideal: seq<Bit>, p: real, draw: nat -> Draw, base: nat): (noisy: seq<Bit>)
    ensures |noisy| == |ideal|
    ensures forall q :: 0 <= q < |ideal| ==>
      (noisy[q] != ideal[q] <==> draw(base + q) < p)
  {
    seq(|ideal|, q requires 0 <= q < |ideal| => if draw(base + q) < p then 1 - ideal[q] else ideal[q])
  }

  /** The first `k` rounds, round `r` drawing from index `r * |ideal|`. */
  function Rounds(ideal: seq<Bit>, k: nat, p: real, draw: nat -> Draw): (rounds: seq<seq<Bit>>)
    ensures |rounds| == k
    ensures forall r :: 0 <= r < k ==> rounds[r] == NoisyRound(ideal, p, draw, r * |ideal|)
    decreases k
  {
    if k == 0 then [] else Rounds(ideal, k - 1, p, draw) + [NoisyRound(ideal, p, draw, (k - 1) * |ideal|)]
  }

  /** `sum([rounds_results[r][q] for r in range(...)])`: how many rounds
      read one on qubit `q`. */
  function Column(rounds: seq<seq<Bit>>, q: nat): (s: nat)
    requires forall row <- rounds :: q < |row|
    ensures s <= |rounds|
    decreases |rounds|
  {
    if |rounds| == 0 then 0
    else
      var init := rounds[..|rounds| - 1];
      assert forall row <- init :: row in rounds;
      Column(init, q) + rounds[|rounds| - 1][q]
  }

  /** The per-qubit majority vote `1 if sum(...) > syndrome_rounds / 2 else
      0`, with the division exact. */
  function MajorityVote(rounds: seq<seq<Bit>>, syndromeRounds: int, n: nat): (final: seq<Bit>)
    requires forall row <- rounds :: |row| == n
    ensures |final| == n
    ensures forall q :: 0 <= q < n ==> (final[q] == 1 <==> 2 * Column(rounds, q) > syndromeRounds)
  {
    seq(n, q requires 0 <= q < n => if 2 * Column(rounds, q) > syndromeRounds then 1 else 0)
  }

  /** `range(syndrome_rounds)` runs this many times. */
  function RoundCount(syndromeRounds: int): nat
  {
    if syndromeRounds < 0 then 0 else syndromeRounds
  }

  /** `final_meas`: the ideal measurement, or under `"ft"` the majority of
      the noisy rounds. */
  function FinalMeasurement(protocol: string, ideal: seq<Bit>, syndromeRounds: int, p: real,
                            draw: nat -> Draw): (final: seq<Bit>)
    ensures |final| == |ideal|
  {
    if protocol == "ft" then
      MajorityVote(Rounds(ideal, RoundCount(syndromeRounds), p, draw), syndromeRounds, |ideal|)
    else ideal
  }

  // ---------------------------------------------------------------------
  // The logical bit
  // ---------------------------------------------------------------------

  /** `corrected_state`: `None` on a tie, otherwise the majority of the
      final bits, the comparison with `num_qubits / 2` exact. */
  function CorrectedState(final: seq<Bit>, n: nat): Option<Bit>
  {
    var s := Ones(final);
    if n % 2 == 0 && s == n / 2 then None else if 2 * s > n then Some(1) else Some(0)
  }

  /** `success`: false on a tie, otherwise whether the secret came back. */
  function Success(corrected: Option<Bit>, secret: Bit): bool
  {
    corrected.Some? && corrected.value == secret
  }

  /** What the demonstration reports. */
  datatype Report = Report(secret: Bit, ideal: seq<Bit>, final: seq<Bit>,
                           corrected: Option<Bit>, success: bool, syndromeRounds: int)

  /** The decoding tail of `run_fault_tolerance`, from the simulator's
      measurement `ideal` of `numQubits` qubits on. The rounds are
      accumulated one by one. */
  method RunFaultTolerance(numQubits: nat, protocol: string, syndromeRounds: int, p: real,
                           secret: Bit, ideal: seq<Bit>, draw: nat -> Draw)
    returns (report: Report)
    requires |ideal| == numQubits
    ensures report.final == FinalMeasurement(protocol, ideal, syndromeRounds, p, draw)
    ensures report.corrected == CorrectedState(report.final, numQubits)
    ensures report.success == Success(report.corrected, secret)
    ensures report.secret == secret && report.ideal == ideal && report.syndromeRounds == syndromeRounds
  {
    var final := ideal;
    if protocol == "ft" {
      var roundsResults: seq<seq<Bit>> := [];
      for r := 0 to RoundCount(syndromeRounds)
        invariant roundsResults == Rounds(ideal, r, p, draw)
      {
        var noisyRound := NoisyRound(ideal, p, draw, r * |ideal|);
        roundsResults := roundsResults + [noisyRound];
      }
      final := MajorityVote(roundsResults, syndromeRounds, numQubits);
    }
    var sumMeas := Ones(final);
    var corrected: Option<Bit>;
    if numQubits % 2 == 0 && sumMeas == numQubits / 2 {
      corrected := None;
    } else if 2 * sumMeas > numQubits {
      corrected := Some(1);
    } else {
      corrected := Some(0);
    }
    var success := if corrected.Some? then corrected.value == secret else false;
    return Report(secret, ideal, final, corrected, success, syndromeRounds);
  }

  // ---------------------------------------------------------------------
  // Properties
  // ---------------------------------------------------------------------

  /** Without the fault-tolerant protocol the final measurement is the
      ideal one. */
  lemma NonFtKeepsIdeal(protocol: string, ideal: seq<Bit>, syndromeRounds: int, p: real, draw: nat -> Draw)
    requires protocol != "ft"
    ensures FinalMeasurement(protocol, ideal, syndromeRounds, p, draw) == ideal
  {
  }

  /** Under `"ft"`, a qubit reads one exactly when more than half of the
      rounds read one on it. */
  lemma FtMajority(ideal: seq<Bit>, syndromeRounds: int, p: real, draw: nat -> Draw, q: nat)
    requires q < |ideal|
    ensures var rounds := Rounds(ideal, RoundCount(syndromeRounds), p, draw);
      (forall row <- rounds :: |row| == |ideal|) &&
      (FinalMeasurement("ft", ideal, syndromeRounds, p, draw)[q] == 1 <==>
        2 * Column(rounds, q) > syndromeRounds)
  {
  }

  /** How many rounds flipped qubit `q`. */
  function Flips(rounds: seq<seq<Bit>>, ideal: seq<Bit>, q: nat): (f: nat)
    requires q < |ideal| && forall row <- rounds :: |row| == |ideal|
    ensures f <= |rounds|
    decreases |rounds|
  {
    if |rounds| == 0 then 0
    else
      var init := rounds[..|rounds| - 1];
      assert forall row <- init :: row in rounds;
      Flips(init, ideal, q) + (if rounds[|rounds| - 1][q] != ideal[q] then 1 else 0)
  }

  /** The ones counted on a qubit are its flips when it should read zero,
      and the rounds without a flip when it should read one. */
  lemma {:induction false} ColumnFlips(rounds: seq<seq<Bit>>, ideal: seq<Bit>, q: nat)
    requires q < |ideal| && forall row <- rounds :: |row| == |ideal|
    ensures Column(rounds, q) ==
      if ideal[q] == 0 then Flips(rounds, ideal, q) else |rounds| - Flips(rounds, ideal, q)
    decreases |rounds|
  {
    if |rounds| > 0 {
      var init := rounds[..|rounds| - 1];
      assert forall row <- init :: row in rounds;
      ColumnFlips(init, ideal, q);
    }
  }

  /** The vote undoes measurement errors: a qubit flipped in fewer than half
      of at least one round reads its ideal value. */
  lemma MajorityCorrects(rounds: seq<seq<Bit>>, ideal: seq<Bit>, q: nat)
    requires q < |ideal| && forall row <- rounds :: |row| == |ideal|
    requires |rounds| >= 1 && 2 * Flips(rounds, ideal, q) < |rounds|
    ensures MajorityVote(rounds, |rounds|, |ideal|)[q] == ideal[q]
  {
    ColumnFlips(rounds, ideal, q);
  }

  /** With error probability zero no draw is below it: a round reads the
      ideal bits. */
  lemma ZeroErrorRound(ideal: seq<Bit>, draw: nat -> Draw, base: nat)
    ensures NoisyRound(ideal, 0.0, draw, base) == ideal
  {
  }

  /** Rounds that all read the ideal bits flip nothing. */
  lemma {:induction false} IdealRoundsNoFlips(rounds: seq<seq<Bit>>, ideal: seq<Bit>, q: nat)
    requires q < |ideal| && forall row <- rounds :: row == ideal
    ensures Flips(rounds, ideal, q) == 0
    decreases |rounds|
  {
    if |rounds| > 0 {
      var init := rounds[..|rounds| - 1];
      assert forall row <- init :: row in rounds;
      assert rounds[|rounds| - 1] in rounds;
      IdealRoundsNoFlips(init, ideal, q);
    }
  }

  /** With error probability zero and at least one round, the fault-tolerant
      final measurement is the ideal one. */
  lemma ZeroErrorKeepsIdeal(ideal: seq<Bit>, syndromeRounds: int, draw: nat -> Draw)
    requires syndromeRounds >= 1
    ensures FinalMeasurement("ft", ideal, syndromeRounds, 0.0, draw) == ideal
  {
    var rounds := Rounds(ideal, syndromeRounds, 0.0, draw);
    var final := FinalMeasurement("ft", ideal, syndromeRounds, 0.0, draw);
    forall row <- rounds
      ensures row == ideal
    {
      var r :| 0 <= r < |rounds| && rounds[r] == row;
      ZeroErrorRound(ideal, draw, r * |ideal|);
    }
    forall q | 0 <= q < |ideal|
      ensures final[q] == ideal[q]
    {
      IdealRoundsNoFlips(rounds, ideal, q);
      MajorityCorrects(rounds, ideal, q);
    }
  }

  /** With no rounds at all, every qubit reads zero. */
  lemma NoRoundsReadsZero(ideal: seq<Bit>, p: real, draw: nat -> Draw)
    ensures forall b <- FinalMeasurement("ft", ideal, 0, p, draw) :: b == 0
  {
  }

  /** The logical bit is undecided exactly on a tie; otherwise it is one
      exactly when more than half of the bits are. A decided bit that
      differs from the secret is a failure. */
  lemma CorrectedStateCases(final: seq<Bit>, n: nat, secret: Bit)
    ensures CorrectedState(final, n).None? <==> n % 2 == 0 && 2 * Ones(final) == n
    ensures CorrectedState(final, n).Some? ==>
      (CorrectedState(final, n).value == 1 <==> 2 * Ones(final) > n)
    ensures Success(CorrectedState(final, n), secret) <==>
      CorrectedState(final, n) == Some(secret)
  {
  }

  /** The number of bits that differ from `b`. */
  function Wrong(bits: seq<Bit>, b: Bit): (w: nat)
    ensures w <= |bits|
    decreases |bits|
  {
    if |bits| == 0 then 0
    else Wrong(bits[..|bits| - 1], b) + (if bits[|bits| - 1] != b then 1 else 0)
  }

  lemma {:induction false} OnesWrong(bits: seq<Bit>)
    ensures Ones(bits) == Wrong(bits, 0) && Ones(bits) == |bits| - Wrong(bits, 1)
    decreases |bits|
  {
    if |bits| > 0 {
      OnesWrong(bits[..|bits| - 1]);
    }
  }

  /** The repetition code decodes the secret while fewer than half of the
      qubits are wrong. */
  lemma DecodesSecret(final: seq<Bit>, secret: Bit)
    requires 2 * Wrong(final, secret) < |final|
    ensures CorrectedState(final, |final|) == Some(secret)
    ensures Success(CorrectedState(final, |final|), secret)
  {
    OnesWrong(final);
  }
}
