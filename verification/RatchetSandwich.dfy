/** Enforcement of a reviewed ratchet, statically or with a candidate-control-candidate sandwich. */
module RatchetSandwich {
  import opened Basics
  import opened Ratchet
  import opened ProductionRatchet

  datatype PairedControl = PairedControl(
    control: Artifact, expectedCandidateCommit: string, expectedCommit: string, initial: Artifact)

  datatype Run = InitialCandidate | Control | FinalCandidate

  datatype Failure =
    | Condition(reason: string)
    | Missing(name: string)
    | Occurs(run: Run, name: string, times: nat)
    | ShapeMismatch(run: Run, name: string)
    | Static(run: Run, name: string, breach: Breach)
    | ObjectiveMissed(run: Run, name: string)
    | SecondTail(first: string, name: string)
    | Inadmissible(name: string)
    | Dispersed(name: string)
    | SandwichOver(name: string)

  datatype Verdict = Accepted | Failed(failures: seq<Failure>) | Aborted(message: string)

  const BOOTSTRAP_PROCESS_COUNT := "bootstrap-external-process-count-peak-observed-n1"
  const SANDWICH_MAXIMUM_SPAN := 2400000
  const SAME_RUNNER_KEYS: set<string> := {"sameRunnerComparisonKey", "runnerIdentity"}

  // ----- Pairing -----

  /** An exact Git commit: forty or sixty-four lower-case hexadecimal digits. */
  predicate ExactCommit(s: string) {
    (|s| == 40 || |s| == 64) && LowerHex(s)
  }

  /** The artifact was made at that commit of the ratcheted suite, environment and runner, and measures the same set
      under the same selected metadata as the final candidate. */
  ghost predicate PairsWith(policy: Policy, a: Artifact, commit: string, final: Artifact, r: RatchetFile) {
    && policy.evidenceComplete(a)
    && a.environment[Commit] == Text(commit)
    && a.suite == final.suite
    && (forall k :: k in r.environment ==> k in a.environment && a.environment[k] == r.environment[k])
    && (forall k :: k in SAME_RUNNER_KEYS ==>
          && k in a.metadata && k in final.metadata && a.metadata[k] == final.metadata[k]
          && a.metadata[k].Text? && a.metadata[k].s != "")
    && policy.metadataKeys(a.metadata) <= a.metadata.Keys
    && Selected(policy, a.metadata) == Selected(policy, final.metadata)
    && UniqueNames(Assessed(policy, a.measurements))
    && AssessedNames(policy, a) == AssessedNames(policy, final)
  }

  /** Creation times are strictly ordered candidate, control, candidate within forty minutes. */
  predicate Ordered(initial: Option<int>, control: Option<int>, final: Option<int>) {
    && initial.Some? && control.Some? && final.Some?
    && initial.value < control.value < final.value
    && final.value - initial.value <= SANDWICH_MAXIMUM_SPAN
  }

  ghost predicate Paired(policy: Policy, final: Artifact, p: PairedControl, r: RatchetFile) {
    && ExactCommit(p.expectedCandidateCommit) && ExactCommit(p.expectedCommit)
    && policy.evidenceComplete(final)
    && final.environment[Commit] == Text(p.expectedCandidateCommit)
    && p.control.environment[Commit] != final.environment[Commit]
    && p.control.suite == r.suite
    && policy.metadataKeys(final.metadata) <= final.metadata.Keys
    && UniqueNames(Assessed(policy, final.measurements))
    && PairsWith(policy, p.initial, p.expectedCandidateCommit, final, r)
    && PairsWith(policy, p.control, p.expectedCommit, final, r)
    && Ordered(p.initial.createdAt, p.control.createdAt, final.createdAt)
  }

  /** When the three runs were made. */
  datatype Moments = Moments(initial: int, control: int, final: int)

  /** How far between the two candidates the control was made. */
  function Weight(at: Moments): real
    requires at.initial < at.final
  {
    (at.control - at.initial) as real / (at.final - at.initial) as real
  }

  /** The weight is strictly between 0 and 1 and divides the time between the candidates as the control does. */
  ghost predicate Weighs(weight: real, at: Moments) {
    && at.initial < at.control < at.final
    && 0.0 < weight < 1.0
    && weight * (at.final - at.initial) as real == (at.control - at.initial) as real
  }

  lemma WeightInside(at: Moments)
    requires at.initial < at.control < at.final
    ensures Weighs(Weight(at), at)
  {
    var n, d := (at.control - at.initial) as real, (at.final - at.initial) as real;
    var q := n / d;
    assert q * d == n;
    assert (1.0 - q) * d == d - n;
  }

  // ----- Acceptance of one measurement -----

  predicate SameShape(a: Measurement, b: Measurement) {
    a.unit == b.unit && a.samples == b.samples
  }

  /** A reviewed elapsed-time metric, bounded by nothing but a p95 over one sample. */
  predicate HostSensitiveWall(policy: Policy, name: string, limit: Limit) {
    && limit.unit == Milliseconds
    && limit.samplesMinimum == Some(1)
    && limit.p95Maximum.Some?
    && BoundsOnlyP95(limit)
    && policy.names.pairedWall(name)
  }

  predicate OnlyP95Over(m: Measurement, limit: Limit) {
    || StaticFailures(m, limit) == []
    || (&& limit.p95Maximum.Some? && m.p95 > limit.p95Maximum.value
        && (limit.samplesMinimum.None? || m.samples >= limit.samplesMinimum.value)
        && |StaticFailures(m, limit)| == 1)
  }

  /** The one screening observation with five bootstrap processes where four are reviewed. */
  predicate BootstrapAccepted(
    name: string, initial: Measurement, control: Measurement, final: Measurement, limit: Limit)
  {
    && name == BOOTSTRAP_PROCESS_COUNT
    && limit.unit == Count && limit.maximum == Some(4.0) && limit.samplesMinimum == Some(1)
    && limit.meanMaximum.None? && limit.minimum.None? && limit.p50Maximum.None?
    && limit.p95Maximum.None? && limit.p99Maximum.None?
    && |StaticFailures(initial, limit)| == 1 && StaticFailures(final, limit) == []
    && initial.samples >= 1 && initial.maximum == 5.0
    && StaticFailures(control, limit) == []
  }

  predicate ObjectiveAttained(name: string, initial: Measurement, control: Measurement, final: Measurement) {
    Objective(name).Some? ==>
      && initial.p95 <= Objective(name).value
      && control.p95 <= Objective(name).value
      && final.p95 <= Objective(name).value
  }

  function Tolerance(p95Maximum: real): real {
    Min(p95Maximum * 0.01, 5.0)
  }

  /** A p95 at the control's moment on the line between the two candidates. */
  function SandwichP95(initial: Measurement, final: Measurement, weight: real): real {
    initial.p95 + (final.p95 - initial.p95) * weight
  }

  /** An objective, when there is one, is not exceeded. */
  predicate WithinObjective(name: string, p95: real) {
    Objective(name).Some? ==> p95 <= Objective(name).value
  }

  /** s is the value at the control's moment on the straight line through the two candidates: its rise over the initial
      value is to the time passed as the whole rise is to the whole time. */
  predicate OnLine(s: real, initial: real, final: real, at: Moments) {
    (s - initial) * (at.final - at.initial) as real == (at.control - at.initial) as real * (final - initial)
  }

  /** The candidates agree with each other up to headroom, and their p95 at the control's moment agrees with the
      control. */
  ghost predicate Interpolated(
    policy: Policy, name: string, initial: Measurement, control: Measurement, final: Measurement, at: Moments)
  {
    && WithinObjective(name, Min(initial.p95, final.p95))
    && Max(initial.p95, final.p95) <= HeadroomLimit(policy.names, name, Min(initial.p95, final.p95))
    && WithinObjective(name, control.p95)
    && forall s: real :: OnLine(s, initial.p95, final.p95, at) ==> s <= HeadroomLimit(policy.names, name, control.p95)
  }

  /** A wall metric that may be excused at all: it attained its objective and misses nothing but its p95 limit. */
  predicate Excusable(
    policy: Policy, name: string, limit: Limit, initial: Measurement, control: Measurement, final: Measurement)
  {
    && HostSensitiveWall(policy, name, limit)
    && ObjectiveAttained(name, initial, control, final)
    && OnlyP95Over(initial, limit) && OnlyP95Over(final, limit)
  }

  /** The control passes and the final candidate alone crosses the limit, by no more than the tolerance. */
  predicate NeedsTail(
    policy: Policy, name: string, limit: Limit, initial: Measurement, control: Measurement, final: Measurement)
  {
    && Excusable(policy, name, limit, initial, control, final)
    && control.p95 <= limit.p95Maximum.value
    && Within(initial, limit) && !Within(final, limit)
    && Objective(name).None?
    && final.p95 <= limit.p95Maximum.value + Tolerance(limit.p95Maximum.value)
  }

  /** The ways a metric can be admitted once the control has been consulted. */
  ghost predicate AdmittedWithControl(
    policy: Policy, name: string, limit: Limit, initial: Measurement, control: Measurement, final: Measurement,
    at: Moments)
  {
    || (Within(initial, limit) && Within(final, limit) && ObjectiveAttained(name, initial, control, final))
    || BootstrapAccepted(name, initial, control, final, limit)
    || (&& Excusable(policy, name, limit, initial, control, final)
        && control.p95 <= limit.p95Maximum.value && Within(final, limit))
    || NeedsTail(policy, name, limit, initial, control, final)
    || (&& Excusable(policy, name, limit, initial, control, final)
        && control.p95 > limit.p95Maximum.value
        && Interpolated(policy, name, initial, control, final, at))
  }

  ghost predicate Admitted(
    policy: Policy, name: string, limit: Limit, initials: seq<Measurement>, controls: seq<Measurement>,
    finals: seq<Measurement>, at: Moments)
  {
    && |finals| == 1 && finals[0].unit == limit.unit
    && |initials| == 1 && SameShape(initials[0], finals[0])
    && (|| (Within(initials[0], limit) && Within(finals[0], limit) && Objective(name).None?)
        || (&& |controls| == 1 && SameShape(controls[0], finals[0])
            && AdmittedWithControl(policy, name, limit, initials[0], controls[0], finals[0], at)))
  }

  predicate Tail(
    policy: Policy, name: string, limit: Limit, initials: seq<Measurement>, controls: seq<Measurement>,
    finals: seq<Measurement>)
  {
    && |finals| == |initials| == |controls| == 1
    && finals[0].unit == limit.unit && SameShape(initials[0], finals[0]) && SameShape(controls[0], finals[0])
    && NeedsTail(policy, name, limit, initials[0], controls[0], finals[0])
  }

  function StaticOf(run: Run, name: string, breaches: seq<Breach>): (failures: seq<Failure>)
    ensures |failures| == |breaches|
  {
    if breaches == [] then [] else [Static(run, name, breaches[0])] + StaticOf(run, name, breaches[1..])
  }

  function CandidateFailures(name: string, limit: Limit, initial: Measurement, final: Measurement): seq<Failure> {
    StaticOf(InitialCandidate, name, StaticFailures(initial, limit))
    + StaticOf(FinalCandidate, name, StaticFailures(final, limit))
  }

  /** The generated limit of one millisecond observation, as the sandwich uses it. */
  lemma OneObservationLimit(policy: Policy, name: string, observed: real, candidate: real)
    requires observed >= 0.0 && candidate >= 0.0
    ensures MeasurementRatchet(policy.names, name, Milliseconds, [observed]).Success? <==> WithinObjective(name, observed)
    ensures BenchmarkMeasurement(name, Milliseconds, [candidate]).Some?
    ensures WithinObjective(name, observed) ==>
              (Within(BenchmarkMeasurement(name, Milliseconds, [candidate]).value,
                      MeasurementRatchet(policy.names, name, Milliseconds, [observed]).value)
               <==> candidate <= HeadroomLimit(policy.names, name, observed))
  {
    hide MILLISECOND_TARGETS, HeadroomLimit;
    SingleSummary(name, Milliseconds, candidate);
  }

  /** The interpolated p95 is the one value on the line at the control's moment. */
  lemma LeverLaw(initial: Measurement, final: Measurement, weight: real, at: Moments)
    requires Weighs(weight, at)
    ensures forall s: real :: OnLine(s, initial.p95, final.p95, at) <==> s == SandwichP95(initial, final, weight)
  {
    var d, rise := (at.final - at.initial) as real, final.p95 - initial.p95;
    forall s: real ensures OnLine(s, initial.p95, final.p95, at) <==> s == SandwichP95(initial, final, weight) {
      Lever(s - initial.p95, d, rise, weight);
    }
  }

  lemma Compared(initial: Measurement, final: Measurement, weight: real, at: Moments, allowed: real)
    requires Weighs(weight, at)
    ensures (forall s: real :: OnLine(s, initial.p95, final.p95, at) ==> s <= allowed)
       <==> SandwichP95(initial, final, weight) <= allowed
  {
    hide OnLine, SandwichP95, Weighs;
    LeverLaw(initial, final, weight, at);
    assert OnLine(SandwichP95(initial, final, weight), initial.p95, final.p95, at);
  }

  lemma Lever(above: real, d: real, rise: real, weight: real)
    requires d > 0.0
    ensures above * d == (weight * d) * rise <==> above == rise * weight
  {
    assert (weight * d) * rise == (rise * weight) * d;
    assert above * d - (rise * weight) * d == (above - rise * weight) * d;
  }

  lemma SandwichBetween(initial: Measurement, final: Measurement, weight: real)
    requires 0.0 < weight < 1.0
    ensures Min(initial.p95, final.p95) <= SandwichP95(initial, final, weight) <= Max(initial.p95, final.p95)
  {
    Between(initial.p95, final.p95, weight);
  }

  lemma Between(a: real, b: real, weight: real)
    requires 0.0 < weight < 1.0
    ensures a <= b ==> a <= a + (b - a) * weight <= b
    ensures b <= a ==> b <= a + (b - a) * weight <= a
  {
    var step := (b - a) * weight;
    if a <= b {
      Scaled(b - a, weight, step);
    } else {
      Scaled(a - b, weight, -step);
    }
  }

  lemma Scaled(d: real, weight: real, product: real)
    requires 0.0 < weight < 1.0 && d >= 0.0 && product == d * weight
    ensures 0.0 <= product <= d
  {
    assert d * (1.0 - weight) == d - product;
    assert d * (1.0 - weight) >= 0.0;
  }

  /** The dispersion and control comparisons of a wall metric whose control exceeds the static limit. */
  method EnforceInterpolation(
    policy: Policy, name: string, initial: Measurement, control: Measurement, final: Measurement, weight: real,
    ghost at: Moments)
    returns (failures: seq<Failure>)
    requires Parsed(initial) && Parsed(control) && Parsed(final) && final.unit == Milliseconds && Weighs(weight, at)
    ensures failures == [] <==> Interpolated(policy, name, initial, control, final, at)
  {
    hide MILLISECOND_TARGETS, HeadroomLimit, MeasurementRatchet, BenchmarkMeasurement, Objective;
    var lower, upper := Min(initial.p95, final.p95), Max(initial.p95, final.p95);
    OneObservationLimit(policy, name, lower, upper);
    var dispersionLimit := MeasurementRatchet(policy.names, name, final.unit, [lower]);
    if dispersionLimit.Thrown? {
      return [Inadmissible(name)];
    }
    var dispersed := BenchmarkMeasurement(name, final.unit, [upper]).value;
    NoFailuresWithin(dispersed, dispersionLimit.value);
    if StaticFailures(dispersed, dispersionLimit.value) != [] {
      return [Dispersed(name)];
    }
    var sandwichP95 := SandwichP95(initial, final, weight);
    Compared(initial, final, weight, at, HeadroomLimit(policy.names, name, control.p95));
    SandwichBetween(initial, final, weight);
    hide SandwichP95, Weighs, OnLine;
    OneObservationLimit(policy, name, control.p95, sandwichP95);
    var pairedLimit := MeasurementRatchet(policy.names, name, final.unit, [control.p95]);
    if pairedLimit.Thrown? {
      return [Inadmissible(name)];
    }
    var sandwiched := BenchmarkMeasurement(name, final.unit, [sandwichP95]).value;
    NoFailuresWithin(sandwiched, pairedLimit.value);
    return if StaticFailures(sandwiched, pairedLimit.value) == [] then [] else [SandwichOver(name)];
  }

  /** The three-run judgement of one metric whose control measurement was found. */
  method EnforceWithControl(
    policy: Policy, name: string, limit: Limit, initial: Measurement, control: Measurement, final: Measurement,
    weight: real, ghost at: Moments) returns (failures: seq<Failure>, tail: bool)
    requires Parsed(initial) && Parsed(control) && Parsed(final) && final.unit == limit.unit && Weighs(weight, at)
    ensures failures == [] <==> AdmittedWithControl(policy, name, limit, initial, control, final, at)
    ensures tail <==> NeedsTail(policy, name, limit, initial, control, final)
  {
    hide MILLISECOND_TARGETS, HeadroomLimit, Objective, Interpolated, StaticFailures, HostSensitiveWall;
    NoFailuresWithin(initial, limit);
    NoFailuresWithin(final, limit);
    var initialFailures, finalFailures := StaticFailures(initial, limit), StaticFailures(final, limit);
    tail := false;
    if BootstrapAccepted(name, initial, control, final, limit) {
      BootstrapIsNoWall(name, limit);
      return [], false;
    }
    var objective := Objective(name);
    if objective.Some? {
      failures := [];
      if initial.p95 > objective.value { failures := failures + [ObjectiveMissed(InitialCandidate, name)]; }
      if control.p95 > objective.value { failures := failures + [ObjectiveMissed(Control, name)]; }
      if final.p95 > objective.value { failures := failures + [ObjectiveMissed(FinalCandidate, name)]; }
      if failures != [] { return; }
    }
    if finalFailures == [] && initialFailures == [] {
      return [], false;
    }
    failures := CandidateFailures(name, limit, initial, final);
    if !HostSensitiveWall(policy, name, limit) || !OnlyP95Over(initial, limit) || !OnlyP95Over(final, limit) {
      return failures, false;
    }
    WallHasP95(policy, name, limit);
    if control.p95 <= limit.p95Maximum.value {
      if finalFailures == [] {
        return [], false;
      }
      if objective.Some? || initialFailures != []
         || final.p95 > limit.p95Maximum.value + Tolerance(limit.p95Maximum.value)
      {
        return failures, false;
      }
      return [], true;
    }
    failures := EnforceInterpolation(policy, name, initial, control, final, weight, at);
  }

  lemma WallHasP95(policy: Policy, name: string, limit: Limit)
    requires HostSensitiveWall(policy, name, limit)
    ensures limit.p95Maximum.Some? && limit.unit == Milliseconds
  {
  }

  lemma BootstrapIsNoWall(name: string, limit: Limit)
    requires limit.unit == Count
    ensures forall policy: Policy :: !HostSensitiveWall(policy, name, limit)
  {
  }

  /** The judgement of one metric with paired evidence. */
  method EnforceMeasurement(
    policy: Policy, name: string, limit: Limit, initials: seq<Measurement>, controls: seq<Measurement>,
    finals: seq<Measurement>, weight: real, ghost at: Moments) returns (failures: seq<Failure>, tail: bool)
    requires forall i :: 0 <= i < |initials| ==> Parsed(initials[i])
    requires forall i :: 0 <= i < |controls| ==> Parsed(controls[i])
    requires forall i :: 0 <= i < |finals| ==> Parsed(finals[i])
    requires Weighs(weight, at)
    ensures failures == [] <==> Admitted(policy, name, limit, initials, controls, finals, at)
    ensures tail <==> Tail(policy, name, limit, initials, controls, finals)
  {
    hide MILLISECOND_TARGETS, Objective, NeedsTail, AdmittedWithControl, StaticFailures, Parsed;
    if |finals| != 1 {
      return [Occurs(FinalCandidate, name, |finals|)], false;
    }
    var final := finals[0];
    if final.unit != limit.unit {
      return [ShapeMismatch(FinalCandidate, name)], false;
    }
    if |initials| != 1 {
      return [Occurs(InitialCandidate, name, |initials|)], false;
    }
    var initial := initials[0];
    if !SameShape(initial, final) {
      return [ShapeMismatch(InitialCandidate, name)], false;
    }
    NoFailuresWithin(initial, limit);
    NoFailuresWithin(final, limit);
    if StaticFailures(final, limit) == [] && StaticFailures(initial, limit) == [] && Objective(name).None? {
      TailOvershoots(policy, name, limit, initial, final);
      return [], false;
    }
    if |controls| != 1 {
      return [Occurs(Control, name, |controls|)], false;
    }
    if !SameShape(controls[0], final) {
      return [ShapeMismatch(Control, name)], false;
    }
    failures, tail := EnforceWithControl(policy, name, limit, initial, controls[0], final, weight, at);
  }

  lemma TailOvershoots(policy: Policy, name: string, limit: Limit, initial: Measurement, final: Measurement)
    requires Within(final, limit)
    ensures forall control :: !NeedsTail(policy, name, limit, initial, control, final)
  {
    hide MILLISECOND_TARGETS;
  }

  // ----- Enforcement of a whole ratchet -----

  /** The loop's order: every ratcheted name once. */
  ghost predicate Enumerates(order: seq<string>, limits: map<string, Limit>) {
    && (forall i, j :: 0 <= i < j < |order| ==> order[i] != order[j])
    && (forall i :: 0 <= i < |order| ==> order[i] in limits)
    && (forall name :: name in limits ==> name in order)
  }

  ghost predicate AdmittedBetween(policy: Policy, name: string, limit: Limit, final: Artifact, p: PairedControl,
                                  at: Moments)
  {
    Admitted(policy, name, limit, Matches(p.initial.measurements, name), Matches(p.control.measurements, name),
             Matches(final.measurements, name), at)
  }

  ghost predicate TailBetween(policy: Policy, name: string, limit: Limit, final: Artifact, p: PairedControl) {
    Tail(policy, name, limit, Matches(p.initial.measurements, name), Matches(p.control.measurements, name),
         Matches(final.measurements, name))
  }

  ghost function MomentsOf(final: Artifact, p: PairedControl): Moments
    requires Ordered(p.initial.createdAt, p.control.createdAt, final.createdAt)
  {
    Moments(p.initial.createdAt.value, p.control.createdAt.value, final.createdAt.value)
  }

  /** Acceptance with paired evidence. It mentions no order of the metrics. */
  ghost predicate SandwichAccepts(policy: Policy, final: Artifact, r: RatchetFile, p: PairedControl) {
    && ValidRatchet(policy, r)
    && ConditionsMet(policy, final, r)
    && Paired(policy, final, p, r)
    && (forall name :: name in r.measurements ==>
          AdmittedBetween(policy, name, r.measurements[name], final, p, MomentsOf(final, p)))
    && AtMostOneTail(policy, final, r, p)
  }

  /** No two metrics are let through on the confirmatory tail tolerance. */
  ghost predicate AtMostOneTail(policy: Policy, final: Artifact, r: RatchetFile, p: PairedControl) {
    forall a, b ::
      (&& a in r.measurements && b in r.measurements
       && TailBetween(policy, a, r.measurements[a], final, p) && TailBetween(policy, b, r.measurements[b], final, p))
      ==> a == b
  }

  /** The static pass over the ratchet, one metric after another in the given order. */
  method EnforceStatically(policy: Policy, artifact: Artifact, r: RatchetFile, order: seq<string>)
    returns (failures: seq<Failure>)
    requires Enumerates(order, r.measurements)
    ensures failures == [] <==>
              forall name :: name in r.measurements ==> StaticallyAdmits(artifact, name, r.measurements[name])
  {
    hide StaticFailures, Parsed, Within, Matches, StaticOf;
    failures := [];
    var byName := BenchmarkMeasurementsByName(artifact);
    for i := 0 to |order|
      invariant failures == [] <==>
                  forall j :: 0 <= j < i ==> StaticallyAdmits(artifact, order[j], r.measurements[order[j]])
    {
      var name := order[i];
      var limit := r.measurements[name];
      var matches := if name in byName then byName[name] else [];
      assert matches == Matches(artifact.measurements, name);
      if matches == [] {
        failures := failures + [Missing(name)];
      } else if |matches| != 1 {
        failures := failures + [Occurs(FinalCandidate, name, |matches|)];
      } else if matches[0].unit != limit.unit {
        failures := failures + [ShapeMismatch(FinalCandidate, name)];
      } else {
        NoFailuresWithin(matches[0], limit);
        failures := failures + StaticOf(FinalCandidate, name, StaticFailures(matches[0], limit));
      }
    }
  }

  /** The paired pass: at most one metric is let through on the confirmatory tail tolerance. */
  method EnforceBetween(policy: Policy, final: Artifact, r: RatchetFile, p: PairedControl, order: seq<string>,
                        weight: real, ghost at: Moments) returns (failures: seq<Failure>)
    requires Enumerates(order, r.measurements) && Weighs(weight, at)
    ensures failures == [] <==>
              && (forall name :: name in r.measurements ==>
                    AdmittedBetween(policy, name, r.measurements[name], final, p, at))
              && AtMostOneTail(policy, final, r, p)
  {
    hide AdmittedBetween, TailBetween, Weighs, Parsed, Matches, Typed;
    failures := [];
    var tailName: Option<string> := None;
    for i := 0 to |order|
      invariant tailName.None? ==> forall j :: 0 <= j < i ==>
                  !TailBetween(policy, order[j], r.measurements[order[j]], final, p)
      invariant tailName.Some? ==>
                  exists j :: 0 <= j < i && TailBetween(policy, order[j], r.measurements[order[j]], final, p)
      invariant failures == [] <==>
                  && (forall j :: 0 <= j < i ==>
                        AdmittedBetween(policy, order[j], r.measurements[order[j]], final, p, at))
                  && (forall j, k :: 0 <= j < k < i ==>
                        !(TailBetween(policy, order[j], r.measurements[order[j]], final, p)
                          && TailBetween(policy, order[k], r.measurements[order[k]], final, p)))
    {
      var name := order[i];
      var found, tail := JudgeBetween(policy, name, r.measurements[name], final, p, weight, at);
      failures := failures + found;
      if tail {
        if tailName.None? {
          tailName := Some(name);
        } else {
          failures := failures + [SecondTail(tailName.value, name)];
        }
      }
    }
  }

  method JudgeBetween(policy: Policy, name: string, limit: Limit, final: Artifact, p: PairedControl, weight: real,
                      ghost at: Moments)
    returns (failures: seq<Failure>, tail: bool)
    requires Weighs(weight, at)
    ensures failures == [] <==> AdmittedBetween(policy, name, limit, final, p, at)
    ensures tail <==> TailBetween(policy, name, limit, final, p)
  {
    hide Admitted, Tail;
    MatchesParsed(p.initial.measurements, name);
    MatchesParsed(p.control.measurements, name);
    MatchesParsed(final.measurements, name);
    failures, tail := EnforceMeasurement(
      policy, name, limit, Matches(p.initial.measurements, name), Matches(p.control.measurements, name),
      Matches(final.measurements, name), weight, at);
  }

  /** Enforces a reviewed ratchet on an artifact. Without a paired control every metric must pass statically; with one,
      acceptance is decided by the sandwich. The order of the loop never matters. */
  method EnforceRatchet(policy: Policy, artifact: Artifact, r: RatchetFile, paired: Option<PairedControl>,
                        order: seq<string>) returns (verdict: Verdict)
    requires Enumerates(order, r.measurements)
    ensures verdict.Accepted? <==>
              if paired.None? then StaticallyAccepts(policy, artifact, r)
              else SandwichAccepts(policy, artifact, r, paired.value)
  {
    hide ConditionsMet, ValidRatchet, Paired, StaticallyAdmits, AdmittedBetween, TailBetween, Weight;
    var refusal := CheckBefore(policy, artifact, r, paired);
    if refusal != Accepted {
      return refusal;
    }
    var failures: seq<Failure>;
    if paired.None? {
      failures := EnforceStatically(policy, artifact, r, order);
    } else {
      PairedOrdered(policy, artifact, paired.value, r);
      var at := Moments(
        paired.value.initial.createdAt.value, paired.value.control.createdAt.value, artifact.createdAt.value);
      WeightInside(at);
      failures := EnforceBetween(policy, artifact, r, paired.value, order, Weight(at), at);
    }
    verdict := if failures == [] then Accepted else Failed(failures);
  }

  lemma PairedOrdered(policy: Policy, final: Artifact, p: PairedControl, r: RatchetFile)
    requires Paired(policy, final, p, r)
    ensures Ordered(p.initial.createdAt, p.control.createdAt, final.createdAt)
  {
  }

  method CheckRatchet(policy: Policy, r: RatchetFile) returns (valid: bool)
    ensures valid <==> ValidRatchet(policy, r)
  {
    var names := policy.names;
    valid := && !names.blank(r.suite)
             && r.measurements != map[]
             && (forall name | name in r.measurements :: !names.blank(name) && ValidLimit(r.measurements[name]))
             && REQUIRED_ENVIRONMENT <= r.environment.Keys
             && REQUIRED_METADATA <= r.metadata.Keys;
  }

  method CheckConditions(policy: Policy, artifact: Artifact, r: RatchetFile) returns (failures: seq<Failure>)
    requires r.suite == PRODUCTION_SUITE ==> UniqueNames(Assessed(policy, artifact.measurements))
    ensures failures == [] <==> ConditionsMet(policy, artifact, r)
  {
    hide Typed, Assessed, UniqueNames, NameSet;
    failures := [];
    if artifact.suite != r.suite { failures := failures + [Condition("suite")]; }
    if exists k | k in r.environment :: k !in artifact.environment || artifact.environment[k] != r.environment[k] {
      failures := failures + [Condition("environment")];
    }
    if exists k | k in r.metadata :: k !in artifact.metadata || artifact.metadata[k] != r.metadata[k] {
      failures := failures + [Condition("metadata")];
    }
    if r.suite == PRODUCTION_SUITE && AssessedNames(policy, artifact) != r.measurements.Keys {
      failures := failures + [Condition("measurement set")];
    }
  }

  /** What is checked before any metric is compared. */
  method CheckBefore(policy: Policy, artifact: Artifact, r: RatchetFile, paired: Option<PairedControl>)
    returns (refusal: Verdict)
    ensures refusal == Accepted <==>
              && ValidRatchet(policy, r) && ConditionsMet(policy, artifact, r)
              && (paired.Some? ==> Paired(policy, artifact, paired.value, r))
  {
    hide ValidRatchet, Paired, Typed, Assessed, UniqueNames;
    var valid := CheckRatchet(policy, r);
    if !valid {
      return Aborted("Code graph performance ratchet is invalid.");
    }
    if r.suite == PRODUCTION_SUITE && !UniqueNames(Assessed(policy, artifact.measurements)) {
      return Aborted("Production ratchet artifacts require unique assessed measurement names.");
    }
    var failures := CheckConditions(policy, artifact, r);
    if paired.Some? {
      var pairs := CheckPairing(policy, artifact, paired.value, r);
      if !pairs { failures := failures + [Condition("pairing")]; }
    }
    refusal := if failures == [] then Accepted else Failed(failures);
  }

  method CheckPairing(policy: Policy, final: Artifact, p: PairedControl, r: RatchetFile) returns (ok: bool)
    ensures ok <==> Paired(policy, final, p, r)
  {
    hide Assessed, UniqueNames, Selected, PairsWith;
    var initialPairs := CheckPartner(policy, p.initial, p.expectedCandidateCommit, final, r);
    var controlPairs := CheckPartner(policy, p.control, p.expectedCommit, final, r);
    ok := && ExactCommit(p.expectedCandidateCommit) && ExactCommit(p.expectedCommit)
          && policy.evidenceComplete(final)
          && final.environment[Commit] == Text(p.expectedCandidateCommit)
          && p.control.environment[Commit] != final.environment[Commit]
          && p.control.suite == r.suite
          && policy.metadataKeys(final.metadata) <= final.metadata.Keys
          && UniqueNames(Assessed(policy, final.measurements))
          && initialPairs && controlPairs
          && Ordered(p.initial.createdAt, p.control.createdAt, final.createdAt);
  }

  method CheckPartner(policy: Policy, a: Artifact, commit: string, final: Artifact, r: RatchetFile) returns (ok: bool)
    ensures ok <==> PairsWith(policy, a, commit, final, r)
  {
    hide Assessed, UniqueNames, Selected;
    ok := && policy.evidenceComplete(a)
          && a.environment[Commit] == Text(commit)
          && a.suite == final.suite
          && (forall k | k in r.environment :: k in a.environment && a.environment[k] == r.environment[k])
          && (forall k | k in SAME_RUNNER_KEYS ::
                && k in a.metadata && k in final.metadata && a.metadata[k] == final.metadata[k]
                && a.metadata[k].Text? && a.metadata[k].s != "")
          && policy.metadataKeys(a.metadata) <= a.metadata.Keys
          && Selected(policy, a.metadata) == Selected(policy, final.metadata)
          && UniqueNames(Assessed(policy, a.measurements))
          && AssessedNames(policy, a) == AssessedNames(policy, final);
  }

  // ----- What acceptance means -----

  lemma BootstrapHasNoObjective()
    ensures Objective(BOOTSTRAP_PROCESS_COUNT).None?
  {
  }

  /** All three runs of an admitted metric attain its hard objective. */
  lemma HardObjectives(policy: Policy, name: string, limit: Limit, initials: seq<Measurement>,
                       controls: seq<Measurement>, finals: seq<Measurement>, at: Moments)
    requires Admitted(policy, name, limit, initials, controls, finals, at)
    requires Objective(name).Some?
    ensures |controls| == 1 && ObjectiveAttained(name, initials[0], controls[0], finals[0])
  {
    BootstrapHasNoObjective();
    hide MILLISECOND_TARGETS, Objective, Interpolated, Within, StaticFailures, HostSensitiveWall;
  }

  /** A metric whose name is reviewed for paired wall timing, limited by a p95 in milliseconds and nothing else. */
  predicate ReviewedWall(policy: Policy, name: string, limit: Limit) {
    && policy.names.pairedWall(name)
    && limit.p95Maximum.Some?
    && limit == Limit(Milliseconds, Some(1), None, None, None, None, Some(limit.p95Maximum.value), None)
  }

  lemma WallReviewed(policy: Policy, name: string, limit: Limit)
    ensures HostSensitiveWall(policy, name, limit) <==> ReviewedWall(policy, name, limit)
  {
  }

  /** An admitted metric passes statically in both candidate runs, or is the pinned bootstrap count, or is a reviewed
      wall metric. */
  lemma AdmittedKinds(policy: Policy, name: string, limit: Limit, initials: seq<Measurement>,
                      controls: seq<Measurement>, finals: seq<Measurement>, at: Moments)
    requires Admitted(policy, name, limit, initials, controls, finals, at)
    ensures || (Within(initials[0], limit) && Within(finals[0], limit))
            || (&& name == BOOTSTRAP_PROCESS_COUNT && limit.maximum == Some(4.0) && initials[0].maximum == 5.0
                && |controls| == 1 && Within(finals[0], limit) && Within(controls[0], limit))
            || (|controls| == 1 && ReviewedWall(policy, name, limit))
  {
    hide MILLISECOND_TARGETS, Objective, Interpolated, Within, StaticFailures, HostSensitiveWall, ReviewedWall;
    WallReviewed(policy, name, limit);
    NoFailuresWithin(finals[0], limit);
    if |controls| == 1 { NoFailuresWithin(controls[0], limit); }
  }

  /** A wall metric whose control exceeds the static limit: the p95 at the control's moment lies between the candidates
      and is at most the headroom limit of the control, and both candidates stay within the headroom limit of that. */
  lemma InterpolationBound(policy: Policy, name: string, initial: Measurement, control: Measurement,
                           final: Measurement, at: Moments)
    requires Parsed(initial) && Parsed(control) && Parsed(final) && at.initial < at.control < at.final
    requires Interpolated(policy, name, initial, control, final, at)
    ensures exists s: real :: OnLine(s, initial.p95, final.p95, at) && s <= HeadroomLimit(policy.names, name, control.p95)
    ensures forall s: real :: OnLine(s, initial.p95, final.p95, at) ==>
              Min(initial.p95, final.p95) <= s <= Max(initial.p95, final.p95)
    ensures var names := policy.names;
            Max(initial.p95, final.p95)
              <= HeadroomLimit(names, name, HeadroomLimit(names, name, control.p95))
  {
    hide MILLISECOND_TARGETS, HeadroomLimit, Objective;
    var lower := Min(initial.p95, final.p95);
    WeightInside(at);
    LeverLaw(initial, final, Weight(at), at);
    SandwichBetween(initial, final, Weight(at));
    assert OnLine(SandwichP95(initial, final, Weight(at)), initial.p95, final.p95, at);
    HeadroomMonotone(policy.names, name, lower, HeadroomLimit(policy.names, name, control.p95));
  }

  /** A final candidate over a limit that the control meets is let through only on the tail tolerance. */
  lemma OverWhileControlMeets(policy: Policy, name: string, limit: Limit, initials: seq<Measurement>,
                              controls: seq<Measurement>, finals: seq<Measurement>, at: Moments)
    requires Admitted(policy, name, limit, initials, controls, finals, at)
    requires |controls| == 1 && !Within(finals[0], limit) && Within(controls[0], limit)
    ensures Tail(policy, name, limit, initials, controls, finals)
    ensures limit.p95Maximum.Some? && Objective(name).None? && Within(initials[0], limit)
    ensures limit.p95Maximum.value < finals[0].p95
              <= limit.p95Maximum.value + Min(limit.p95Maximum.value * 0.01, 5.0)
  {
    hide MILLISECOND_TARGETS, Objective, Interpolated, Parsed;
    NoFailuresWithin(finals[0], limit);
  }

  /** What pairing is for: in a production sandwich every ratcheted metric occurs exactly once in all three runs, so no
      run can hide a metric or offer two values for it. */
  lemma RatchetedOnce(policy: Policy, final: Artifact, p: PairedControl, r: RatchetFile, name: string)
    requires Paired(policy, final, p, r) && ConditionsMet(policy, final, r)
    requires r.suite == PRODUCTION_SUITE && name in r.measurements
    ensures |Matches(p.initial.measurements, name)| == 1
    ensures |Matches(p.control.measurements, name)| == 1
    ensures |Matches(final.measurements, name)| == 1
  {
    hide Typed, Assessed, Matches, Selected, UniqueNames, NameSet;
    AssessedOnce(policy, p.initial, name);
    AssessedOnce(policy, p.control, name);
    AssessedOnce(policy, final, name);
  }

  /** And what it guarantees of the runs: two runs of one commit around a run of another, in strict order within forty
      minutes, on one identified runner, under every reviewed environment condition. */
  lemma PairedRuns(policy: Policy, final: Artifact, p: PairedControl, r: RatchetFile)
    requires Paired(policy, final, p, r)
    ensures p.initial.environment[Commit] == final.environment[Commit] != p.control.environment[Commit]
    ensures p.initial.createdAt.Some? && p.control.createdAt.Some? && final.createdAt.Some?
    ensures p.initial.createdAt.value < p.control.createdAt.value < final.createdAt.value
    ensures final.createdAt.value - p.initial.createdAt.value <= 40 * 60 * 1000
    ensures forall key :: key in {"runnerIdentity", "sameRunnerComparisonKey"} ==>
              && key in final.metadata && key in p.initial.metadata && key in p.control.metadata
              && final.metadata[key] == p.initial.metadata[key] == p.control.metadata[key] != Text("")
    ensures forall k :: k in r.environment ==>
              && k in p.initial.environment && p.initial.environment[k] == r.environment[k]
              && k in p.control.environment && p.control.environment[k] == r.environment[k]
  {
    hide Typed, Assessed, Selected, UniqueNames, AssessedNames;
    assert PairsWith(policy, p.initial, p.expectedCandidateCommit, final, r);
    assert PairsWith(policy, p.control, p.expectedCommit, final, r);
    forall key | key in {"runnerIdentity", "sameRunnerComparisonKey"}
      ensures && key in final.metadata && key in p.initial.metadata && key in p.control.metadata
              && final.metadata[key] == p.initial.metadata[key] == p.control.metadata[key] != Text("")
    {
      assert key in SAME_RUNNER_KEYS;
    }
  }

  /** Sandwich soundness. When enforcement with a paired control accepts: every metric is of an admissible kind, all
      three runs attain every hard objective, and a wall metric whose control is over the limit obeys the numeric bound.
      In a production sandwich the control's one measurement is always there. */
  lemma SandwichSound(policy: Policy, final: Artifact, r: RatchetFile, p: PairedControl, name: string)
    requires SandwichAccepts(policy, final, r, p) && name in r.measurements
    ensures var limit := r.measurements[name];
            var i, c, f := Matches(p.initial.measurements, name), Matches(p.control.measurements, name),
                           Matches(final.measurements, name);
            && |i| == |f| == 1 && f[0].unit == limit.unit && (r.suite == PRODUCTION_SUITE ==> |c| == 1)
            && (|| (Within(i[0], limit) && Within(f[0], limit))
                || (&& name == BOOTSTRAP_PROCESS_COUNT && limit.maximum == Some(4.0) && i[0].maximum == 5.0
                    && |c| == 1 && Within(f[0], limit) && Within(c[0], limit))
                || (|c| == 1 && ReviewedWall(policy, name, limit)))
            && (Objective(name).Some? ==> |c| == 1 && ObjectiveAttained(name, i[0], c[0], f[0]))
            && (|c| == 1 && !(Within(i[0], limit) && Within(f[0], limit)) && !Within(c[0], limit) ==>
                  var allowed := HeadroomLimit(policy.names, name, c[0].p95);
                  && (forall s: real :: OnLine(s, i[0].p95, f[0].p95, MomentsOf(final, p)) ==> s <= allowed)
                  && Max(i[0].p95, f[0].p95) <= HeadroomLimit(policy.names, name, allowed))
  {
    hide MILLISECOND_TARGETS, Objective, HeadroomLimit, Matches, Typed, ValidRatchet, ConditionsMet, Paired, Parsed,
         HostSensitiveWall, ReviewedWall, AdmittedWithControl, ObjectiveAttained, Within;
    var limit := r.measurements[name];
    var i, c, f := Matches(p.initial.measurements, name), Matches(p.control.measurements, name),
                   Matches(final.measurements, name);
    PairedOrdered(policy, final, p, r);
    var at := MomentsOf(final, p);
    assert AdmittedBetween(policy, name, limit, final, p, at);
    AdmittedKinds(policy, name, limit, i, c, f, at);
    if r.suite == PRODUCTION_SUITE { RatchetedOnce(policy, final, p, r, name); }
    if Objective(name).Some? { HardObjectives(policy, name, limit, i, c, f, at); }
    TypedMatches(p.initial, name);
    TypedMatches(p.control, name);
    TypedMatches(final, name);
    if |c| == 1 && !(Within(i[0], limit) && Within(f[0], limit)) && !Within(c[0], limit) {
      OverBoth(policy, name, limit, i[0], c[0], f[0], at);
      InterpolationBound(policy, name, i[0], c[0], f[0], at);
    }
  }

  lemma TypedMatches(a: Artifact, name: string)
    ensures forall i :: 0 <= i < |Matches(a.measurements, name)| ==> Parsed(Matches(a.measurements, name)[i])
  {
    MatchesParsed(a.measurements, name);
  }

  lemma OverBoth(policy: Policy, name: string, limit: Limit, initial: Measurement, control: Measurement,
                 final: Measurement, at: Moments)
    requires AdmittedWithControl(policy, name, limit, initial, control, final, at)
    requires !(Within(initial, limit) && Within(final, limit)) && !Within(control, limit)
    requires Parsed(initial) && Parsed(control) && Parsed(final)
    ensures Interpolated(policy, name, initial, control, final, at)
  {
    hide MILLISECOND_TARGETS, Objective, Interpolated;
    NoFailuresWithin(control, limit);
  }

  /** At most one metric is over its limit in the final run while the control meets it, and then by at most one per
      cent and five milliseconds. */
  lemma SingularTail(policy: Policy, final: Artifact, r: RatchetFile, p: PairedControl, a: string, b: string)
    requires SandwichAccepts(policy, final, r, p) && a in r.measurements && b in r.measurements
    requires OverFinalOnly(final, p, a, r.measurements[a]) && OverFinalOnly(final, p, b, r.measurements[b])
    ensures a == b
    ensures r.measurements[a].p95Maximum.Some?
    ensures var bound := r.measurements[a].p95Maximum.value;
            bound < Matches(final.measurements, a)[0].p95 <= bound + Min(bound * 0.01, 5.0)
  {
    hide Admitted, Tail, Within, Matches, Typed, ValidRatchet, ConditionsMet, Paired;
    var at := AdmittedAt(policy, final, r, p);
    forall name | name in {a, b} ensures TailBetween(policy, name, r.measurements[name], final, p) {
      assert AdmittedBetween(policy, name, r.measurements[name], final, p, at);
      OverWhileControlMeets(policy, name, r.measurements[name], Matches(p.initial.measurements, name),
                            Matches(p.control.measurements, name), Matches(final.measurements, name), at);
    }
    OverWhileControlMeets(policy, a, r.measurements[a], Matches(p.initial.measurements, a),
                          Matches(p.control.measurements, a), Matches(final.measurements, a), at);
    assert a in {a, b} && b in {a, b};
    assert TailBetween(policy, a, r.measurements[a], final, p) && TailBetween(policy, b, r.measurements[b], final, p);
  }

  lemma AdmittedAt(policy: Policy, final: Artifact, r: RatchetFile, p: PairedControl) returns (at: Moments)
    requires SandwichAccepts(policy, final, r, p)
    ensures forall name :: name in r.measurements ==>
              AdmittedBetween(policy, name, r.measurements[name], final, p, at)
  {
    hide AdmittedBetween, ValidRatchet, ConditionsMet;
    at := MomentsOf(final, p);
  }

  /** The final run is over the limit and the one control measurement meets it. */
  predicate OverFinalOnly(final: Artifact, p: PairedControl, name: string, limit: Limit) {
    && |Matches(p.control.measurements, name)| == 1 && Within(Matches(p.control.measurements, name)[0], limit)
    && |Matches(final.measurements, name)| == 1 && !Within(Matches(final.measurements, name)[0], limit)
  }
}
