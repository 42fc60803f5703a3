/** Benchmark measurements, reviewed limits on them, and the limits generated from repeated observations. */
module Ratchet {
  import opened Basics
  import opened Sorting

  datatype Unit = Bytes | Count | Milliseconds | OperationsPerSecond | Percent

  datatype Measurement = Measurement(
    name: string, unit: Unit, samples: nat, minimum: real, mean: real, p50: real, p95: real, p99: real, maximum: real)

  /** What parsing an artifact establishes for each of its measurements. */
  predicate Parsed(m: Measurement) {
    && m.samples >= 1
    && 0.0 <= m.minimum <= m.p50 <= m.p95 <= m.p99 <= m.maximum
    && m.mean >= 0.0
  }

  /** A single observation: every statistic is that observation. */
  predicate Flat(m: Measurement) {
    m.samples == 1 ==> m.minimum == m.mean == m.p50 == m.p95 == m.p99 == m.maximum
  }

  predicate LeqReal(a: real, b: real) {
    a <= b
  }

  function Sum(values: seq<real>): real {
    if values == [] then 0.0 else Sum(values[..|values| - 1]) + values[|values| - 1]
  }

  function PercentileIndex(count: nat, quantile: real): int
    requires count >= 1
  {
    var index := (count as real * quantile).Floor;
    if index < count - 1 then index else count - 1
  }

  /** Summarizes samples; refused when there are none or one is negative. */
  function BenchmarkMeasurement(name: string, unit: Unit, values: seq<real>): Option<Measurement> {
    if values == [] || (exists i :: 0 <= i < |values| && values[i] < 0.0) then None
    else
      var sorted := Sort(values, LeqReal);
      SortPermutes(values, LeqReal);
      Some(Summary(name, unit, sorted))
  }

  function Summary(name: string, unit: Unit, sorted: seq<real>): Measurement
    requires sorted != []
  {
    Measurement(name, unit, |sorted|, sorted[0], Sum(sorted) / |sorted| as real, Percentile(sorted, 0.5),
                Percentile(sorted, 0.95), Percentile(sorted, 0.99), sorted[|sorted| - 1])
  }

  function Percentile(sorted: seq<real>, quantile: real): real
    requires sorted != [] && quantile >= 0.0
  {
    IndexInRange(|sorted|, quantile);
    sorted[PercentileIndex(|sorted|, quantile)]
  }

  lemma IndexInRange(count: nat, quantile: real)
    requires count >= 1 && quantile >= 0.0
    ensures 0 <= PercentileIndex(count, quantile) < count
  {
    assert count as real * quantile >= 0.0;
  }

  /** The sample of that rank, the last one at most. */
  ghost predicate HasRank(sorted: seq<real>, value: real, quantile: real) {
    exists k :: 0 <= k < |sorted| && value == sorted[k]
      && k as real <= |sorted| as real * quantile
      && (k == |sorted| - 1 || |sorted| as real * quantile < (k + 1) as real)
  }

  lemma PercentileRank(sorted: seq<real>, quantile: real)
    requires sorted != [] && quantile >= 0.0
    ensures HasRank(sorted, Percentile(sorted, quantile), quantile)
  {
    IndexInRange(|sorted|, quantile);
    var k := PercentileIndex(|sorted|, quantile);
    assert Percentile(sorted, quantile) == sorted[k];
  }

  lemma IndexMonotone(count: nat, low: real, high: real)
    requires count >= 1 && low <= high
    ensures PercentileIndex(count, low) <= PercentileIndex(count, high)
  {
    assert count as real * low <= count as real * high;
  }

  lemma {:induction false} SumNonNegative(values: seq<real>)
    requires forall i :: 0 <= i < |values| ==> values[i] >= 0.0
    ensures Sum(values) >= 0.0
  {
    if values != [] { SumNonNegative(values[..|values| - 1]); }
  }

  lemma PercentileMonotone(sorted: seq<real>, low: real, high: real)
    requires sorted != [] && Sorted(sorted, LeqReal) && 0.0 <= low <= high
    ensures sorted[0] <= Percentile(sorted, low) <= Percentile(sorted, high) <= sorted[|sorted| - 1]
  {
    IndexInRange(|sorted|, low);
    IndexInRange(|sorted|, high);
    IndexMonotone(|sorted|, low, high);
    forall i, j | 0 <= i <= j < |sorted| ensures sorted[i] <= sorted[j] {
      if i < j { assert LeqReal(sorted[i], sorted[j]); }
    }
  }

  lemma SortedSummary(name: string, unit: Unit, sorted: seq<real>)
    requires sorted != [] && Sorted(sorted, LeqReal) && forall i :: 0 <= i < |sorted| ==> sorted[i] >= 0.0
    ensures Parsed(Summary(name, unit, sorted)) && Flat(Summary(name, unit, sorted))
  {
    hide Percentile;
    PercentileMonotone(sorted, 0.5, 0.95);
    PercentileMonotone(sorted, 0.95, 0.99);
    SumNonNegative(sorted);
    if |sorted| == 1 {
      assert sorted[..0] == [];
      assert Sum(sorted) == sorted[0];
    }
  }

  /** Every summary parses, and the summary of a single sample is flat. */
  lemma SummaryParses(name: string, unit: Unit, values: seq<real>)
    requires BenchmarkMeasurement(name, unit, values).Some?
    ensures Parsed(BenchmarkMeasurement(name, unit, values).value)
    ensures Flat(BenchmarkMeasurement(name, unit, values).value)
    ensures BenchmarkMeasurement(name, unit, values).value.samples == |values|
  {
    hide Percentile, Sort, Sum, Parsed, Flat;
    var sorted := Sort(values, LeqReal);
    SortPermutes(values, LeqReal);
    SortSorts(values, LeqReal);
    forall i | 0 <= i < |sorted| ensures sorted[i] >= 0.0 {
      assert sorted[i] in multiset(values);
    }
    SortedSummary(name, unit, sorted);
  }

  ghost predicate Averages(mean: real, values: seq<real>) {
    mean * |values| as real == Sum(values)
  }

  /** The ends, the average, and the samples of rank 50, 95 and 99 per cent of samples in ascending order. */
  ghost predicate Summarizes(m: Measurement, sorted: seq<real>) {
    && m.samples == |sorted| > 0 && Sorted(sorted, LeqReal)
    && m.minimum == sorted[0] && m.maximum == sorted[|sorted| - 1] && Averages(m.mean, sorted)
    && HasRank(sorted, m.p50, 0.5) && HasRank(sorted, m.p95, 0.95) && HasRank(sorted, m.p99, 0.99)
  }

  /** What a summary says of its samples. */
  lemma SummaryOfSamples(name: string, unit: Unit, values: seq<real>)
    requires BenchmarkMeasurement(name, unit, values).Some?
    ensures var m := BenchmarkMeasurement(name, unit, values).value;
            && m.name == name && m.unit == unit
            && exists sorted: seq<real> :: multiset(sorted) == multiset(values) && Summarizes(m, sorted)
  {
    var sorted := Sort(values, LeqReal);
    SortPermutes(values, LeqReal);
    SortSorts(values, LeqReal);
    hide Sort;
    SummarySummarizes(name, unit, sorted);
  }

  lemma SummarySummarizes(name: string, unit: Unit, sorted: seq<real>)
    requires sorted != [] && Sorted(sorted, LeqReal)
    ensures Summarizes(Summary(name, unit, sorted), sorted)
  {
    PercentileRank(sorted, 0.5);
    PercentileRank(sorted, 0.95);
    PercentileRank(sorted, 0.99);
    AverageOf(sorted);
    hide HasRank, Sorted, Percentile, Averages;
  }

  lemma AverageOf(values: seq<real>)
    requires values != []
    ensures Averages(Sum(values) / |values| as real, values)
  {
    hide Sum;
  }

  /** The summary of one non-negative observation, as the sandwich builds it. */
  lemma SingleSummary(name: string, unit: Unit, value: real)
    requires value >= 0.0
    ensures BenchmarkMeasurement(name, unit, [value])
         == Some(Measurement(name, unit, 1, value, value, value, value, value, value))
  {
    assert Sort([value], LeqReal) == [value];
    assert [value][..0] == [];
    assert Sum([value]) == value;
    IndexInRange(1, 0.5);
    IndexInRange(1, 0.95);
    IndexInRange(1, 0.99);
  }

  // ----- Limits -----

  datatype Limit = Limit(
    unit: Unit, samplesMinimum: Option<nat>, maximum: Option<real>, meanMaximum: Option<real>, minimum: Option<real>,
    p50Maximum: Option<real>, p95Maximum: Option<real>, p99Maximum: Option<real>)

  datatype Breach = TooFewSamples | MaximumOver | MeanOver | P50Over | P95Over | P99Over | MinimumUnder

  predicate Over(value: real, bound: Option<real>) {
    bound.Some? && value > bound.value
  }

  predicate Under(value: real, bound: Option<real>) {
    bound.Some? && value < bound.value
  }

  function StaticFailures(m: Measurement, limit: Limit): seq<Breach> {
    (if limit.samplesMinimum.Some? && m.samples < limit.samplesMinimum.value then [TooFewSamples] else [])
    + (if Over(m.maximum, limit.maximum) then [MaximumOver] else [])
    + (if Over(m.mean, limit.meanMaximum) then [MeanOver] else [])
    + (if Over(m.p50, limit.p50Maximum) then [P50Over] else [])
    + (if Over(m.p95, limit.p95Maximum) then [P95Over] else [])
    + (if Over(m.p99, limit.p99Maximum) then [P99Over] else [])
    + (if Under(m.minimum, limit.minimum) then [MinimumUnder] else [])
  }

  /** The measurement respects every bound of the limit. */
  predicate Within(m: Measurement, limit: Limit) {
    && (limit.samplesMinimum.Some? ==> m.samples >= limit.samplesMinimum.value)
    && !Over(m.maximum, limit.maximum) && !Over(m.mean, limit.meanMaximum) && !Over(m.p50, limit.p50Maximum)
    && !Over(m.p95, limit.p95Maximum) && !Over(m.p99, limit.p99Maximum) && !Under(m.minimum, limit.minimum)
  }

  lemma NoFailuresWithin(m: Measurement, limit: Limit)
    ensures StaticFailures(m, limit) == [] <==> Within(m, limit)
  {
  }

  /** The limit bounds nothing but the p95, besides the sample count. */
  predicate BoundsOnlyP95(limit: Limit) {
    && limit.maximum.None? && limit.meanMaximum.None? && limit.minimum.None?
    && limit.p50Maximum.None? && limit.p99Maximum.None?
  }

  // ----- Generated limits -----

  /** The name tests of the scripts, left open: every result holds for any classification of names. */
  datatype NamePolicy = NamePolicy(
    coverage: string -> bool, nonIncreasingWork: string -> bool, deterministic: string -> bool,
    detailedTiming: string -> bool, pairedWall: string -> bool, excluded: string -> bool, blank: string -> bool)

  const MAX_SAFE_INTEGER: real := 9007199254740991.0
  const COLD_REGISTRATION := "cold-registration-lock-and-database-setup"
  const SAME_OVERLAY_REGISTRATION := "same-overlay-reference-registration-lock-and-database-setup"

  const MILLISECOND_TARGETS: map<string, real> := map[
    "cold-index" := 3599999.0,
    "cold-registration-lock-and-database-setup" := 4999.0,
    "cold-reference-resolution-longest-transaction-n1" := 14999.0,
    "one-file-reindex-index" := 29999.0,
    "one-file-reindex-post-committed-scan-overlay-and-workspace" := 4999.0,
    "one-file-reindex-registration-lock-and-database-setup" := 4999.0,
    "one-file-reindex-reference-resolution-longest-transaction-n1" := 14999.0,
    "same-overlay-reference-registration-lock-and-database-setup" := 4999.0,
    "same-overlay-reference-reference-resolution-longest-transaction-n1" := 14999.0
  ]

  function Objective(name: string): Option<real> {
    if name in MILLISECOND_TARGETS then Some(MILLISECOND_TARGETS[name]) else None
  }

  function RelativeHeadroom(policy: NamePolicy, name: string): real {
    if name == COLD_REGISTRATION then 5.0
    else if name == SAME_OVERLAY_REGISTRATION then 2.0
    else if policy.detailedTiming(name) && Objective(name).None? then 0.75
    else 0.25
  }

  function AbsoluteHeadroom(policy: NamePolicy, name: string): real {
    if policy.detailedTiming(name) && Objective(name).None? then 300.0 else 100.0
  }

  function ObservedLimit(relative: real, absolute: real, maximum: real): real {
    if maximum == 0.0 then absolute else Ceil(Max(maximum * (1.0 + relative), maximum + absolute))
  }

  /** The p95 limit that an observed maximum earns a millisecond metric. */
  function HeadroomLimit(policy: NamePolicy, name: string, maximum: real): real {
    Min(ObservedLimit(RelativeHeadroom(policy, name), AbsoluteHeadroom(policy, name), maximum),
        if Objective(name).Some? then Objective(name).value else MAX_SAFE_INTEGER)
  }

  function Base(unit: Unit): Limit {
    Limit(unit, Some(1), None, None, None, None, None, None)
  }

  /** The reviewed limit generated for one metric from its repeated observations. */
  function MeasurementRatchet(policy: NamePolicy, name: string, unit: Unit, values: seq<real>): Result<Limit>
    requires values != []
  {
    var minimum, maximum := Minimum(values), Maximum(values);
    if unit == Count && policy.coverage(name) then Success(Base(unit).(minimum := Some(1.0)))
    else if unit == Count && policy.nonIncreasingWork(name) then Success(Base(unit).(maximum := Some(maximum)))
    else if unit == Count && policy.deterministic(name) then
      if minimum != maximum then Thrown("deterministic measurement disagrees")
      else Success(Base(unit).(maximum := Some(maximum), minimum := Some(minimum)))
    else match unit
      case Milliseconds =>
        if Objective(name).Some? && maximum > Objective(name).value then Thrown("objective has not been attained")
        else Success(Base(unit).(p95Maximum := Some(HeadroomLimit(policy, name, maximum))))
      case Bytes => Success(Base(unit).(p95Maximum := Some(Max(1048576.0, Ceil(maximum * 1.25)))))
      case OperationsPerSecond => Success(Base(unit).(minimum := Some(Floor(minimum * 0.75 * 1000.0) / 1000.0)))
      case Percent => Success(Base(unit).(minimum := Some(minimum)))
      case Count => Success(Base(unit).(maximum := Some(Ceil(maximum * 1.25))))
  }

  /** What a generated limit still asks of an observation it was built from. */
  predicate Admissible(policy: NamePolicy, name: string, unit: Unit, value: real) {
    && (unit == Count && policy.coverage(name) ==> value >= 1.0)
    && (unit == Milliseconds && Objective(name).None? ==> value <= MAX_SAFE_INTEGER)
  }

  lemma ObservedLimitAbove(relative: real, absolute: real, maximum: real)
    requires maximum >= 0.0 && relative >= 0.0 && absolute >= 0.0
    ensures ObservedLimit(relative, absolute, maximum) >= maximum
    ensures ObservedLimit(relative, absolute, maximum) >= absolute
  {
    CeilBounds(Max(maximum * (1.0 + relative), maximum + absolute));
  }

  lemma ObservedLimitMonotone(relative: real, absolute: real, low: real, high: real)
    requires 0.0 <= low <= high && relative >= 0.0 && absolute >= 0.0
    ensures ObservedLimit(relative, absolute, low) <= ObservedLimit(relative, absolute, high)
  {
    ObservedLimitAbove(relative, absolute, high);
    if low > 0.0 {
      assert low * (1.0 + relative) <= high * (1.0 + relative);
      CeilMonotone(Max(low * (1.0 + relative), low + absolute), Max(high * (1.0 + relative), high + absolute));
    }
  }

  lemma HeadroomMonotone(policy: NamePolicy, name: string, low: real, high: real)
    requires 0.0 <= low <= high
    ensures HeadroomLimit(policy, name, low) <= HeadroomLimit(policy, name, high)
  {
    hide MILLISECOND_TARGETS;
    ObservedLimitMonotone(RelativeHeadroom(policy, name), AbsoluteHeadroom(policy, name), low, high);
  }

  /** Generation admits what it was built from, in every unit and kind: a contributing observation passes the generated
      limit only when it is admissible, and always then if its statistics all repeat the observation. */
  lemma GeneratedLimitAdmits(policy: NamePolicy, name: string, unit: Unit, values: seq<real>, m: Measurement)
    requires m.unit == unit && m.samples == 1 && Parsed(m) && m.p50 in values
    requires forall v :: v in values ==> v >= 0.0
    requires MeasurementRatchet(policy, name, unit, values).Success?
    ensures Within(m, MeasurementRatchet(policy, name, unit, values).value) ==> Admissible(policy, name, unit, m.p50)
    ensures Flat(m) && Admissible(policy, name, unit, m.p50) ==>
              Within(m, MeasurementRatchet(policy, name, unit, values).value)
  {
    hide MILLISECOND_TARGETS;
    var minimum, maximum := Minimum(values), Maximum(values);
    assert minimum <= m.p50 <= maximum;
    match unit
    case Milliseconds =>
      ObservedLimitAbove(RelativeHeadroom(policy, name), AbsoluteHeadroom(policy, name), maximum);
    case Bytes =>
      CeilBounds(maximum * 1.25);
    case OperationsPerSecond =>
      assert Floor(minimum * 0.75 * 1000.0) <= minimum * 0.75 * 1000.0;
    case Percent =>
    case Count =>
      CeilBounds(maximum * 1.25);
  }

  /** What a generated limit lets through, said of any measurement and of the smallest and largest observation; slack is
      the room that rounding leaves. */
  predicate Allows(
    policy: NamePolicy, name: string, unit: Unit, smallest: real, largest: real, m: Measurement, slack: real)
  {
    if unit == Count && policy.coverage(name) then m.minimum >= 1.0
    else if unit == Count && policy.nonIncreasingWork(name) then m.maximum <= largest
    else if unit == Count && policy.deterministic(name) then smallest <= m.minimum && m.maximum <= largest
    else match unit
      case Milliseconds =>
        && m.p95 <= Tolerated(policy, name, largest) + slack
        && m.p95 <= if name in MILLISECOND_TARGETS then MILLISECOND_TARGETS[name] else 9007199254740991.0
      case Bytes => m.p95 <= Max(1048576.0, largest * 1.25 + slack)
      case OperationsPerSecond => m.minimum >= smallest * 0.75 - slack / 1000.0
      case Percent => m.minimum >= smallest
      case Count => m.maximum <= largest * 1.25 + slack
  }

  /** The reviewed growth of a millisecond observation: relative, but never less than the noise of its class. */
  function Tolerated(policy: NamePolicy, name: string, largest: real): real {
    if name == "cold-registration-lock-and-database-setup" then Max(largest * 6.0, largest + 100.0)
    else if name == "same-overlay-reference-registration-lock-and-database-setup" then Max(largest * 3.0, largest + 100.0)
    else if name in MILLISECOND_TARGETS || !policy.detailedTiming(name) then Max(largest * 1.25, largest + 100.0)
    else Max(largest * 1.75, largest + 300.0)
  }

  lemma HeadroomBand(policy: NamePolicy, name: string, largest: real) returns (slack: real)
    requires largest >= 0.0
    ensures 0.0 <= slack < 1.0
    ensures HeadroomLimit(policy, name, largest) == Min(Tolerated(policy, name, largest) + slack,
              if name in MILLISECOND_TARGETS then MILLISECOND_TARGETS[name] else 9007199254740991.0)
  {
    var tolerated := Tolerated(policy, name, largest);
    RegistrationTimed();
    hide MILLISECOND_TARGETS;
    CeilBounds(tolerated);
    slack := if largest == 0.0 then 0.0 else Ceil(tolerated) - tolerated;
  }

  lemma RegistrationTimed()
    ensures COLD_REGISTRATION in MILLISECOND_TARGETS && SAME_OVERLAY_REGISTRATION in MILLISECOND_TARGETS
  {
  }

  /** A generated limit is as tight as reviewed, in every unit and kind: up to less than one unit of rounding it lets
      through, of all measurements, exactly those inside the reviewed growth of the observations it was built from. */
  lemma GeneratedLimitBand(policy: NamePolicy, name: string, unit: Unit, values: seq<real>) returns (slack: real)
    requires values != [] && forall v :: v in values ==> v >= 0.0
    requires MeasurementRatchet(policy, name, unit, values).Success?
    ensures 0.0 <= slack < 1.0
    ensures forall m :: Parsed(m) ==>
              (Within(m, MeasurementRatchet(policy, name, unit, values).value)
               <==> Allows(policy, name, unit, Minimum(values), Maximum(values), m, slack))
  {
    var smallest, largest := Minimum(values), Maximum(values);
    hide Tolerated, HeadroomLimit, Minimum, Maximum, Parsed, MeasurementRatchet, Allows, Within;
    if unit == Milliseconds {
      slack := HeadroomBand(policy, name, largest);
    } else if unit == OperationsPerSecond {
      slack := smallest * 0.75 * 1000.0 - Floor(smallest * 0.75 * 1000.0);
    } else {
      CeilBounds(largest * 1.25);
      slack := Ceil(largest * 1.25) - largest * 1.25;
    }
    forall m | Parsed(m)
      ensures Within(m, MeasurementRatchet(policy, name, unit, values).value)
         <==> Allows(policy, name, unit, smallest, largest, m, slack)
    {
      WithinBand(policy, name, unit, values, m, slack);
    }
  }

  lemma WithinBand(policy: NamePolicy, name: string, unit: Unit, values: seq<real>, m: Measurement, slack: real)
    requires Parsed(m) && values != [] && MeasurementRatchet(policy, name, unit, values).Success?
    requires unit == Milliseconds ==>
               HeadroomLimit(policy, name, Maximum(values)) == Min(Tolerated(policy, name, Maximum(values)) + slack,
                 if name in MILLISECOND_TARGETS then MILLISECOND_TARGETS[name] else 9007199254740991.0)
    requires unit == OperationsPerSecond ==>
               slack == Minimum(values) * 0.75 * 1000.0 - Floor(Minimum(values) * 0.75 * 1000.0)
    requires unit != Milliseconds && unit != OperationsPerSecond ==>
               slack == Ceil(Maximum(values) * 1.25) - Maximum(values) * 1.25
    ensures Within(m, MeasurementRatchet(policy, name, unit, values).value)
       <==> Allows(policy, name, unit, Minimum(values), Maximum(values), m, slack)
  {
    hide MILLISECOND_TARGETS, Tolerated, HeadroomLimit, Minimum, Maximum, Ceil, Floor;
  }

  /** Bounds a reviewed ratchet file may carry. */
  predicate ValidLimit(limit: Limit) {
    && (limit.minimum.Some? || limit.maximum.Some? || limit.meanMaximum.Some? || limit.p50Maximum.Some?
        || limit.p95Maximum.Some? || limit.p99Maximum.Some?)
    && (limit.minimum.Some? && limit.maximum.Some? ==> limit.minimum.value <= limit.maximum.value)
    && (limit.samplesMinimum.Some? ==> limit.samplesMinimum.value >= 1)
    && NonNegative(limit.minimum) && NonNegative(limit.maximum) && NonNegative(limit.meanMaximum)
    && NonNegative(limit.p50Maximum) && NonNegative(limit.p95Maximum) && NonNegative(limit.p99Maximum)
  }

  predicate NonNegative(bound: Option<real>) {
    bound.Some? ==> bound.value >= 0.0
  }

  lemma HeadroomNonNegative(policy: NamePolicy, name: string, maximum: real)
    requires maximum >= 0.0
    ensures HeadroomLimit(policy, name, maximum) >= 0.0
  {
    ObjectivesPositive(name);
    hide MILLISECOND_TARGETS, Objective;
    ObservedLimitAbove(RelativeHeadroom(policy, name), AbsoluteHeadroom(policy, name), maximum);
  }

  lemma FloorNonNegative(x: real)
    requires x >= 0.0
    ensures Floor(x) / 1000.0 >= 0.0
  {
  }

  lemma GeneratedLimitValid(policy: NamePolicy, name: string, unit: Unit, values: seq<real>)
    requires values != [] && forall v :: v in values ==> v >= 0.0
    requires MeasurementRatchet(policy, name, unit, values).Success?
    ensures ValidLimit(MeasurementRatchet(policy, name, unit, values).value)
    ensures MeasurementRatchet(policy, name, unit, values).value.unit == unit
  {
    hide Objective, MILLISECOND_TARGETS, HeadroomLimit, Ceil, Floor;
    var minimum, maximum := Minimum(values), Maximum(values);
    HeadroomNonNegative(policy, name, maximum);
    CeilBounds(maximum * 1.25);
    FloorNonNegative(minimum * 0.75 * 1000.0);
  }

  lemma ObjectivesPositive(name: string)
    ensures Objective(name).Some? ==> Objective(name).value > 0.0
  {
  }
}
