/** The heavy-tail release ratchet: generated limits, their merge with the checked ones, and chains of releases. */
module HeavyTailRatchet {
  import opened Basics
  import opened Ratchet
  import opened ProductionRatchet

  type Limits = map<string, Limit>

  /** What the results leave open: the name tests of the generated limits, whether an artifact replays from its outer
      release evidence, and whether artifacts meet every other condition of a release (commit, runner, freshness, and the
      conditions that generation and the checked ratchet put on environment and metadata). */
  datatype HeavyPolicy = HeavyPolicy(
    replayed: ArtifactRecord -> bool, releasable: seq<ArtifactRecord> -> bool,
    averageConcurrency: string -> bool, scheduleDependent: string -> bool, reduction: string -> bool,
    retainedCoverage: string -> bool, pinnedFiles: string -> bool, reusedFiles: string -> bool,
    peakConcurrency: string -> bool, deterministic: string -> bool, sourceBytes: string -> bool)

  const NUMERIC_EPSILON := 0.000001
  const ELIGIBLE_FILES := 268.0
  const INTERRUPT_AFTER_FILES := 256.0

  function FloorThreshold(value: real): real {
    Floor(value * 1000.0) / 1000.0
  }

  /** The limit generated for one heavy-tail metric from its observations. */
  function HeavyTailMeasurementRatchet(policy: HeavyPolicy, name: string, unit: Unit, values: seq<real>): Limit
    requires values != []
  {
    var minimum, maximum := Minimum(values), Maximum(values);
    var base := Base(unit);
    if policy.averageConcurrency(name) then
      if policy.scheduleDependent(name) then base.(maximum := Some(Ceil(maximum - NUMERIC_EPSILON)))
      else base.(minimum := Some(FloorThreshold(minimum * 0.9)))
    else if policy.reduction(name) then base.(minimum := Some(FloorThreshold(minimum * 0.8)))
    else if policy.retainedCoverage(name) then base.(maximum := Some(100.0), minimum := Some(100.0))
    else if policy.pinnedFiles(name) then
      base.(maximum := Some(ELIGIBLE_FILES), minimum := Some(INTERRUPT_AFTER_FILES))
    else if policy.reusedFiles(name) then base.(maximum := Some(maximum), minimum := Some(minimum))
    else if policy.peakConcurrency(name) && policy.scheduleDependent(name) then base.(maximum := Some(maximum))
    else if policy.peakConcurrency(name) || policy.deterministic(name) then
      base.(maximum := Some(maximum), minimum := Some(minimum))
    else if unit == Bytes && policy.sourceBytes(name) then base.(maximum := Some(maximum), minimum := Some(minimum))
    else if unit == Milliseconds then
      base.(p95Maximum := Some(if maximum == 0.0 then 0.0 else Ceil(Max(maximum * 1.15, maximum + 5.0))))
    else if unit == Bytes then base.(p95Maximum := Some(Ceil(maximum * 1.15)))
    else base.(maximum := Some(Ceil(maximum * 1.05)))
  }

  function Whole(k: int): real {
    k as real
  }

  /** No integer lies from low up to, but below, high. */
  ghost predicate NoIntegerBetween(low: real, high: real) {
    forall k: int :: low <= Whole(k) ==> high <= Whole(k)
  }

  /** What the pinned kinds ask of an observation, given the largest one. The schedule-dependent average concurrency is
      rounded up after taking off an epsilon, so it must not lie just above an integer. */
  ghost predicate PinnedTo(policy: HeavyPolicy, name: string, largest: real, value: real) {
    if policy.averageConcurrency(name) then
      policy.scheduleDependent(name) ==> NoIntegerBetween(largest - NUMERIC_EPSILON, value)
    else if policy.reduction(name) then true
    else if policy.retainedCoverage(name) then value == 100.0
    else if policy.pinnedFiles(name) then INTERRUPT_AFTER_FILES <= value <= ELIGIBLE_FILES
    else true
  }

  /** Rounding up is the least integer above. */
  lemma CeilLeast(low: real, high: real)
    ensures high <= Ceil(low) <==> NoIntegerBetween(low, high)
  {
    var ceiling := -(-low).Floor;
    assert Whole(ceiling) == Ceil(low);
    CeilBounds(low);
    forall k: int | low <= Whole(k) ensures Whole(ceiling) <= Whole(k) {
      assert Whole(ceiling) < Whole(k + 1);
      IntegerOrder(ceiling, k);
    }
  }

  /** What a generated heavy-tail limit lets through, said of any measurement and of the smallest and largest observation;
      slack is the room that rounding leaves. */
  predicate HeavyAllows(
    policy: HeavyPolicy, name: string, unit: Unit, smallest: real, largest: real, m: Measurement, slack: real)
  {
    if policy.averageConcurrency(name) then
      if policy.scheduleDependent(name) then m.maximum <= largest - 0.000001 + slack
      else m.minimum >= smallest * 0.9 - slack / 1000.0
    else if policy.reduction(name) then m.minimum >= smallest * 0.8 - slack / 1000.0
    else if policy.retainedCoverage(name) then m.minimum == m.maximum == 100.0
    else if policy.pinnedFiles(name) then 256.0 <= m.minimum && m.maximum <= 268.0
    else if policy.reusedFiles(name) then smallest <= m.minimum && m.maximum <= largest
    else if policy.peakConcurrency(name) then
      m.maximum <= largest && (policy.scheduleDependent(name) || smallest <= m.minimum)
    else if policy.deterministic(name) || (unit == Bytes && policy.sourceBytes(name)) then
      smallest <= m.minimum && m.maximum <= largest
    else if unit == Milliseconds then
      m.p95 <= if largest == 0.0 then 0.0 else Max(largest * 1.15, largest + 5.0) + slack
    else if unit == Bytes then m.p95 <= largest * 1.15 + slack
    else m.maximum <= largest * 1.05 + slack
  }

  /** The unrounded bound of a kind that rounds: down to thousandths, or up. */
  function Unrounded(policy: HeavyPolicy, name: string, unit: Unit, smallest: real, largest: real): real {
    if policy.averageConcurrency(name) then
      if policy.scheduleDependent(name) then largest - NUMERIC_EPSILON else smallest * 0.9
    else if policy.reduction(name) then smallest * 0.8
    else if unit == Milliseconds then Max(largest * 1.15, largest + 5.0)
    else if unit == Bytes then largest * 1.15
    else largest * 1.05
  }

  predicate RoundsDown(policy: HeavyPolicy, name: string) {
    if policy.averageConcurrency(name) then !policy.scheduleDependent(name) else policy.reduction(name)
  }

  /** A generated heavy-tail limit is as tight as reviewed, in every kind: up to less than one unit of rounding it lets
      through, of all measurements, exactly those inside the reviewed growth of the observations. */
  lemma HeavyTailLimitBand(policy: HeavyPolicy, name: string, unit: Unit, values: seq<real>) returns (slack: real)
    requires values != []
    ensures 0.0 <= slack < 1.0
    ensures forall m :: Parsed(m) ==>
              (Within(m, HeavyTailMeasurementRatchet(policy, name, unit, values))
               <==> HeavyAllows(policy, name, unit, Minimum(values), Maximum(values), m, slack))
  {
    var exact := Unrounded(policy, name, unit, Minimum(values), Maximum(values));
    hide HeavyTailMeasurementRatchet, HeavyAllows, Within, Parsed, Unrounded, Minimum, Maximum;
    CeilBounds(exact);
    slack := if RoundsDown(policy, name) then exact * 1000.0 - Floor(exact * 1000.0) else Ceil(exact) - exact;
    forall m | Parsed(m)
      ensures Within(m, HeavyTailMeasurementRatchet(policy, name, unit, values))
         <==> HeavyAllows(policy, name, unit, Minimum(values), Maximum(values), m, slack)
    {
      HeavyWithinBand(policy, name, unit, values, m, slack);
    }
  }

  lemma HeavyWithinBand(policy: HeavyPolicy, name: string, unit: Unit, values: seq<real>, m: Measurement, slack: real)
    requires Parsed(m) && values != []
    requires var exact := Unrounded(policy, name, unit, Minimum(values), Maximum(values));
             slack == if RoundsDown(policy, name) then exact * 1000.0 - Floor(exact * 1000.0) else Ceil(exact) - exact
    ensures Within(m, HeavyTailMeasurementRatchet(policy, name, unit, values))
       <==> HeavyAllows(policy, name, unit, Minimum(values), Maximum(values), m, slack)
  {
    hide HeavyTailMeasurementRatchet, HeavyAllows, Within, Parsed, Unrounded, Minimum, Maximum, Ceil, Floor;
    if policy.averageConcurrency(name) || policy.reduction(name) {
      RatioWithinBand(policy, name, unit, values, m, slack);
    } else if CountKind(policy, name, unit) {
      CountWithinBand(policy, name, unit, values, m, slack);
    } else {
      GrowthWithinBand(policy, name, unit, values, m, slack);
    }
  }

  predicate CountKind(policy: HeavyPolicy, name: string, unit: Unit) {
    || policy.retainedCoverage(name) || policy.pinnedFiles(name) || policy.reusedFiles(name)
    || policy.peakConcurrency(name) || policy.deterministic(name) || (unit == Bytes && policy.sourceBytes(name))
  }

  lemma RatioWithinBand(policy: HeavyPolicy, name: string, unit: Unit, values: seq<real>, m: Measurement, slack: real)
    requires Parsed(m) && values != []
    requires var exact := Unrounded(policy, name, unit, Minimum(values), Maximum(values));
             slack == if RoundsDown(policy, name) then exact * 1000.0 - Floor(exact * 1000.0) else Ceil(exact) - exact
    requires policy.averageConcurrency(name) || policy.reduction(name)
    ensures Within(m, HeavyTailMeasurementRatchet(policy, name, unit, values))
       <==> HeavyAllows(policy, name, unit, Minimum(values), Maximum(values), m, slack)
  {
    hide Minimum, Maximum, Ceil, Floor, Parsed;
    SomeSample(m);
  }

  lemma CountWithinBand(policy: HeavyPolicy, name: string, unit: Unit, values: seq<real>, m: Measurement, slack: real)
    requires Parsed(m) && values != []
    requires var exact := Unrounded(policy, name, unit, Minimum(values), Maximum(values));
             slack == if RoundsDown(policy, name) then exact * 1000.0 - Floor(exact * 1000.0) else Ceil(exact) - exact
    requires !policy.averageConcurrency(name) && !policy.reduction(name) && CountKind(policy, name, unit)
    ensures Within(m, HeavyTailMeasurementRatchet(policy, name, unit, values))
       <==> HeavyAllows(policy, name, unit, Minimum(values), Maximum(values), m, slack)
  {
    hide Minimum, Maximum, Ceil, Floor, Parsed, Unrounded;
    SomeSample(m);
  }

  lemma GrowthWithinBand(policy: HeavyPolicy, name: string, unit: Unit, values: seq<real>, m: Measurement, slack: real)
    requires Parsed(m) && values != []
    requires var exact := Unrounded(policy, name, unit, Minimum(values), Maximum(values));
             slack == if RoundsDown(policy, name) then exact * 1000.0 - Floor(exact * 1000.0) else Ceil(exact) - exact
    requires !policy.averageConcurrency(name) && !policy.reduction(name) && !CountKind(policy, name, unit)
    ensures Within(m, HeavyTailMeasurementRatchet(policy, name, unit, values))
       <==> HeavyAllows(policy, name, unit, Minimum(values), Maximum(values), m, slack)
  {
    hide Minimum, Maximum, Ceil, Floor, Parsed;
    SomeSample(m);
  }

  lemma SomeSample(m: Measurement)
    requires Parsed(m)
    ensures m.samples >= 1 && m.minimum <= m.maximum
  {
  }

  /** A contributing observation passes the generated limit only when it meets what its kind is pinned to, and always
      then if its statistics all repeat the observation. */
  lemma HeavyTailLimitAdmits(policy: HeavyPolicy, name: string, unit: Unit, values: seq<real>, m: Measurement)
    requires m.samples == 1 && Parsed(m) && m.p50 in values
    requires forall v :: v in values ==> v >= 0.0
    ensures Within(m, HeavyTailMeasurementRatchet(policy, name, unit, values)) ==>
              PinnedTo(policy, name, Maximum(values), m.p50)
    ensures Flat(m) && PinnedTo(policy, name, Maximum(values), m.p50) ==>
              Within(m, HeavyTailMeasurementRatchet(policy, name, unit, values))
  {
    hide HeavyTailMeasurementRatchet, PinnedTo, Within;
    if Within(m, HeavyTailMeasurementRatchet(policy, name, unit, values)) {
      AdmittedIsPinned(policy, name, unit, values, m);
    }
    if Flat(m) && PinnedTo(policy, name, Maximum(values), m.p50) {
      PinnedIsAdmitted(policy, name, unit, values, m);
    }
  }

  lemma AdmittedIsPinned(policy: HeavyPolicy, name: string, unit: Unit, values: seq<real>, m: Measurement)
    requires m.samples == 1 && Parsed(m) && values != []
    requires Within(m, HeavyTailMeasurementRatchet(policy, name, unit, values))
    ensures PinnedTo(policy, name, Maximum(values), m.p50)
  {
    hide FloorThreshold, Ceil, Minimum, Maximum, NoIntegerBetween;
    CeilLeast(Maximum(values) - NUMERIC_EPSILON, m.p50);
  }

  lemma PinnedIsAdmitted(policy: HeavyPolicy, name: string, unit: Unit, values: seq<real>, m: Measurement)
    requires m.samples == 1 && Parsed(m) && Flat(m) && m.p50 in values
    requires forall v :: v in values ==> v >= 0.0
    requires PinnedTo(policy, name, Maximum(values), m.p50)
    ensures Within(m, HeavyTailMeasurementRatchet(policy, name, unit, values))
  {
    var smallest, largest := Minimum(values), Maximum(values);
    assert 0.0 <= smallest <= m.p50 <= largest;
    var exact := Unrounded(policy, name, unit, smallest, largest);
    var slack := if RoundsDown(policy, name) then exact * 1000.0 - Floor(exact * 1000.0) else Ceil(exact) - exact;
    hide HeavyTailMeasurementRatchet, Within, Minimum, Maximum, Ceil, Floor, NoIntegerBetween, Parsed;
    HeavyWithinBand(policy, name, unit, values, m, slack);
    CeilBounds(exact);
    CeilLeast(largest - NUMERIC_EPSILON, m.p50);
    assert Floor(exact * 1000.0) <= exact * 1000.0 by { FloorBelow(exact * 1000.0); }
  }

  lemma FloorBelow(x: real)
    ensures Floor(x) <= x
  {
  }

  // ----- Tightening -----

  function TighterUpperBound(generated: Option<real>, checked: Option<real>): Option<real> {
    if generated.None? then checked
    else if checked.None? then generated
    else Some(Min(generated.value, checked.value))
  }

  function TighterLowerBound(generated: Option<real>, checked: Option<real>): Option<real> {
    if generated.None? then checked
    else if checked.None? then generated
    else Some(Max(generated.value, checked.value))
  }

  function Samples(limit: Limit): nat {
    if limit.samplesMinimum.Some? then limit.samplesMinimum.value else 1
  }

  function Tightened(generated: Limit, checked: Limit): Limit {
    Limit(
      generated.unit,
      Some(if Samples(generated) < Samples(checked) then Samples(checked) else Samples(generated)),
      TighterUpperBound(generated.maximum, checked.maximum),
      TighterUpperBound(generated.meanMaximum, checked.meanMaximum),
      TighterLowerBound(generated.minimum, checked.minimum),
      TighterUpperBound(generated.p50Maximum, checked.p50Maximum),
      TighterUpperBound(generated.p95Maximum, checked.p95Maximum),
      TighterUpperBound(generated.p99Maximum, checked.p99Maximum))
  }

  /** Tightening is a meet: a measurement passes the merged limit exactly when it passes both. */
  lemma TighteningIsMeet(generated: Limit, checked: Limit, m: Measurement)
    requires Parsed(m)
    ensures Within(m, Tightened(generated, checked)) <==> Within(m, generated) && Within(m, checked)
  {
  }

  /** The limit kept for a generated name. */
  function Preserved(generated: Limits, checked: Limits, name: string): Limit
    requires name in generated
  {
    if name in checked && checked[name].unit == generated[name].unit
    then Tightened(generated[name], checked[name])
    else generated[name]
  }

  method PreserveCheckedLimits(generated: Limits, checked: Limits) returns (merged: Limits)
    ensures merged.Keys == generated.Keys
    ensures forall name :: name in generated ==> merged[name] == Preserved(generated, checked, name)
  {
    merged := map[];
    var rest := generated.Keys;
    while rest != {}
      invariant rest <= generated.Keys
      invariant merged.Keys == generated.Keys - rest
      invariant forall name :: name in merged ==> merged[name] == Preserved(generated, checked, name)
      decreases |rest|
    {
      var name :| name in rest;
      merged := merged[name := Preserved(generated, checked, name)];
      rest := rest - {name};
    }
  }

  predicate UpperNoWeaker(generated: Option<real>, checked: Option<real>) {
    checked.Some? ==> generated.Some? && generated.value <= checked.value
  }

  predicate LimitNoWeaker(generated: Limit, checked: Limit) {
    && generated.unit == checked.unit
    && UpperNoWeaker(generated.maximum, checked.maximum)
    && UpperNoWeaker(generated.meanMaximum, checked.meanMaximum)
    && UpperNoWeaker(generated.p50Maximum, checked.p50Maximum)
    && UpperNoWeaker(generated.p95Maximum, checked.p95Maximum)
    && UpperNoWeaker(generated.p99Maximum, checked.p99Maximum)
    && (checked.minimum.Some? ==> generated.minimum.Some? && generated.minimum.value >= checked.minimum.value)
    && (checked.samplesMinimum.Some? ==> Samples(generated) >= checked.samplesMinimum.value)
  }

  /** Every checked limit has a generated limit at least as tight. */
  predicate NoWeaker(generated: Limits, checked: Limits) {
    forall name :: name in checked ==> name in generated && LimitNoWeaker(generated[name], checked[name])
  }

  method AssertNoWeaker(generated: Limits, checked: Limits) returns (weaker: Option<string>)
    ensures weaker.None? <==> NoWeaker(generated, checked)
  {
    hide LimitNoWeaker;
    var rest := checked.Keys;
    while rest != {}
      invariant rest <= checked.Keys
      invariant forall name :: name in checked && name !in rest ==>
                  name in generated && LimitNoWeaker(generated[name], checked[name])
      decreases |rest|
    {
      var name :| name in rest;
      if name !in generated || !LimitNoWeaker(generated[name], checked[name]) {
        return Some(name);
      }
      rest := rest - {name};
    }
    return None;
  }

  /** Every limited metric occurs once, in the limited unit, within its limit. */
  ghost predicate AdmitsAll(limits: Limits, a: Artifact) {
    forall name :: name in limits ==> StaticallyAdmits(a, name, limits[name])
  }

  /** A ratchet that is no weaker admits no artifact that the other one rejects. */
  lemma NoWeakerShrinks(generated: Limits, checked: Limits, a: Artifact)
    requires NoWeaker(generated, checked) && AdmitsAll(generated, a)
    ensures AdmitsAll(checked, a)
  {
    hide Matches, Typed;
    forall name | name in checked ensures StaticallyAdmits(a, name, checked[name]) {
      assert StaticallyAdmits(a, name, generated[name]);
      OnlyMatchParsed(a, name);
    }
  }

  lemma OnlyMatchParsed(a: Artifact, name: string)
    requires |Matches(a.measurements, name)| == 1
    ensures Parsed(Matches(a.measurements, name)[0])
  {
    MatchesParsed(a.measurements, name);
  }

  // ----- Generation and release -----

  function NamesOf(ms: seq<Measurement>): seq<string> {
    seq(|ms|, i requires 0 <= i < |ms| => ms[i].name)
  }

  /** The first match of the name is a single observation in the same unit as the first artifact's first match. */
  predicate ObservedLike(a: ArtifactRecord, first: ArtifactRecord, name: string) {
    && Matches(a.measurements, name) != [] && Matches(first.measurements, name) != []
    && FirstMatch(a, name).samples == 1
    && FirstMatch(a, name).unit == FirstMatch(first, name).unit
  }

  /** Three artifacts that measure the same names, each metric observed once and in one unit. */
  predicate Comparable(standards: seq<Artifact>) {
    && |standards| == 3
    && (forall i :: 0 <= i < |standards| ==>
          multiset(NamesOf(standards[i].measurements)) == multiset(NamesOf(standards[0].measurements)))
    && (forall i, name :: 0 <= i < |standards| && name in NameSet(standards[0].measurements) ==>
          ObservedLike(standards[i], standards[0], name))
  }

  function FirstMatch(a: ArtifactRecord, name: string): Measurement
    requires Matches(a.measurements, name) != []
  {
    Matches(a.measurements, name)[0]
  }

  function Medians(standards: seq<Artifact>, name: string): (values: seq<real>)
    requires Comparable(standards) && name in NameSet(standards[0].measurements)
    ensures |values| == 3 && forall i :: 0 <= i < 3 ==> values[i] == FirstMatch(standards[i], name).p50
  {
    [FirstMatch(standards[0], name).p50, FirstMatch(standards[1], name).p50, FirstMatch(standards[2], name).p50]
  }

  function GeneratedHeavyLimit(policy: HeavyPolicy, standards: seq<Artifact>, name: string): Limit
    requires Comparable(standards) && name in NameSet(standards[0].measurements)
  {
    HeavyTailMeasurementRatchet(policy, name, FirstMatch(standards[0], name).unit, Medians(standards, name))
  }

  function CreateHeavyTailLimits(policy: HeavyPolicy, standards: seq<Artifact>): (limits: Limits)
    requires Comparable(standards)
    ensures limits.Keys == NameSet(standards[0].measurements)
  {
    map name | name in NameSet(standards[0].measurements) :: GeneratedHeavyLimit(policy, standards, name)
  }

  lemma GeneratedUnit(policy: HeavyPolicy, standards: seq<Artifact>, name: string)
    requires Comparable(standards) && name in NameSet(standards[0].measurements)
    ensures GeneratedHeavyLimit(policy, standards, name).unit == FirstMatch(standards[0], name).unit
    ensures GeneratedHeavyLimit(policy, standards, name).samplesMinimum == Some(1)
  {
    hide FloorThreshold, Ceil, Minimum, Maximum, Medians, Comparable, FirstMatch;
  }

  lemma {:induction false} MatchedName(ms: seq<Measurement>, name: string)
    requires Matches(ms, name) != []
    ensures name in NameSet(ms)
  {
    if ms[|ms| - 1].name != name {
      MatchedName(ms[..|ms| - 1], name);
      var i :| 0 <= i < |ms| - 1 && ms[..|ms| - 1][i].name == name;
      assert ms[i].name == name;
    }
  }

  lemma TightenedNoWeaker(generated: Limit, checked: Limit)
    requires generated.unit == checked.unit
    ensures LimitNoWeaker(Tightened(generated, checked), checked)
  {
  }

  /** Once the first artifact passed the checked limits, the merged limits cannot be weaker than them. */
  lemma MergedNoWeaker(policy: HeavyPolicy, standards: seq<Artifact>, checked: Limits, merged: Limits)
    requires Comparable(standards) && AdmitsAll(checked, standards[0])
    requires var generated := CreateHeavyTailLimits(policy, standards);
             merged.Keys == generated.Keys
             && forall name :: name in generated ==> merged[name] == Preserved(generated, checked, name)
    ensures NoWeaker(merged, checked)
  {
    hide Tightened, LimitNoWeaker, Matches, HeavyTailMeasurementRatchet, NameSet, Within;
    var generated := CreateHeavyTailLimits(policy, standards);
    forall name | name in checked ensures name in merged && LimitNoWeaker(merged[name], checked[name]) {
      assert StaticallyAdmits(standards[0], name, checked[name]);
      MatchedName(standards[0].measurements, name);
      GeneratedUnit(policy, standards, name);
      TightenedNoWeaker(generated[name], checked[name]);
    }
  }

  /** Release evidence replays to single observations as the benchmark summarizes them. */
  ghost predicate ReviewedHeavyPolicy(policy: HeavyPolicy) {
    forall a: ArtifactRecord, i :: policy.replayed(a) && 0 <= i < |a.measurements| ==> Flat(a.measurements[i])
  }

  ghost predicate Replayed(policy: HeavyPolicy, standards: seq<Artifact>) {
    forall i :: 0 <= i < |standards| ==> policy.replayed(standards[i])
  }

  /** Each metric of the artifact occurs once and meets what its kind is pinned to. */
  ghost predicate MeetsPins(policy: HeavyPolicy, standards: seq<Artifact>, i: nat)
    requires Comparable(standards) && i < 3
  {
    && UniqueNames(standards[i].measurements)
    && forall name :: name in NameSet(standards[0].measurements) ==>
         PinnedTo(policy, name, Maximum(Medians(standards, name)), FirstMatch(standards[i], name).p50)
  }

  lemma {:induction false} OnceMeansUnique(ms: seq<Measurement>)
    requires forall name :: name in NameSet(ms) ==> |Matches(ms, name)| == 1
    ensures UniqueNames(ms)
  {
    if ms != [] {
      var before, last := ms[..|ms| - 1], ms[|ms| - 1];
      NameSetGrows(ms, |ms| - 1);
      assert ms[..|ms|] == ms;
      forall name | name in NameSet(before) ensures |Matches(before, name)| == 1 && name != last.name {
        Occurs(before, name);
      }
      OnceMeansUnique(before);
      forall i | 0 <= i < |before| ensures ms[i].name != last.name {
        assert before[i].name in NameSet(before);
      }
    }
  }

  lemma {:induction false} Occurs(ms: seq<Measurement>, name: string)
    requires name in NameSet(ms)
    ensures Matches(ms, name) != []
  {
    if ms[|ms| - 1].name != name {
      var i :| 0 <= i < |ms| && ms[i].name == name;
      assert ms[..|ms| - 1][i].name == name;
      Occurs(ms[..|ms| - 1], name);
    }
  }

  lemma SameNames(standards: seq<Artifact>, i: nat)
    requires Comparable(standards) && i < 3
    ensures NameSet(standards[i].measurements) == NameSet(standards[0].measurements)
  {
    hide ObservedLike;
    var x, y := standards[i].measurements, standards[0].measurements;
    assert multiset(NamesOf(x)) == multiset(NamesOf(y));
    forall name ensures name in NameSet(x) <==> name in NameSet(y) {
      NamedIn(x, name);
      NamedIn(y, name);
    }
  }

  lemma NamedIn(ms: seq<Measurement>, name: string)
    ensures name in NameSet(ms) <==> name in multiset(NamesOf(ms))
  {
    assert name in multiset(NamesOf(ms)) <==> name in NamesOf(ms);
    if i :| 0 <= i < |ms| && ms[i].name == name { assert NamesOf(ms)[i] == name; }
  }

  /** The generated limits admit an artifact they were generated from exactly when it meets the pins. */
  lemma OwnEvidenceAdmitted(policy: HeavyPolicy, standards: seq<Artifact>, i: nat)
    requires ReviewedHeavyPolicy(policy) && Comparable(standards) && Replayed(policy, standards) && i < 3
    ensures AdmitsAll(CreateHeavyTailLimits(policy, standards), standards[i]) <==> MeetsPins(policy, standards, i)
  {
    hide PinnedTo, Maximum, Within, HeavyTailMeasurementRatchet, Matches, UniqueNames, NameSet, Typed;
    var a, limits := standards[i], CreateHeavyTailLimits(policy, standards);
    SameNames(standards, i);
    forall name | name in limits
      ensures StaticallyAdmits(a, name, limits[name]) <==>
                && |Matches(a.measurements, name)| == 1
                && PinnedTo(policy, name, Maximum(Medians(standards, name)), FirstMatch(a, name).p50)
    {
      OwnMetricAdmitted(policy, standards, i, name);
    }
    if UniqueNames(a.measurements) {
      forall name | name in limits ensures |Matches(a.measurements, name)| == 1 {
        UniqueMatches(a.measurements, name);
      }
    }
    if AdmitsAll(limits, a) {
      forall name | name in NameSet(a.measurements) ensures |Matches(a.measurements, name)| == 1 {
        assert StaticallyAdmits(a, name, limits[name]);
      }
      OnceMeansUnique(a.measurements);
    }
  }

  lemma OwnMetricAdmitted(policy: HeavyPolicy, standards: seq<Artifact>, i: nat, name: string)
    requires ReviewedHeavyPolicy(policy) && Comparable(standards) && Replayed(policy, standards) && i < 3
    requires name in NameSet(standards[0].measurements)
    ensures StaticallyAdmits(standards[i], name, GeneratedHeavyLimit(policy, standards, name)) <==>
              && |Matches(standards[i].measurements, name)| == 1
              && PinnedTo(policy, name, Maximum(Medians(standards, name)), FirstMatch(standards[i], name).p50)
  {
    hide PinnedTo, Maximum, Within, HeavyTailMeasurementRatchet, Matches, NameSet, Typed;
    var a, values := standards[i], Medians(standards, name);
    assert ObservedLike(a, standards[0], name);
    GeneratedUnit(policy, standards, name);
    forall k | 0 <= k < 3 ensures values[k] >= 0.0 {
      assert ObservedLike(standards[k], standards[0], name);
      FirstParsed(standards[k], name);
    }
    FirstParsed(a, name);
    assert values[i] == FirstMatch(a, name).p50;
    HeavyTailLimitAdmits(policy, name, FirstMatch(standards[0], name).unit, values, FirstMatch(a, name));
  }

  lemma FirstParsed(a: Artifact, name: string)
    requires Matches(a.measurements, name) != []
    ensures Parsed(FirstMatch(a, name)) && FirstMatch(a, name).p50 >= 0.0
    ensures FirstMatch(a, name) in a.measurements
  {
    MatchesParsed(a.measurements, name);
    MatchesIncluded(a.measurements, name);
  }

  /** Release admission. It succeeds exactly when the three artifacts replay, meet the other conditions of a release, are
      comparable and all pass the checked limits: the closing no-weaker assertion never refuses. The released limits
      admit exactly the artifacts that both the generated and the checked limits admit, and each of the three artifacts
      themselves exactly when it meets the pins. */
  method ReleaseRatchet(policy: HeavyPolicy, standards: seq<Artifact>, checked: Limits) returns (r: Result<Limits>)
    ensures r.Success? <==>
              && Replayed(policy, standards) && policy.releasable(standards) && Comparable(standards)
              && forall i :: 0 <= i < |standards| ==> AdmitsAll(checked, standards[i])
    ensures r.Success? ==> NoWeaker(r.value, checked)
    ensures r.Success? ==> forall a: Artifact ::
              AdmitsAll(r.value, a) <==> AdmitsAll(CreateHeavyTailLimits(policy, standards), a) && AdmitsAll(checked, a)
    ensures r.Success? && ReviewedHeavyPolicy(policy) ==>
              forall i :: 0 <= i < 3 ==> (AdmitsAll(r.value, standards[i]) <==> MeetsPins(policy, standards, i))
  {
    hide Comparable, StaticallyAdmits, LimitNoWeaker, Tightened, GeneratedHeavyLimit, Typed, MeetsPins;
    if !policy.releasable(standards) {
      return Thrown("Heavy-tail release evidence does not meet the conditions of a release.");
    }
    if !Comparable(standards) {
      return Thrown("Heavy-tail ratchet artifacts do not share one contract.");
    }
    var generated := CreateHeavyTailLimits(policy, standards);
    for i := 0 to |standards|
      invariant forall j :: 0 <= j < i ==> policy.replayed(standards[j]) && AdmitsAll(checked, standards[j])
    {
      if !policy.replayed(standards[i]) {
        return Thrown("Heavy-tail release evidence outer and embedded contracts are inconsistent.");
      }
      if exists name | name in checked :: !StaticallyAdmits(standards[i], name, checked[name]) {
        return Thrown("Code graph performance ratchet failed.");
      }
    }
    var merged := PreserveCheckedLimits(generated, checked);
    ComparableSize(standards);
    MergedNoWeaker(policy, standards, checked, merged);
    var weaker := AssertNoWeaker(merged, checked);
    if weaker.Some? {
      return Thrown("Generated heavy-tail ratchet is weaker than the checked ratchet.");
    }
    forall a: Artifact ensures AdmitsAll(merged, a) <==> AdmitsAll(generated, a) && AdmitsAll(checked, a) {
      MergedMeet(generated, checked, merged, a);
    }
    ghost var reviewed := ReviewedHeavyPolicy(policy);
    if reviewed {
      forall i | 0 <= i < 3 ensures AdmitsAll(merged, standards[i]) <==> MeetsPins(policy, standards, i) {
        OwnEvidenceAdmitted(policy, standards, i);
      }
    }
    return Success(merged);
  }

  lemma ComparableSize(standards: seq<Artifact>)
    requires Comparable(standards)
    ensures |standards| == 3
  {
  }

  /** The meet, for whole ratchets. */
  lemma MergedMeet(generated: Limits, checked: Limits, merged: Limits, a: Artifact)
    requires merged.Keys == generated.Keys && NoWeaker(merged, checked)
    requires forall name :: name in generated ==> merged[name] == Preserved(generated, checked, name)
    ensures AdmitsAll(merged, a) <==> AdmitsAll(generated, a) && AdmitsAll(checked, a)
  {
    hide Matches, Tightened, Within, Typed;
    forall name | name in generated
      ensures StaticallyAdmits(a, name, merged[name]) <==>
                && StaticallyAdmits(a, name, generated[name])
                && (name in checked && checked[name].unit == generated[name].unit ==>
                      StaticallyAdmits(a, name, checked[name]))
    {
      if name in checked && checked[name].unit == generated[name].unit && |Matches(a.measurements, name)| == 1 {
        OnlyMatchParsed(a, name);
        TighteningIsMeet(generated[name], checked[name], Matches(a.measurements, name)[0]);
        TightenedUnit(generated[name], checked[name]);
      }
    }
    forall name | name in checked ensures name in generated && checked[name].unit == generated[name].unit {
      assert LimitNoWeaker(merged[name], checked[name]);
      if checked[name].unit == generated[name].unit { TightenedUnit(generated[name], checked[name]); }
    }
  }

  lemma TightenedUnit(generated: Limit, checked: Limit)
    ensures Tightened(generated, checked).unit == generated.unit
  {
  }

  /** A chain of releases, each one no weaker than the one before. */
  ghost predicate Chain(releases: seq<Limits>) {
    forall i :: 0 <= i < |releases| - 1 ==> NoWeaker(releases[i + 1], releases[i])
  }

  /** Over any chain of releases the admitted set only shrinks. */
  lemma {:induction false} ChainShrinks(releases: seq<Limits>, i: nat, j: nat, a: Artifact)
    requires Chain(releases) && i <= j < |releases| && AdmitsAll(releases[j], a)
    ensures AdmitsAll(releases[i], a)
    decreases j - i
  {
    if i < j {
      NoWeakerShrinks(releases[j], releases[j - 1], a);
      ChainShrinks(releases, i, j - 1, a);
    }
  }
}
