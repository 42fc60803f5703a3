/** Ratchet generation from repeated governed artifacts, and what accepting an artifact statically means. */
module ProductionRatchet {
  import opened Basics
  import opened Ratchet

  datatype Primitive = Boolean(b: bool) | Number(n: real) | Text(s: string)

  /** The primitive fields of an artifact's environment; any other key a ratchet may name has no value. */
  datatype EnvKey =
    | Architecture | Commit | Cpu | Dirty | FixtureHash | MemoryBytes | Node | OperatingSystem | PackageManager
    | Runner | RunnerVersion | OtherKey(name: string)

  type Metadata = map<string, Primitive>

  datatype ArtifactRecord = ArtifactRecord(
    suite: string, environment: map<EnvKey, Primitive>, metadata: Metadata, measurements: seq<Measurement>,
    createdAt: Option<int>)

  const ENVIRONMENT_KEYS: set<EnvKey> := {
    Architecture, Commit, Cpu, Dirty, FixtureHash, MemoryBytes, Node, OperatingSystem, PackageManager, Runner,
    RunnerVersion}

  /** The shape that parsing guarantees. */
  predicate Typed(a: ArtifactRecord) {
    && ENVIRONMENT_KEYS <= a.environment.Keys
    && forall i :: 0 <= i < |a.measurements| ==> Parsed(a.measurements[i])
  }

  type Artifact = a: ArtifactRecord | Typed(a)
    witness ArtifactRecord("", map k: EnvKey | k in ENVIRONMENT_KEYS :: Text(""), map[], [], None)

  datatype RatchetFile = RatchetFile(
    suite: string, environment: map<EnvKey, Primitive>, metadata: Metadata, measurements: map<string, Limit>)

  /** Everything about evidence, storage and metadata selection that the results leave open. */
  datatype Policy = Policy(
    names: NamePolicy,
    evidenceComplete: ArtifactRecord -> bool,
    metadataKeys: Metadata -> set<string>,
    storageGoverned: Metadata -> bool,
    identity: ArtifactRecord -> string)

  const PRODUCTION_SUITE := "code-graph-production-large-v2"
  /** One of the measurements that complete evidence must hold; it is assessed. */
  const ALWAYS_MEASURED := "cold-materialization"

  /** A plain record takes an assignment to this key for its prototype, and gains no entry. */
  const PROTOTYPE := "__proto__"

  const REQUIRED_METADATA: set<string> := {"runnerClass", "runtimePlatform", "vectorEnabled"}
  const REQUIRED_ENVIRONMENT: set<EnvKey> := {FixtureHash, Node, Runner, RunnerVersion}
  const RATCHETED_ENVIRONMENT: set<EnvKey> := {
    Architecture, Dirty, FixtureHash, Node, PackageManager, Runner, RunnerVersion}


  // ----- Assessed measurements -----

  function Assessed(policy: Policy, ms: seq<Measurement>): seq<Measurement> {
    if ms == [] then []
    else
      var rest := Assessed(policy, ms[..|ms| - 1]);
      if policy.names.excluded(ms[|ms| - 1].name) then rest else rest + [ms[|ms| - 1]]
  }

  predicate UniqueNames(ms: seq<Measurement>) {
    forall i, j :: 0 <= i < j < |ms| ==> ms[i].name != ms[j].name
  }

  function NameSet(ms: seq<Measurement>): set<string> {
    set i | 0 <= i < |ms| :: ms[i].name
  }

  /** The assessed names of an artifact. Sorted lists of unique names agree exactly when these sets do. */
  function AssessedNames(policy: Policy, a: ArtifactRecord): set<string> {
    NameSet(Assessed(policy, a.measurements))
  }

  /** What the open parts of a policy keep to: the selected metadata always includes the keys every ratchet must condition
      on, the suite has a name, and complete evidence assesses the required measurement. */
  ghost predicate ReviewedPolicy(policy: Policy) {
    && (forall m: Metadata :: REQUIRED_METADATA <= policy.metadataKeys(m))
    && !policy.names.blank(PRODUCTION_SUITE)
    && forall a: ArtifactRecord :: policy.evidenceComplete(a) ==> ALWAYS_MEASURED in AssessedNames(policy, a)
  }

  /** All measurements of that name, in order. */
  function Matches(ms: seq<Measurement>, name: string): seq<Measurement> {
    if ms == [] then []
    else
      var rest := Matches(ms[..|ms| - 1], name);
      if ms[|ms| - 1].name == name then rest + [ms[|ms| - 1]] else rest
  }

  /** The index of all measurements by name. */
  method BenchmarkMeasurementsByName(artifact: Artifact) returns (byName: map<string, seq<Measurement>>)
    ensures forall name :: name in byName <==> Matches(artifact.measurements, name) != []
    ensures forall name :: name in byName ==> byName[name] == Matches(artifact.measurements, name)
  {
    byName := map[];
    var ms := artifact.measurements;
    for i := 0 to |ms|
      invariant forall name :: name in byName <==> Matches(ms[..i], name) != []
      invariant forall name :: name in byName ==> byName[name] == Matches(ms[..i], name)
    {
      assert ms[..i + 1][..i] == ms[..i];
      var matches := if ms[i].name in byName then byName[ms[i].name] else [];
      byName := byName[ms[i].name := matches + [ms[i]]];
    }
    assert ms[..|ms|] == ms;
  }

  lemma {:induction false} AssessedMatches(policy: Policy, ms: seq<Measurement>, name: string)
    requires !policy.names.excluded(name)
    ensures Matches(Assessed(policy, ms), name) == Matches(ms, name)
  {
    if ms != [] {
      AssessedMatches(policy, ms[..|ms| - 1], name);
      var rest := Assessed(policy, ms[..|ms| - 1]);
      if !policy.names.excluded(ms[|ms| - 1].name) {
        assert (rest + [ms[|ms| - 1]])[..|rest|] == rest;
      }
    }
  }

  lemma {:induction false} AssessedIncluded(policy: Policy, ms: seq<Measurement>)
    ensures forall i :: 0 <= i < |Assessed(policy, ms)| ==>
              !policy.names.excluded(Assessed(policy, ms)[i].name) && Assessed(policy, ms)[i] in ms
  {
    if ms != [] { AssessedIncluded(policy, ms[..|ms| - 1]); }
  }

  lemma {:induction false} UniqueMatches(ms: seq<Measurement>, name: string)
    requires UniqueNames(ms)
    ensures name !in NameSet(ms) ==> Matches(ms, name) == []
    ensures name in NameSet(ms) ==>
              |Matches(ms, name)| == 1 && Matches(ms, name)[0] in ms && Matches(ms, name)[0].name == name
  {
    if ms != [] {
      var before, last := ms[..|ms| - 1], ms[|ms| - 1];
      UniqueMatches(before, name);
      if name in NameSet(ms) && last.name != name {
        var i :| 0 <= i < |ms| && ms[i].name == name;
        assert before[i].name == name;
      }
      if name in NameSet(before) {
        var i :| 0 <= i < |before| && before[i].name == name;
        assert ms[i].name == name;
      }
    }
  }

  /** The matches are all measurements of the name, each as often as it occurs. */
  lemma {:induction false} MatchesOccurrences(ms: seq<Measurement>, name: string, m: Measurement)
    ensures multiset(Matches(ms, name))[m] == if m.name == name then multiset(ms)[m] else 0
  {
    if ms != [] {
      MatchesOccurrences(ms[..|ms| - 1], name, m);
      assert ms == ms[..|ms| - 1] + [ms[|ms| - 1]];
    }
  }

  lemma {:induction false} MatchesParsed(ms: seq<Measurement>, name: string)
    requires forall i :: 0 <= i < |ms| ==> Parsed(ms[i])
    ensures forall i :: 0 <= i < |Matches(ms, name)| ==> Parsed(Matches(ms, name)[i])
  {
    if ms != [] { MatchesParsed(ms[..|ms| - 1], name); }
  }

  /** An assessed name of an artifact with unique assessed names occurs exactly once among all its measurements. */
  lemma AssessedOnce(policy: Policy, a: ArtifactRecord, name: string)
    requires UniqueNames(Assessed(policy, a.measurements)) && name in AssessedNames(policy, a)
    ensures |Matches(a.measurements, name)| == 1
    ensures Matches(a.measurements, name)[0] in a.measurements && Matches(a.measurements, name)[0].name == name
    ensures Matches(a.measurements, name) == Matches(Assessed(policy, a.measurements), name)
  {
    var assessed := Assessed(policy, a.measurements);
    AssessedIncluded(policy, a.measurements);
    var i :| 0 <= i < |assessed| && assessed[i].name == name;
    AssessedMatches(policy, a.measurements, name);
    UniqueMatches(assessed, name);
    assert Matches(assessed, name)[0] in assessed;
  }

  // ----- Generation -----

  function Selected(policy: Policy, metadata: Metadata): Metadata {
    map k | k in policy.metadataKeys(metadata) && k in metadata :: metadata[k]
  }

  /** One artifact may contribute: its evidence is complete, its assessed names are unique, its selected metadata is
      complete, and it is a clean governed production run. */
  predicate Contributes(policy: Policy, a: ArtifactRecord) {
    && policy.evidenceComplete(a)
    && UniqueNames(Assessed(policy, a.measurements))
    && policy.metadataKeys(a.metadata) <= a.metadata.Keys
    && a.suite == PRODUCTION_SUITE
    && Dirty in a.environment && a.environment[Dirty] == Boolean(false)
    && policy.storageGoverned(a.metadata)
  }

  /** Two artifacts share one runner, fixture and source contract. */
  predicate SharesContract(policy: Policy, a: Artifact, first: Artifact) {
    && AssessedNames(policy, a) == AssessedNames(policy, first)
    && (forall k :: k in RATCHETED_ENVIRONMENT && k != Dirty ==> a.environment[k] == first.environment[k])
    && Selected(policy, a.metadata) == Selected(policy, first.metadata)
    && policy.identity(a) == policy.identity(first)
  }

  function Observation(policy: Policy, a: ArtifactRecord, name: string): Option<Measurement> {
    var found := Matches(Assessed(policy, a.measurements), name);
    if found == [] then None else Some(found[0])
  }

  /** Every artifact observed the metric once, in one unit. */
  predicate ObservedAlike(policy: Policy, values: seq<Artifact>, name: string) {
    && values != []
    && (forall i :: 0 <= i < |values| ==> Observation(policy, values[i], name).Some?)
    && (forall i :: 0 <= i < |values| ==>
          UnitOf(policy, values[i], name) == UnitOf(policy, values[0], name))
    && (forall i :: 0 <= i < |values| ==> Observation(policy, values[i], name).value.samples == 1)
  }

  function UnitOf(policy: Policy, a: ArtifactRecord, name: string): Unit {
    var found := Observation(policy, a, name);
    if found.Some? then found.value.unit else Count
  }

  function MedianOf(policy: Policy, a: ArtifactRecord, name: string): real {
    var found := Observation(policy, a, name);
    if found.Some? then found.value.p50 else 0.0
  }

  function Observed(policy: Policy, values: seq<Artifact>, name: string): seq<real> {
    if values == [] then []
    else Observed(policy, values[..|values| - 1], name) + [MedianOf(policy, values[|values| - 1], name)]
  }

  /** The limit generated for one assessed name. */
  function GeneratedLimit(policy: Policy, values: seq<Artifact>, name: string): Result<Limit>
    requires ObservedAlike(policy, values, name)
  {
    MeasurementRatchet(policy.names, name, UnitOf(policy, values[0], name),
                       Observed(policy, values, name))
  }

  /** When generation succeeds. */
  ghost predicate Generable(policy: Policy, values: seq<Artifact>) {
    && |values| >= 3
    && (forall i :: 0 <= i < |values| ==> Contributes(policy, values[i]))
    && (forall i :: 0 <= i < |values| ==> SharesContract(policy, values[i], values[0]))
    && (forall name :: name in AssessedNames(policy, values[0]) ==>
          ObservedAlike(policy, values, name) && GeneratedLimit(policy, values, name).Success?)
  }

  /** The ratchet that a successful generation returns. */
  ghost predicate GeneratedFrom(policy: Policy, values: seq<Artifact>, r: RatchetFile)
    requires Generable(policy, values)
  {
    var first := values[0];
    && r.suite == first.suite
    && r.environment == (map k | k in RATCHETED_ENVIRONMENT :: first.environment[k])
    && r.metadata == Selected(policy, first.metadata)
    && r.measurements.Keys == AssessedNames(policy, first) - {PROTOTYPE}
    && (forall name :: name in r.measurements ==>
          r.measurements[name] == GeneratedLimit(policy, values, name).value)
  }

  /** Every artifact contributes and shares the first one's contract. */
  method CheckContributors(policy: Policy, values: seq<Artifact>) returns (refusal: Option<string>)
    requires values != []
    ensures refusal.None? <==> forall i :: 0 <= i < |values| ==>
              Contributes(policy, values[i]) && SharesContract(policy, values[i], values[0])
  {
    hide *;
    for i := 0 to |values|
      invariant forall j :: 0 <= j < i ==>
                  Contributes(policy, values[j]) && SharesContract(policy, values[j], values[0])
    {
      if !Contributes(policy, values[i]) {
        return Some("Production ratchet generation requires complete governed evidence.");
      }
      if !SharesContract(policy, values[i], values[0]) {
        return Some("Production ratchet artifacts do not share one governed contract.");
      }
    }
    return None;
  }

  lemma NameSetGrows(ms: seq<Measurement>, i: nat)
    requires i < |ms|
    ensures NameSet(ms[..i + 1]) == NameSet(ms[..i]) + {ms[i].name}
    ensures ms[i].name in NameSet(ms)
  {
    var grown := ms[..i + 1];
    forall name | name in NameSet(ms[..i]) ensures name in NameSet(grown) {
      var k :| 0 <= k < i && ms[..i][k].name == name;
      assert grown[k].name == name;
    }
    assert grown[i].name == ms[i].name;
  }

  /** One generated limit per assessed name of the first artifact, except for the name that a record cannot hold. */
  method GenerateMeasurements(policy: Policy, values: seq<Artifact>) returns (r: Result<map<string, Limit>>)
    requires values != []
    ensures r.Success? <==> forall name :: name in AssessedNames(policy, values[0]) ==>
              ObservedAlike(policy, values, name) && GeneratedLimit(policy, values, name).Success?
    ensures r.Success? ==> r.value.Keys == AssessedNames(policy, values[0]) - {PROTOTYPE}
    ensures r.Success? ==> forall name :: name in r.value ==> r.value[name] == GeneratedLimit(policy, values, name).value
  {
    hide Assessed, ObservedAlike, GeneratedLimit, NameSet;
    var assessed := Assessed(policy, values[0].measurements);
    var measurements: map<string, Limit> := map[];
    NameSetEmpty();
    for i := 0 to |assessed|
      invariant measurements.Keys == NameSet(assessed[..i]) - {PROTOTYPE}
      invariant forall name :: name in NameSet(assessed[..i]) ==>
                  ObservedAlike(policy, values, name) && GeneratedLimit(policy, values, name).Success?
      invariant forall name :: name in measurements ==>
                  measurements[name] == GeneratedLimit(policy, values, name).value
    {
      var name := assessed[i].name;
      NameSetGrows(assessed, i);
      assert name in AssessedNames(policy, values[0]);
      if !ObservedAlike(policy, values, name) {
        return Thrown("Production ratchet measurement has inconsistent samples or units.");
      }
      var limit := GeneratedLimit(policy, values, name);
      if limit.Thrown? {
        return Thrown(limit.message);
      }
      if name != PROTOTYPE {
        measurements := measurements[name := limit.value];
      }
    }
    assert assessed[..|assessed|] == assessed;
    return Success(measurements);
  }

  lemma NameSetEmpty()
    ensures NameSet([]) == {}
  {
  }

  /** Generates independent limits from repeated observations, or is refused. */
  method CreateProductionRatchet(policy: Policy, values: seq<Artifact>) returns (r: Result<RatchetFile>)
    ensures r.Success? <==> Generable(policy, values)
    ensures r.Success? ==> GeneratedFrom(policy, values, r.value)
  {
    hide Contributes, SharesContract, ObservedAlike, GeneratedLimit, AssessedNames, Selected;
    if |values| < 3 {
      return Thrown("Production ratchet generation requires at least three artifacts.");
    }
    var refusal := CheckContributors(policy, values);
    if refusal.Some? {
      return Thrown(refusal.value);
    }
    var measurements := GenerateMeasurements(policy, values);
    if measurements.Thrown? {
      return Thrown(measurements.message);
    }
    var first := values[0];
    var environment := map k | k in RATCHETED_ENVIRONMENT :: first.environment[k];
    return Success(RatchetFile(first.suite, environment, Selected(policy, first.metadata), measurements.value));
  }

  /** What a ratchet can be generated from: at least three clean governed production runs with complete evidence, of one
      fixture, toolchain, runner and source identity, each assessed metric measured by all of them. */
  lemma ContributorsGoverned(policy: Policy, values: seq<Artifact>, i: nat)
    requires Generable(policy, values) && i < |values|
    ensures |values| >= 3
    ensures values[i].suite == "code-graph-production-large-v2" && values[i].environment[Dirty] == Boolean(false)
    ensures policy.evidenceComplete(values[i]) && policy.storageGoverned(values[i].metadata)
    ensures policy.identity(values[i]) == policy.identity(values[0])
    ensures forall k :: k in {Architecture, FixtureHash, Node, PackageManager, Runner, RunnerVersion} ==>
              values[i].environment[k] == values[0].environment[k]
    ensures forall name :: name in AssessedNames(policy, values[0]) ==> |Matches(values[i].measurements, name)| == 1
  {
    hide Assessed, Matches, Selected, UniqueNames, NameSet, ObservedAlike, GeneratedLimit;
    assert Contributes(policy, values[i]) && SharesContract(policy, values[i], values[0]);
    forall name | name in AssessedNames(policy, values[0]) ensures |Matches(values[i].measurements, name)| == 1 {
      AssessedOnce(policy, values[i], name);
    }
  }

  // ----- Static acceptance -----

  /** A ratchet file that parses. */
  ghost predicate ValidRatchet(policy: Policy, r: RatchetFile) {
    && !policy.names.blank(r.suite)
    && r.measurements != map[]
    && (forall name :: name in r.measurements ==> !policy.names.blank(name) && ValidLimit(r.measurements[name]))
    && REQUIRED_ENVIRONMENT <= r.environment.Keys
    && REQUIRED_METADATA <= r.metadata.Keys
  }

  /** Suite, environment, metadata and measurement set are the ones the ratchet was reviewed for. */
  ghost predicate ConditionsMet(policy: Policy, a: Artifact, r: RatchetFile) {
    && a.suite == r.suite
    && (forall k :: k in r.environment ==> k in a.environment && a.environment[k] == r.environment[k])
    && (forall k :: k in r.metadata ==> k in a.metadata && a.metadata[k] == r.metadata[k])
    && (r.suite == PRODUCTION_SUITE ==>
          UniqueNames(Assessed(policy, a.measurements)) && AssessedNames(policy, a) == r.measurements.Keys)
  }

  /** The metric occurs exactly once, in the ratcheted unit. */
  predicate OccursOnce(a: ArtifactRecord, name: string, limit: Limit) {
    |Matches(a.measurements, name)| == 1 && Matches(a.measurements, name)[0].unit == limit.unit
  }

  predicate StaticallyAdmits(a: ArtifactRecord, name: string, limit: Limit) {
    OccursOnce(a, name, limit) && Within(Matches(a.measurements, name)[0], limit)
  }

  ghost predicate StaticallyAccepts(policy: Policy, a: Artifact, r: RatchetFile) {
    && ValidRatchet(policy, r)
    && ConditionsMet(policy, a, r)
    && forall name :: name in r.measurements ==> StaticallyAdmits(a, name, r.measurements[name])
  }

  // ----- Generate, then enforce -----

  lemma {:induction false} ObservedMembers(policy: Policy, values: seq<Artifact>, name: string)
    requires ObservedAlike(policy, values, name)
    ensures |Observed(policy, values, name)| == |values|
    ensures forall i :: 0 <= i < |values| ==> MedianOf(policy, values[i], name) in Observed(policy, values, name)
    ensures forall v :: v in Observed(policy, values, name) ==> v >= 0.0
  {
    MedianNonNegative(policy, values[|values| - 1], name);
    hide MedianOf, UnitOf, Observation, Typed;
    var before := values[..|values| - 1];
    if |values| > 1 {
      assert ObservedAlike(policy, before, name);
      ObservedMembers(policy, before, name);
    } else {
      assert Observed(policy, before, name) == [];
    }
    forall i | 0 <= i < |values| ensures MedianOf(policy, values[i], name) in Observed(policy, values, name) {
      if i < |values| - 1 { assert values[i] == before[i]; }
    }
  }

  lemma {:induction false} ObservedIndex(policy: Policy, values: seq<Artifact>, name: string, i: nat)
    requires i < |values|
    ensures |Observed(policy, values, name)| == |values|
    ensures Observed(policy, values, name)[i] == MedianOf(policy, values[i], name)
  {
    hide MedianOf, Typed;
    var before := values[..|values| - 1];
    if i < |before| {
      ObservedIndex(policy, before, name, i);
    } else if i > 0 {
      ObservedIndex(policy, before, name, 0);
    } else {
      assert Observed(policy, before, name) == [];
    }
  }

  lemma MedianNonNegative(policy: Policy, a: Artifact, name: string)
    ensures MedianOf(policy, a, name) >= 0.0
  {
    hide Assessed, Matches, Typed;
    if Observation(policy, a, name).Some? { ObservationParsed(policy, a, name); }
  }

  lemma ObservationParsed(policy: Policy, a: Artifact, name: string)
    requires Observation(policy, a, name).Some?
    ensures Observation(policy, a, name).value in a.measurements
    ensures Parsed(Observation(policy, a, name).value)
  {
    MatchesIncluded(Assessed(policy, a.measurements), name);
    AssessedIncluded(policy, a.measurements);
    var m := Observation(policy, a, name).value;
    assert m in Assessed(policy, a.measurements);
  }

  lemma {:induction false} MatchesIncluded(ms: seq<Measurement>, name: string)
    ensures forall i :: 0 <= i < |Matches(ms, name)| ==> Matches(ms, name)[i] in ms && Matches(ms, name)[i].name == name
  {
    if ms != [] { MatchesIncluded(ms[..|ms| - 1], name); }
  }

  /** Whether a contributor meets the limit generated for one metric. An observation whose statistics all repeat it, as
      the benchmark summarizes single samples, is judged by admissibility alone; statistics that disagree, which parsing
      does not rule out, are compared with the limit. */
  ghost predicate MeetsOwnLimit(policy: Policy, values: seq<Artifact>, i: nat, name: string)
    requires Generable(policy, values) && i < |values| && name in AssessedNames(policy, values[0])
  {
    assert ObservedAlike(policy, values, name);
    var m := Observation(policy, values[i], name).value;
    if Flat(m) then Admissible(policy.names, name, m.unit, m.p50) else Within(m, GeneratedLimit(policy, values, name).value)
  }

  /** A contributing artifact passes the generated limit of one metric exactly when it meets its own limit. */
  lemma ContributorAdmitted(policy: Policy, values: seq<Artifact>, i: nat, name: string)
    requires Generable(policy, values) && i < |values| && name in AssessedNames(policy, values[0])
    ensures StaticallyAdmits(values[i], name, GeneratedLimit(policy, values, name).value)
       <==> MeetsOwnLimit(policy, values, i, name)
    ensures ValidLimit(GeneratedLimit(policy, values, name).value)
  {
    var a := values[i];
    assert SharesContract(policy, a, values[0]) && Contributes(policy, a);
    AssessedOnce(policy, a, name);
    assert ObservedAlike(policy, values, name);
    ObservationParsed(policy, a, name);
    ObservedMembers(policy, values, name);
    var m := Observation(policy, a, name).value;
    assert m == Matches(a.measurements, name)[0];
    var unit := UnitOf(policy, values[0], name);
    GeneratedLimitValid(policy.names, name, unit, Observed(policy, values, name));
    GeneratedLimitAdmits(policy.names, name, unit, Observed(policy, values, name), m);
  }

  /** Some measurement of that name has this median. */
  ghost predicate HasMedian(a: ArtifactRecord, name: string, median: real) {
    exists k :: 0 <= k < |a.measurements| && a.measurements[k].name == name && a.measurements[k].p50 == median
  }

  lemma MedianIsObserved(policy: Policy, a: ArtifactRecord, name: string, median: real)
    requires UniqueNames(Assessed(policy, a.measurements)) && name in AssessedNames(policy, a)
    ensures HasMedian(a, name, median) <==> median == MedianOf(policy, a, name)
    ensures Matches(a.measurements, name) != []
    ensures UnitOf(policy, a, name) == Matches(a.measurements, name)[0].unit
  {
    AssessedOnce(policy, a, name);
    hide Assessed, Matches, NameSet, UniqueNames;
    var only := Matches(a.measurements, name)[0];
    if k :| 0 <= k < |a.measurements| && a.measurements[k].name == name && a.measurements[k].p50 == median {
      MatchesOccurrences(a.measurements, name, a.measurements[k]);
      assert a.measurements[k] in multiset(a.measurements);
      assert a.measurements[k] in multiset(Matches(a.measurements, name));
      assert a.measurements[k] in Matches(a.measurements, name);
    }
  }

  /** The generated ratchet is as tight as reviewed: whatever artifacts it is generated from, the limit of a metric lets
      through, of all measurements, exactly those inside the reviewed growth of the smallest and largest median that
      the artifacts observed, up to less than one unit of rounding. */
  lemma GeneratedRatchetBand(policy: Policy, values: seq<Artifact>, r: RatchetFile, name: string, smallest: real,
                             largest: real) returns (slack: real)
    requires Generable(policy, values) && GeneratedFrom(policy, values, r) && name in r.measurements
    requires forall i, x: real :: 0 <= i < |values| && HasMedian(values[i], name, x) ==> smallest <= x <= largest
    requires exists i :: 0 <= i < |values| && HasMedian(values[i], name, smallest)
    requires exists i :: 0 <= i < |values| && HasMedian(values[i], name, largest)
    ensures 0.0 <= slack < 1.0
    ensures forall m :: Parsed(m) ==>
              (Within(m, r.measurements[name])
               <==> Allows(policy.names, name, r.measurements[name].unit, smallest, largest, m, slack))
  {
    hide Allows, Within, MeasurementRatchet, Assessed, Matches, Parsed, Typed, MedianOf, UnitOf, HasMedian;
    assert ObservedAlike(policy, values, name);
    var unit, observed := UnitOf(policy, values[0], name), Observed(policy, values, name);
    ObservedMembers(policy, values, name);
    GeneratedLimitValid(policy.names, name, unit, observed);
    slack := GeneratedLimitBand(policy.names, name, unit, observed);
    ObservedRange(policy, values, name, smallest, largest);
  }

  lemma ObservedRange(policy: Policy, values: seq<Artifact>, name: string, smallest: real, largest: real)
    requires Generable(policy, values) && name in AssessedNames(policy, values[0])
    requires forall i, x: real :: 0 <= i < |values| && HasMedian(values[i], name, x) ==> smallest <= x <= largest
    requires exists i :: 0 <= i < |values| && HasMedian(values[i], name, smallest)
    requires exists i :: 0 <= i < |values| && HasMedian(values[i], name, largest)
    ensures Observed(policy, values, name) != []
    ensures Minimum(Observed(policy, values, name)) == smallest && Maximum(Observed(policy, values, name)) == largest
  {
    hide *;
    var observed := Observed(policy, values, name);
    forall i | 0 <= i < |values|
      ensures |observed| == |values| && HasMedian(values[i], name, observed[i])
      ensures forall x: real :: HasMedian(values[i], name, x) ==> x == observed[i]
    {
      ObservedMedian(policy, values, name, i);
    }
    var low :| 0 <= low < |values| && HasMedian(values[low], name, smallest);
    var high :| 0 <= high < |values| && HasMedian(values[high], name, largest);
    assert observed[low] == smallest && observed[high] == largest;
    Range(observed, smallest, largest, low, high);
  }

  lemma ObservedMedian(policy: Policy, values: seq<Artifact>, name: string, i: nat)
    requires Generable(policy, values) && name in AssessedNames(policy, values[0]) && i < |values|
    ensures |Observed(policy, values, name)| == |values|
    ensures forall x: real :: HasMedian(values[i], name, x) <==> x == Observed(policy, values, name)[i]
  {
    hide Assessed, Matches, Typed, MedianOf, UnitOf, HasMedian, ObservedAlike, GeneratedLimit, Observed;
    assert SharesContract(policy, values[i], values[0]) && Contributes(policy, values[i]);
    ObservedIndex(policy, values, name, i);
    forall x: real ensures HasMedian(values[i], name, x) <==> x == Observed(policy, values, name)[i] {
      MedianIsObserved(policy, values[i], name, x);
    }
  }

  lemma Range(values: seq<real>, smallest: real, largest: real, low: nat, high: nat)
    requires low < |values| && high < |values| && values[low] == smallest && values[high] == largest
    requires forall i :: 0 <= i < |values| ==> smallest <= values[i] <= largest
    ensures Minimum(values) == smallest && Maximum(values) == largest
  {
    hide Minimum, Maximum;
  }

  /** The conditions of the generated ratchet hold of every contributor, unless a name was lost from it. */
  lemma ContributorConditions(policy: Policy, values: seq<Artifact>, r: RatchetFile, i: nat)
    requires Generable(policy, values) && GeneratedFrom(policy, values, r) && i < |values|
    ensures ConditionsMet(policy, values[i], r) <==> PROTOTYPE !in AssessedNames(policy, values[0])
  {
    assert Contributes(policy, values[i]) && SharesContract(policy, values[i], values[0]);
    assert Contributes(policy, values[0]);
    forall k | k in r.metadata ensures k in values[i].metadata && values[i].metadata[k] == r.metadata[k] {
      assert k in Selected(policy, values[i].metadata);
    }
  }

  /** Generation followed by enforcement. The generated ratchet accepts a contributing artifact if and only if no
      assessed name is blank or the one a record cannot hold, and every observation meets its own limit: coverage
      counters reached one, and no unbounded millisecond observation lies beyond the largest safe integer. */
  lemma GenerateThenEnforce(policy: Policy, values: seq<Artifact>, r: RatchetFile, i: nat)
    requires ReviewedPolicy(policy)
    requires Generable(policy, values) && GeneratedFrom(policy, values, r) && i < |values|
    ensures StaticallyAccepts(policy, values[i], r)
       <==> && PROTOTYPE !in AssessedNames(policy, values[0])
            && (forall name :: name in AssessedNames(policy, values[0]) ==>
                  !policy.names.blank(name) && MeetsOwnLimit(policy, values, i, name))
  {
    hide MeetsOwnLimit, StaticallyAdmits, GeneratedLimit, Assessed, Observation, NameSet, ConditionsMet, ObservedAlike,
         SharesContract, ValidLimit;
    ContributorConditions(policy, values, r, i);
    forall name | name in AssessedNames(policy, values[0])
      ensures StaticallyAdmits(values[i], name, GeneratedLimit(policy, values, name).value)
         <==> MeetsOwnLimit(policy, values, i, name)
      ensures ValidLimit(GeneratedLimit(policy, values, name).value)
    {
      ContributorAdmitted(policy, values, i, name);
    }
    GeneratedKeys(policy, values, r);
    if PROTOTYPE !in AssessedNames(policy, values[0]) {
      assert r.measurements.Keys == AssessedNames(policy, values[0]);
    }
  }

  lemma GeneratedKeys(policy: Policy, values: seq<Artifact>, r: RatchetFile)
    requires ReviewedPolicy(policy) && Generable(policy, values) && GeneratedFrom(policy, values, r)
    ensures REQUIRED_METADATA <= r.metadata.Keys
    ensures REQUIRED_ENVIRONMENT <= r.environment.Keys
    ensures r.suite == PRODUCTION_SUITE
    ensures r.measurements != map[]
  {
    hide GeneratedLimit, Assessed, ObservedAlike, SharesContract;
    assert Contributes(policy, values[0]);
    assert policy.metadataKeys(values[0].metadata) <= values[0].metadata.Keys;
    assert ALWAYS_MEASURED in r.measurements;
  }

  // ----- Generated ratchets that refuse their own contributors -----

  function Repeated(name: string, unit: Unit, value: real): Measurement {
    Measurement(name, unit, 1, value, value, value, value, value, value)
  }

  /** A clean production artifact of two measurements: the required one, and a count of the given value. */
  function TwoMetrics(name: string, count: nat): Artifact {
    var value := count as real;
    var environment := (map k: EnvKey | k in ENVIRONMENT_KEYS :: Text("reviewed"))[Dirty := Boolean(false)];
    ArtifactRecord(PRODUCTION_SUITE, environment, map k | k in REQUIRED_METADATA :: Text("reviewed"),
                   [Repeated(ALWAYS_MEASURED, Milliseconds, 1.0), Repeated(name, Count, value)], None)
  }

  /** Coverage counters are the counts whose names end in "-samples-n1" or "-attempts-n1". */
  predicate CoverageName(name: string) {
    EndsWith(name, "-samples-n1") || EndsWith(name, "-attempts-n1")
  }

  predicate EndsWith(s: string, suffix: string) {
    |suffix| <= |s| && s[|s| - |suffix|..] == suffix
  }

  /** A policy for which that artifact is complete evidence. */
  function TwoMetricsPolicy(name: string, count: nat): Policy {
    var never := (n: string) => false;
    Policy(NamePolicy(CoverageName, never, never, never, never, never, never), a => a == TwoMetrics(name, count),
           metadata => REQUIRED_METADATA, metadata => true, a => "identity")
  }

  /** A ratchet can be generated from three such artifacts, and it refuses them if the count is a zero coverage counter or
      has the name that a record cannot hold. */
  lemma RefusedContributors(name: string, count: nat)
    requires name != ALWAYS_MEASURED && (name == PROTOTYPE || (CoverageName(name) && count == 0))
    ensures var policy, a := TwoMetricsPolicy(name, count), TwoMetrics(name, count);
            && ReviewedPolicy(policy) && Generable(policy, [a, a, a])
            && exists r :: GeneratedFrom(policy, [a, a, a], r) && !StaticallyAccepts(policy, a, r)
  {
    var policy, a := TwoMetricsPolicy(name, count), TwoMetrics(name, count);
    var values := [a, a, a];
    TwoMetricsAssessed(name, count);
    TwoMetricsReviewed(name, count);
    TwoMetricsGenerable(name, count);
    var r := GeneratedRatchet(policy, values);
    hide GeneratedFrom, StaticallyAccepts, Generable, ReviewedPolicy, TwoMetrics, TwoMetricsPolicy;
    GenerateThenEnforce(policy, values, r, 0);
    if name != PROTOTYPE {
      ZeroCoverage(name);
      assert name in AssessedNames(policy, a);
    }
  }

  lemma GeneratedRatchet(policy: Policy, values: seq<Artifact>) returns (r: RatchetFile)
    requires Generable(policy, values)
    ensures GeneratedFrom(policy, values, r)
  {
    var first := values[0];
    var limits := map n | n in AssessedNames(policy, first) - {PROTOTYPE} :: GeneratedLimit(policy, values, n).value;
    r := RatchetFile(first.suite, map k | k in RATCHETED_ENVIRONMENT :: first.environment[k],
                     Selected(policy, first.metadata), limits);
  }

  lemma ZeroCoverage(name: string)
    requires name != ALWAYS_MEASURED && CoverageName(name)
    requires var a := TwoMetrics(name, 0); Generable(TwoMetricsPolicy(name, 0), [a, a, a])
    requires name in AssessedNames(TwoMetricsPolicy(name, 0), TwoMetrics(name, 0))
    ensures var a := TwoMetrics(name, 0); !MeetsOwnLimit(TwoMetricsPolicy(name, 0), [a, a, a], 0, name)
  {
    TwoMetricsAssessed(name, 0);
    assert !Admissible(TwoMetricsPolicy(name, 0).names, name, Count, 0.0);
  }

  /** Concretely: a sampler that took no sample. */
  lemma ZeroCoverageRefused()
    ensures exists policy: Policy, a: Artifact, r: RatchetFile ::
              && ReviewedPolicy(policy) && Generable(policy, [a, a, a]) && GeneratedFrom(policy, [a, a, a], r)
              && !StaticallyAccepts(policy, a, r)
  {
    var name := "idle-samples-n1";
    assert name[4..] == "-samples-n1";
    assert name[0] != ALWAYS_MEASURED[0];
    RefusedContributors(name, 0);
  }

  lemma TwoMetricsAssessed(name: string, count: nat)
    requires name != ALWAYS_MEASURED
    ensures var policy, a := TwoMetricsPolicy(name, count), TwoMetrics(name, count);
            && Assessed(policy, a.measurements) == a.measurements && AssessedNames(policy, a) == {ALWAYS_MEASURED, name}
            && Observation(policy, a, ALWAYS_MEASURED) == Some(a.measurements[0])
            && Observation(policy, a, name) == Some(a.measurements[1])
  {
    TwoAssessed(TwoMetricsPolicy(name, count), TwoMetrics(name, count).measurements);
  }

  lemma TwoAssessed(policy: Policy, ms: seq<Measurement>)
    requires |ms| == 2 && ms[0].name != ms[1].name
    requires !policy.names.excluded(ms[0].name) && !policy.names.excluded(ms[1].name)
    ensures Assessed(policy, ms) == ms && NameSet(ms) == {ms[0].name, ms[1].name}
    ensures Matches(ms, ms[0].name) == [ms[0]] && Matches(ms, ms[1].name) == [ms[1]]
  {
    assert ms[..1] == [ms[0]] && ms[..1][..0] == [];
    assert Assessed(policy, ms[..1]) == [ms[0]];
    assert Matches(ms[..1], ms[1].name) == [] && Matches(ms[..1], ms[0].name) == [ms[0]];
  }

  lemma TwoMetricsReviewed(name: string, count: nat)
    requires name != ALWAYS_MEASURED
    ensures ReviewedPolicy(TwoMetricsPolicy(name, count))
  {
    TwoMetricsAssessed(name, count);
    hide Assessed, AssessedNames, Observation, TwoMetrics, CoverageName;
  }

  lemma TwoMetricsGenerable(name: string, count: nat)
    requires name != ALWAYS_MEASURED
    ensures var a := TwoMetrics(name, count); Generable(TwoMetricsPolicy(name, count), [a, a, a])
  {
    var policy, a := TwoMetricsPolicy(name, count), TwoMetrics(name, count);
    TwoMetricsAssessed(name, count);
    hide Assessed, Observation, AssessedNames;
    assert Contributes(policy, a);
    forall n | n in AssessedNames(policy, a) ensures Ratchetable(policy, a, n) {
      NotTimedAgainstObjective();
    }
    hide *;
    AllAlike(policy, a);
  }

  /** Observed once, and generation cannot be refused on its value. */
  predicate Ratchetable(policy: Policy, a: ArtifactRecord, name: string) {
    && Observation(policy, a, name).Some? && Observation(policy, a, name).value.samples == 1
    && (Observation(policy, a, name).value.unit == Milliseconds ==> Objective(name).None?)
    && !policy.names.deterministic(name)
  }

  /** An artifact repeated three times. */
  lemma AllAlike(policy: Policy, a: Artifact)
    requires Contributes(policy, a) && forall n :: n in AssessedNames(policy, a) ==> Ratchetable(policy, a, n)
    ensures Generable(policy, [a, a, a])
  {
    assert SharesContract(policy, a, a);
    hide Contributes, SharesContract, AssessedNames, Observation, Objective, ObservedAlike, GeneratedLimit;
    forall n | n in AssessedNames(policy, a)
      ensures ObservedAlike(policy, [a, a, a], n) && GeneratedLimit(policy, [a, a, a], n).Success?
    {
      Alike(policy, a, n);
    }
  }

  lemma Alike(policy: Policy, a: Artifact, name: string)
    requires Ratchetable(policy, a, name)
    ensures ObservedAlike(policy, [a, a, a], name) && GeneratedLimit(policy, [a, a, a], name).Success?
  {
    hide Observation, MeasurementRatchet, Objective;
    Ratcheted(policy.names, name, UnitOf(policy, a, name), Observed(policy, [a, a, a], name));
  }

  lemma NotTimedAgainstObjective()
    ensures Objective(ALWAYS_MEASURED).None?
  {
  }

  lemma Ratcheted(policy: NamePolicy, name: string, unit: Unit, values: seq<real>)
    requires values != [] && !policy.deterministic(name) && (unit == Milliseconds ==> Objective(name).None?)
    ensures MeasurementRatchet(policy, name, unit, values).Success?
  {
    hide MILLISECOND_TARGETS, Objective, HeadroomLimit;
  }
}
