/** The layered development budget, its guarded hot-query tolerance, and the derived Windows safety budget. */
module BenchmarkBudget {
  import opened Basics
  import opened Ratchet
  import opened ProductionRatchet

  /** A budget entry: a number, or something else. */
  datatype Json = Num(n: real) | Other

  datatype Field =
    | ColdIndexP95 | ColdMaterializationP95 | OneFileIncrementalP95 | OneFileMaterializationP95 | WholeGraphAnalysisP95
    | ProcessPeakRss | DerivedIndexBytes | HotP95 | HotP50 | HotCpuP95 | HotSamplesMinimum | HotP50Tolerance
    | HotP95Tolerance | OtherField(name: string)

  type Layer = map<Field, Json>

  datatype Budget = Budget(
    development: Option<Layer>, developmentByPlatform: map<string, Layer>, developmentByRunner: map<string, Layer>,
    scale: map<nat, Layer>, scaleByRunner: map<string, map<nat, Layer>>,
    vector: Option<Layer>, vectorScale: map<nat, Layer>, reviewedReplicaPolicy: bool, fixtureHash: Option<string>)

  const WINDOWS_RUNNER := "github-hosted-windows-x64"

  function Find(a: ArtifactRecord, name: string): Option<Measurement> {
    var found := Matches(a.measurements, name);
    if found == [] then None else Some(found[0])
  }

  lemma FoundParsed(a: Artifact, name: string)
    requires Find(a, name).Some?
    ensures Parsed(Find(a, name).value) && Find(a, name).value in a.measurements
  {
    MatchesIncluded(a.measurements, name);
    assert Find(a, name).value == Matches(a.measurements, name)[0];
  }

  function StringMetadata(a: ArtifactRecord, key: string): Option<string> {
    if key in a.metadata && a.metadata[key].Text? then Some(a.metadata[key].s) else None
  }

  predicate VectorEnabled(a: ArtifactRecord) {
    "vectorEnabled" in a.metadata && a.metadata["vectorEnabled"] == Boolean(true)
  }

  // ----- Layer selection -----

  /** The platform and architecture that a GitHub-hosted runner class names. */
  function HostedTarget(runnerClass: string): Option<(string, string)> {
    if runnerClass == "github-hosted-linux-arm64" then Some(("linux", "arm64"))
    else if runnerClass == "github-hosted-linux-x64" then Some(("linux", "x64"))
    else if runnerClass == "github-hosted-macos-arm64" then Some(("darwin", "arm64"))
    else if runnerClass == "github-hosted-macos-x64" then Some(("darwin", "x64"))
    else if runnerClass == "github-hosted-windows-arm64" then Some(("win32", "arm64"))
    else if runnerClass == WINDOWS_RUNNER then Some(("win32", "x64"))
    else None
  }

  function LowerCase(s: string): string {
    seq(|s|, i requires 0 <= i < |s| => if 'A' <= s[i] <= 'Z' then 'a' + (s[i] - 'A') else s[i])
  }

  function Architecture(a: ArtifactRecord): string {
    if EnvKey.Architecture in a.environment && a.environment[EnvKey.Architecture].Text?
    then a.environment[EnvKey.Architecture].s else ""
  }

  predicate RunnerMatches(runnerClass: string, platform: Option<string>, architecture: string) {
    HostedTarget(runnerClass).Some? ==>
      && platform == Some(HostedTarget(runnerClass).value.0)
      && LowerCase(architecture) == HostedTarget(runnerClass).value.1
  }

  function LayerAt<K>(layers: map<K, Layer>, key: Option<K>): Layer {
    if key.Some? && key.value in layers then layers[key.value] else map[]
  }

  function Layered(layers: map<nat, Layer>, key: nat): Option<Layer> {
    if key in layers then Some(layers[key]) else None
  }

  /** The runner class when its override applies to this artifact. */
  function ApplicableRunner(a: ArtifactRecord): Option<string> {
    var runnerClass := StringMetadata(a, "runnerClass");
    if runnerClass.Some? && RunnerMatches(runnerClass.value, StringMetadata(a, "runtimePlatform"), Architecture(a))
    then runnerClass else None
  }

  /** The budget that governs an artifact: later layers override earlier ones field by field. */
  function SelectedBudget(a: ArtifactRecord, budget: Budget, scaleSymbols: Option<nat>): Option<Layer> {
    if VectorEnabled(a) then
      if scaleSymbols.None? then budget.vector else Layered(budget.vectorScale, scaleSymbols.value)
    else if scaleSymbols.None? then
      if budget.development.None? then None
      else Some(budget.development.value
                + LayerAt(budget.developmentByPlatform, StringMetadata(a, "runtimePlatform"))
                + LayerAt(budget.developmentByRunner, ApplicableRunner(a)))
    else
      var base := Layered(budget.scale, scaleSymbols.value);
      if base.None? then None
      else
        var runner := ApplicableRunner(a);
        Some(base.value
             + (if runner.Some? && runner.value in budget.scaleByRunner
                then LayerAt(budget.scaleByRunner[runner.value], scaleSymbols) else map[]))
  }

  function Number(layer: Layer, field: Field): Option<real> {
    if field in layer && layer[field].Num? then Some(layer[field].n) else None
  }

  function Overridden(own: Layer, below: Option<Json>, field: Field): Option<Json> {
    if field in own then Some(own[field]) else below
  }

  /** Field by field, a development budget comes from the runner-class layer when it applies and has the field, else from
      the platform layer, else from the base. */
  lemma LayerPrecedence(a: ArtifactRecord, budget: Budget, field: Field)
    requires !VectorEnabled(a) && budget.development.Some?
    ensures var selected := SelectedBudget(a, budget, None).value;
            var platform := LayerAt(budget.developmentByPlatform, StringMetadata(a, "runtimePlatform"));
            var runner := LayerAt(budget.developmentByRunner, ApplicableRunner(a));
            (if field in selected then Some(selected[field]) else None)
            == Overridden(runner, Overridden(platform, Overridden(budget.development.value, None, field), field), field)
  {
    hide VectorEnabled, StringMetadata, ApplicableRunner;
  }

  /** The same of a scale budget, whose runner-class layer must have that scale; and without the base layer of the scale,
      or for a vector artifact, the runner-class layers play no part. */
  lemma ScalePrecedence(a: ArtifactRecord, budget: Budget, scale: nat, field: Field)
    requires !VectorEnabled(a) && scale in budget.scale
    ensures SelectedBudget(a, budget, Some(scale)).Some?
    ensures var selected, runner := SelectedBudget(a, budget, Some(scale)).value, ApplicableRunner(a);
            (if field in selected then Some(selected[field]) else None)
            == if && runner.Some? && runner.value in budget.scaleByRunner && scale in budget.scaleByRunner[runner.value]
                  && field in budget.scaleByRunner[runner.value][scale]
               then Some(budget.scaleByRunner[runner.value][scale][field])
               else if field in budget.scale[scale] then Some(budget.scale[scale][field]) else None
  {
    hide VectorEnabled, ApplicableRunner;
  }

  lemma SelectionWithoutLayers(a: ArtifactRecord, budget: Budget, scale: Option<nat>)
    ensures !VectorEnabled(a) && scale.None? && budget.development.None? ==> SelectedBudget(a, budget, scale).None?
    ensures !VectorEnabled(a) && scale.Some? && scale.value !in budget.scale ==> SelectedBudget(a, budget, scale).None?
    ensures VectorEnabled(a) && scale.None? ==> SelectedBudget(a, budget, scale) == budget.vector
    ensures VectorEnabled(a) && scale.Some? ==>
              SelectedBudget(a, budget, scale)
              == if scale.value in budget.vectorScale then Some(budget.vectorScale[scale.value]) else None
  {
  }

  /** When a runner-class layer applies: the artifact names the class, and for a GitHub-hosted class also its platform and,
      in any case, its architecture. */
  lemma RunnerApplies(a: ArtifactRecord)
    ensures ApplicableRunner(a) == Some("github-hosted-windows-x64") <==>
              && StringMetadata(a, "runnerClass") == Some("github-hosted-windows-x64")
              && StringMetadata(a, "runtimePlatform") == Some("win32") && LowerCase(Architecture(a)) == "x64"
    ensures ApplicableRunner(a) == Some("github-hosted-macos-arm64") <==>
              && StringMetadata(a, "runnerClass") == Some("github-hosted-macos-arm64")
              && StringMetadata(a, "runtimePlatform") == Some("darwin") && LowerCase(Architecture(a)) == "arm64"
    ensures forall runner :: HostedTarget(runner).None? ==>
              (ApplicableRunner(a) == Some(runner) <==> StringMetadata(a, "runnerClass") == Some(runner))
  {
    hide StringMetadata, LowerCase, Architecture;
    HostedWindows();
    HostedMac();
  }

  lemma HostedMac()
    ensures HostedTarget("github-hosted-macos-arm64") == Some(("darwin", "arm64"))
  {
    assert |"github-hosted-macos-arm64"| == 25;
    assert "github-hosted-macos-arm64"[14] == 'm';
    assert "github-hosted-linux-arm64"[14] == 'l';
  }

  lemma HostedWindows()
    ensures HostedTarget(WINDOWS_RUNNER) == Some(("win32", "x64"))
  {
  }

  // ----- Enforcement -----

  const CHECKS: seq<(string, Field)> := [
    ("cold-index", ColdIndexP95),
    ("cold-materialization", ColdMaterializationP95),
    ("one-file-reindex-index", OneFileIncrementalP95),
    ("one-file-reindex-materialization", OneFileMaterializationP95),
    ("whole-graph-structural-analysis", WholeGraphAnalysisP95),
    ("incremental-process-peak-rss", ProcessPeakRss),
    ("derived-index-disk", DerivedIndexBytes)]

  predicate CheckPasses(a: ArtifactRecord, layer: Layer, name: string, field: Field) {
    && Find(a, name).Some? && Number(layer, field).Some?
    && Find(a, name).value.p95 <= Number(layer, field).value
  }

  predicate SafeInteger(x: real) {
    Floor(x) == x && -MAX_SAFE_INTEGER <= x <= MAX_SAFE_INTEGER
  }

  /** The configured sample minimum, or 25; nothing when it is configured but not a number. */
  function SamplesMinimum(layer: Layer): Option<real> {
    if HotSamplesMinimum !in layer then Some(25.0) else Number(layer, HotSamplesMinimum)
  }

  function P50Tolerance(layer: Layer): Option<real> {
    if HotP50Tolerance !in layer then Some(0.0) else Number(layer, HotP50Tolerance)
  }

  predicate ToleranceConfigured(layer: Layer) {
    HotP50 in layer || HotCpuP95 in layer || HotSamplesMinimum in layer || HotP50Tolerance in layer
    || HotP95Tolerance in layer
  }

  predicate InRange(x: Option<real>, low: real, high: real) {
    x.Some? && low <= x.value <= high
  }

  predicate GuardValid(layer: Layer) {
    && Number(layer, HotP50).Some? && Number(layer, HotP50).value >= 0.0
    && Number(layer, HotCpuP95).Some? && Number(layer, HotCpuP95).value >= 0.0
    && SamplesMinimum(layer).Some? && SafeInteger(SamplesMinimum(layer).value) && SamplesMinimum(layer).value >= 25.0
    && InRange(P50Tolerance(layer), 0.0, 0.05)
    && InRange(Number(layer, HotP95Tolerance), 0.0, 0.05)
  }

  /** The median and the process CPU back up a hot query that is granted wall tolerance. */
  predicate CompanionsPass(a: ArtifactRecord, layer: Layer, hot: Measurement)
    requires GuardValid(layer)
  {
    var cpu := Find(a, "hot-query-process-cpu");
    && hot.unit == Milliseconds
    && hot.samples as real >= SamplesMinimum(layer).value
    && hot.p50 <= Number(layer, HotP50).value * (1.0 + P50Tolerance(layer).value)
    && cpu.Some? && cpu.value.unit == Milliseconds && cpu.value.samples == hot.samples
    && cpu.value.p95 <= Number(layer, HotCpuP95).value
  }

  /** A hot query within its p95 ceiling; a configured guard must be valid and its companions must pass, and then the
      ceiling is widened by the tolerance ratio. */
  predicate HotQueryPasses(a: ArtifactRecord, layer: Layer, hotName: string) {
    && Find(a, hotName).Some? && Number(layer, HotP95).Some?
    && var hot, ceiling := Find(a, hotName).value, Number(layer, HotP95).value;
       if GuardValid(layer) then
         && CompanionsPass(a, layer, hot)
         && (hot.p95 <= ceiling || hot.p95 <= ceiling * (1.0 + Number(layer, HotP95Tolerance).value))
       else !ToleranceConfigured(layer) && hot.p95 <= ceiling
  }

  function HotQueryName(a: ArtifactRecord): string {
    if VectorEnabled(a) then "hot-semantic-vector-query" else "hot-exact-lexical-query"
  }

  predicate WithinBudget(a: ArtifactRecord, layer: Layer) {
    && (forall i :: 0 <= i < |CHECKS| ==> CheckPasses(a, layer, CHECKS[i].0, CHECKS[i].1))
    && HotQueryPasses(a, layer, HotQueryName(a))
  }

  /** Which measurement is held to which ceiling. */
  lemma WithinBudgetMeans(a: ArtifactRecord, layer: Layer)
    ensures WithinBudget(a, layer) <==>
              && CheckPasses(a, layer, "cold-index", ColdIndexP95)
              && CheckPasses(a, layer, "cold-materialization", ColdMaterializationP95)
              && CheckPasses(a, layer, "one-file-reindex-index", OneFileIncrementalP95)
              && CheckPasses(a, layer, "one-file-reindex-materialization", OneFileMaterializationP95)
              && CheckPasses(a, layer, "whole-graph-structural-analysis", WholeGraphAnalysisP95)
              && CheckPasses(a, layer, "incremental-process-peak-rss", ProcessPeakRss)
              && CheckPasses(a, layer, "derived-index-disk", DerivedIndexBytes)
              && HotQueryPasses(a, layer, if VectorEnabled(a) then "hot-semantic-vector-query" else "hot-exact-lexical-query")
  {
    hide CheckPasses, HotQueryPasses, VectorEnabled;
    assert CHECKS[0] == ("cold-index", ColdIndexP95) && CHECKS[1] == ("cold-materialization", ColdMaterializationP95);
    assert CHECKS[2] == ("one-file-reindex-index", OneFileIncrementalP95);
    assert CHECKS[3] == ("one-file-reindex-materialization", OneFileMaterializationP95);
    assert CHECKS[4] == ("whole-graph-structural-analysis", WholeGraphAnalysisP95);
    assert CHECKS[5] == ("incremental-process-peak-rss", ProcessPeakRss);
    assert CHECKS[6] == ("derived-index-disk", DerivedIndexBytes);
  }

  /** A hot query is over its ceiling only by at most five per cent, over at least 25 samples, with its median inside five
      per cent of the reviewed median and its process CPU, sampled as often, inside the reviewed ceiling. */
  lemma OverCeilingIsGuarded(a: Artifact, layer: Layer, hotName: string)
    requires HotQueryPasses(a, layer, hotName) && Find(a, hotName).value.p95 > Number(layer, HotP95).value
    ensures var hot, cpu := Find(a, hotName).value, Find(a, "hot-query-process-cpu");
            && hot.unit == Milliseconds && hot.samples >= 25
            && hot.p95 <= Number(layer, HotP95).value * 1.05
            && Number(layer, HotP50).Some? && hot.p50 <= Number(layer, HotP50).value * 1.05
            && cpu.Some? && cpu.value.unit == Milliseconds && cpu.value.samples == hot.samples
            && Number(layer, HotCpuP95).Some? && cpu.value.p95 <= Number(layer, HotCpuP95).value
  {
    hide Typed, Find, SafeInteger;
    var hot, ceiling := Find(a, hotName).value, Number(layer, HotP95).value;
    var tolerance, median, slack := Number(layer, HotP95Tolerance).value, Number(layer, HotP50).value,
                                    P50Tolerance(layer).value;
    assert GuardValid(layer) && CompanionsPass(a, layer, hot);
    assert hot.p95 <= ceiling * (1.0 + tolerance) && hot.p50 <= median * (1.0 + slack);
    hide Number, P50Tolerance, HotQueryPasses, CompanionsPass;
    WidenedCeiling(ceiling, tolerance, hot.p95);
    AtLeast(hot.samples, SamplesMinimum(layer).value);
    WidenedMedian(median, slack);
  }

  lemma WidenedCeiling(ceiling: real, tolerance: real, p95: real)
    requires 0.0 <= tolerance <= 0.05 && ceiling < p95 <= ceiling * (1.0 + tolerance)
    ensures p95 <= ceiling * 1.05
  {
    assert ceiling * (1.0 + tolerance) == ceiling + ceiling * tolerance;
    PositiveFactor(ceiling, tolerance);
    assert ceiling * (0.05 - tolerance) >= 0.0;
    assert ceiling * 1.05 == ceiling * (1.0 + tolerance) + ceiling * (0.05 - tolerance);
  }

  lemma PositiveFactor(x: real, y: real)
    requires y >= 0.0 && x * y > 0.0
    ensures x > 0.0
  {
  }

  lemma WidenedMedian(median: real, tolerance: real)
    requires 0.0 <= tolerance <= 0.05 && median >= 0.0
    ensures median * (1.0 + tolerance) <= median * 1.05
  {
    assert median * (0.05 - tolerance) >= 0.0;
    assert median * 1.05 == median * (1.0 + tolerance) + median * (0.05 - tolerance);
  }

  lemma AtLeast(samples: nat, minimum: real)
    requires samples as real >= minimum >= 25.0
    ensures samples >= 25
  {
  }

  predicate BudgetPasses(a: ArtifactRecord, budget: Budget, scaleSymbols: Option<nat>) {
    && SelectedBudget(a, budget, scaleSymbols).Some?
    && WithinBudget(a, SelectedBudget(a, budget, scaleSymbols).value)
  }

  method EnforceBudget(a: Artifact, budget: Budget, scaleSymbols: Option<nat>) returns (failures: seq<string>)
    ensures failures == [] <==> BudgetPasses(a, budget, scaleSymbols)
  {
    hide Typed, Matches, SelectedBudget, CheckPasses, Number, HotQueryPasses, CHECKS;
    var selected := SelectedBudget(a, budget, scaleSymbols);
    if selected.None? {
      return ["No reviewed code graph performance budget exists."];
    }
    failures := [];
    for i := 0 to |CHECKS|
      invariant failures == [] <==> forall j :: 0 <= j < i ==> CheckPasses(a, selected.value, CHECKS[j].0, CHECKS[j].1)
    {
      var found := CheckFailures(a, selected.value, CHECKS[i].0, CHECKS[i].1);
      failures := failures + found;
    }
    var hot := HotQueryFailures(a, selected.value, HotQueryName(a));
    failures := failures + hot;
  }

  method CheckFailures(a: Artifact, layer: Layer, name: string, field: Field) returns (failures: seq<string>)
    ensures failures == [] <==> CheckPasses(a, layer, name, field)
  {
    hide Typed, Matches;
    var measurement, maximum := Find(a, name), Number(layer, field);
    if measurement.None? {
      failures := ["missing measurement"];
    } else if maximum.None? {
      failures := ["missing numeric bound"];
    } else if measurement.value.p95 > maximum.value {
      failures := ["exceeds its bound"];
    } else {
      failures := [];
    }
  }

  /** The guarded hot-query comparison, branch by branch. */
  method HotQueryFailures(a: Artifact, layer: Layer, hotName: string) returns (failures: seq<string>)
    ensures failures == [] <==> HotQueryPasses(a, layer, hotName)
  {
    hide Typed, Matches, Number, SafeInteger;
    var found, maximum := Find(a, hotName), Number(layer, HotP95);
    if found.None? {
      return ["missing hot query measurement"];
    }
    if maximum.None? {
      return ["missing numeric hotQueryP95MillisecondsMaximum"];
    }
    var hot := found.value;
    var valid := GuardValid(layer);
    failures := [];
    if ToleranceConfigured(layer) && !valid {
      failures := failures + ["invalid hot query wall tolerance"];
    }
    var companions := false;
    if valid {
      var cpu := Find(a, "hot-query-process-cpu");
      if hot.unit != Milliseconds { failures := failures + ["hot query unit"]; }
      if (hot.samples as real) < SamplesMinimum(layer).value { failures := failures + ["hot query samples"]; }
      if hot.p50 > Number(layer, HotP50).value * (1.0 + P50Tolerance(layer).value) {
        failures := failures + ["hot query p50"];
      }
      if cpu.None? { failures := failures + ["missing process cpu"]; }
      else if cpu.value.unit != Milliseconds { failures := failures + ["process cpu unit"]; }
      else if cpu.value.samples != hot.samples { failures := failures + ["process cpu samples"]; }
      else if cpu.value.p95 > Number(layer, HotCpuP95).value { failures := failures + ["process cpu p95"]; }
      companions := CompanionsPass(a, layer, hot);
    }
    var tail := if valid then maximum.value * (1.0 + Number(layer, HotP95Tolerance).value) else maximum.value;
    if hot.p95 > maximum.value && (!companions || hot.p95 > tail) {
      failures := failures + ["hot query p95"];
    }
  }

  // ----- The derived safety budget -----

  const HARD_WALL := 1900.0
  const ORDINARY_WALL := 1050.0
  const SAFETY_MULTIPLIER := 2.0

  /** The Windows development layers, merged; nothing when one of them is missing. */
  function ResolvedWindows(budget: Budget): Option<Layer> {
    if budget.development.Some? && "win32" in budget.developmentByPlatform
       && WINDOWS_RUNNER in budget.developmentByRunner
    then Some(budget.development.value + budget.developmentByPlatform["win32"]
              + budget.developmentByRunner[WINDOWS_RUNNER])
    else None
  }

  /** The reviewed replica policy is present and its ordinary boundary agrees with the resolved budget. */
  predicate PolicyParses(budget: Budget) {
    && budget.reviewedReplicaPolicy
    && ResolvedWindows(budget).Some?
    && var resolved := ResolvedWindows(budget).value;
       && Number(resolved, HotP95).Some? && Number(resolved, HotP95Tolerance).Some?
       && Number(resolved, HotP95).value * (1.0 + Number(resolved, HotP95Tolerance).value) == ORDINARY_WALL
  }

  /** Wall ceilings are doubled, each nested materialization gets the ceiling of its enclosing index, and the hot query
      gets the hard wall without tolerance. */
  function SafetyOverrides(resolved: Layer): Layer
    requires Number(resolved, ColdIndexP95).Some? && Number(resolved, OneFileIncrementalP95).Some?
    requires Number(resolved, WholeGraphAnalysisP95).Some?
  {
    var cold := Num(Number(resolved, ColdIndexP95).value * SAFETY_MULTIPLIER);
    var oneFile := Num(Number(resolved, OneFileIncrementalP95).value * SAFETY_MULTIPLIER);
    map[ColdIndexP95 := cold, ColdMaterializationP95 := cold, HotP95 := Num(HARD_WALL), HotP95Tolerance := Num(0.0),
        OneFileIncrementalP95 := oneFile, OneFileMaterializationP95 := oneFile,
        WholeGraphAnalysisP95 := Num(Number(resolved, WholeGraphAnalysisP95).value * SAFETY_MULTIPLIER)]
  }

  function WindowsReplicaSafetyBudget(budget: Budget): Result<Budget> {
    var resolved := ResolvedWindows(budget);
    if resolved.None? then Thrown("Windows development policy is invalid.")
    else if Number(resolved.value, ColdIndexP95).None? || Number(resolved.value, OneFileIncrementalP95).None?
         || Number(resolved.value, WholeGraphAnalysisP95).None?
    then Thrown("resolved Windows maximum is invalid.")
    else
      var windows := budget.developmentByRunner[WINDOWS_RUNNER] + SafetyOverrides(resolved.value);
      Success(budget.(developmentByRunner := budget.developmentByRunner[WINDOWS_RUNNER := windows]))
  }

  /** The materialization phase lies inside the index run that encloses it, and each was observed once. */
  predicate Nested(a: ArtifactRecord, materialization: string, enclosing: string) {
    && Find(a, materialization).Some? && Find(a, enclosing).Some?
    && Find(a, materialization).value.maximum <= Find(a, enclosing).value.maximum
    && Find(a, enclosing).value.samples == 1
  }

  /** A nested p95 is bounded by the enclosing run: by its maximum, hence by its p95 when the enclosing statistics all
      repeat the one observation. */
  lemma NestedWithinEnclosing(a: Artifact, materialization: string, enclosing: string)
    requires Nested(a, materialization, enclosing)
    ensures 0.0 <= Find(a, materialization).value.p95 <= Find(a, enclosing).value.maximum
    ensures Flat(Find(a, enclosing).value) ==> Find(a, materialization).value.p95 <= Find(a, enclosing).value.p95
  {
    FoundParsed(a, materialization);
    FoundParsed(a, enclosing);
  }

  /** The safety layer that governs an artifact of the hosted Windows class. */
  lemma SafetyLayer(a: Artifact, budget: Budget)
    requires WindowsReplicaSafetyBudget(budget).Success? && !VectorEnabled(a)
    requires ApplicableRunner(a) == Some(WINDOWS_RUNNER)
    ensures SelectedBudget(a, budget, None) == ResolvedWindows(budget)
    ensures SelectedBudget(a, WindowsReplicaSafetyBudget(budget).value, None)
         == Some(ResolvedWindows(budget).value + SafetyOverrides(ResolvedWindows(budget).value))
  {
    hide Typed, VectorEnabled, LowerCase, Architecture;
    WindowsPlatform(a);
    hide RunnerMatches, StringMetadata, SafetyOverrides, ApplicableRunner;
    var base, win32 := budget.development.value, budget.developmentByPlatform["win32"];
    var hosted, safety := budget.developmentByRunner[WINDOWS_RUNNER], SafetyOverrides(ResolvedWindows(budget).value);
    assert (base + win32) + (hosted + safety) == (base + win32 + hosted) + safety;
  }

  lemma WindowsPlatform(a: ArtifactRecord)
    requires ApplicableRunner(a) == Some(WINDOWS_RUNNER)
    ensures StringMetadata(a, "runtimePlatform") == Some("win32")
  {
    HostedWindows();
  }

  /** An artifact to which the Windows override does not apply sees the same budget either way. */
  lemma SameLayer(a: Artifact, budget: Budget)
    requires WindowsReplicaSafetyBudget(budget).Success?
    requires VectorEnabled(a) || ApplicableRunner(a) != Some(WINDOWS_RUNNER)
    ensures SelectedBudget(a, WindowsReplicaSafetyBudget(budget).value, None) == SelectedBudget(a, budget, None)
  {
    hide Typed, VectorEnabled, ApplicableRunner, StringMetadata, SafetyOverrides;
  }

  /** The layers agree on one field, present or absent. */
  predicate Agree(x: Layer, y: Layer, field: Field) {
    (field in x <==> field in y) && (field in x ==> x[field] == y[field])
  }

  /** The hot-query boundary: 1050 with tolerance is inside 1900 without. */
  lemma HotQueryRefines(a: Artifact, resolved: Layer, safety: Layer, hotName: string)
    requires Number(resolved, HotP95).Some? && Number(resolved, HotP95Tolerance).Some?
    requires Number(resolved, HotP95).value * (1.0 + Number(resolved, HotP95Tolerance).value) == ORDINARY_WALL
    requires Number(safety, HotP95) == Some(HARD_WALL) && Number(safety, HotP95Tolerance) == Some(0.0)
    requires Agree(resolved, safety, HotP50) && Agree(resolved, safety, HotCpuP95)
    requires Agree(resolved, safety, HotSamplesMinimum) && Agree(resolved, safety, HotP50Tolerance)
    requires HotQueryPasses(a, resolved, hotName)
    ensures HotQueryPasses(a, safety, hotName)
  {
    hide Typed, Matches, SafeInteger;
    assert GuardValid(resolved);
    assert SamplesMinimum(safety) == SamplesMinimum(resolved) && P50Tolerance(safety) == P50Tolerance(resolved);
    assert GuardValid(safety);
    CeilingBelowWall(Number(resolved, HotP95).value, Number(resolved, HotP95Tolerance).value);
  }

  lemma CeilingBelowWall(ceiling: real, tolerance: real)
    requires ceiling * (1.0 + tolerance) == ORDINARY_WALL && 0.0 <= tolerance
    ensures ceiling <= ORDINARY_WALL
  {
    assert ceiling + ceiling * tolerance == ORDINARY_WALL;
  }

  /** Each nested materialization p95 is inside the doubled ceiling of its enclosing index. */
  predicate NestedCovered(a: ArtifactRecord, resolved: Layer) {
    && Number(resolved, ColdIndexP95).Some? && Number(resolved, OneFileIncrementalP95).Some?
    && Find(a, "cold-materialization").Some? && Find(a, "one-file-reindex-materialization").Some?
    && Find(a, "cold-materialization").value.p95 <= Number(resolved, ColdIndexP95).value * SAFETY_MULTIPLIER
    && Find(a, "one-file-reindex-materialization").value.p95
         <= Number(resolved, OneFileIncrementalP95).value * SAFETY_MULTIPLIER
  }

  /** The checks on the governed fields, from ordinary to safety. */
  lemma ChecksRefine(a: Artifact, resolved: Layer)
    requires Number(resolved, ColdIndexP95).Some? && Number(resolved, OneFileIncrementalP95).Some?
    requires Number(resolved, WholeGraphAnalysisP95).Some?
    requires forall i :: 0 <= i < |CHECKS| ==> CheckPasses(a, resolved, CHECKS[i].0, CHECKS[i].1)
    ensures var safety := resolved + SafetyOverrides(resolved);
            (forall i :: 0 <= i < |CHECKS| ==> CheckPasses(a, safety, CHECKS[i].0, CHECKS[i].1))
            <==> NestedCovered(a, resolved)
  {
    hide Typed, Find;
    var safety := resolved + SafetyOverrides(resolved);
    assert CheckPasses(a, resolved, CHECKS[0].0, CHECKS[0].1) && CheckPasses(a, resolved, CHECKS[1].0, CHECKS[1].1);
    assert CheckPasses(a, resolved, CHECKS[2].0, CHECKS[2].1) && CheckPasses(a, resolved, CHECKS[3].0, CHECKS[3].1);
    assert CheckPasses(a, resolved, CHECKS[4].0, CHECKS[4].1) && CheckPasses(a, resolved, CHECKS[5].0, CHECKS[5].1);
    assert CheckPasses(a, resolved, CHECKS[6].0, CHECKS[6].1);
    FoundParsed(a, "cold-index");
    FoundParsed(a, "one-file-reindex-index");
    FoundParsed(a, "whole-graph-structural-analysis");
    if forall i :: 0 <= i < |CHECKS| ==> CheckPasses(a, safety, CHECKS[i].0, CHECKS[i].1) {
      assert CheckPasses(a, safety, CHECKS[1].0, CHECKS[1].1) && CheckPasses(a, safety, CHECKS[3].0, CHECKS[3].1);
    }
  }

  /** Nesting covers the materializations once the enclosing index runs are inside their ordinary ceilings. */
  lemma NestingCovers(a: Artifact, resolved: Layer)
    requires CheckPasses(a, resolved, "cold-index", ColdIndexP95)
    requires CheckPasses(a, resolved, "one-file-reindex-index", OneFileIncrementalP95)
    requires NestedRuns(a)
    ensures NestedCovered(a, resolved)
  {
    hide Typed, Find;
    NestedWithinEnclosing(a, "cold-materialization", "cold-index");
    NestedWithinEnclosing(a, "one-file-reindex-materialization", "one-file-reindex-index");
  }

  /** The statistics of a single sample all repeat it, as the benchmark summarizes it. */
  predicate Undispersed(a: ArtifactRecord, name: string) {
    Find(a, name).Some? ==> Flat(Find(a, name).value)
  }

  /** Both materializations nest inside single undispersed index runs. */
  predicate NestedRuns(a: ArtifactRecord) {
    && Nested(a, "cold-materialization", "cold-index") && Undispersed(a, "cold-index")
    && Nested(a, "one-file-reindex-materialization", "one-file-reindex-index")
    && Undispersed(a, "one-file-reindex-index")
  }

  /** The hosted Windows layer, which the safety overrides extend, governs the artifact. */
  predicate WindowsGoverned(a: ArtifactRecord) {
    !VectorEnabled(a) && ApplicableRunner(a) == Some(WINDOWS_RUNNER)
  }

  /** Safety refines ordinary. An artifact that passes the ordinary layered budget passes the derived safety budget if
      and only if, where the runner-class layer applies at all, its materializations are inside the doubled ceilings of
      their enclosing index runs; and they always are when they nest inside those runs. */
  lemma SafetyRefinesOrdinary(a: Artifact, budget: Budget)
    requires PolicyParses(budget) && WindowsReplicaSafetyBudget(budget).Success?
    requires BudgetPasses(a, budget, None)
    ensures BudgetPasses(a, WindowsReplicaSafetyBudget(budget).value, None)
       <==> (WindowsGoverned(a) ==> NestedCovered(a, ResolvedWindows(budget).value))
    ensures NestedRuns(a) ==> BudgetPasses(a, WindowsReplicaSafetyBudget(budget).value, None)
  {
    hide Typed, NestedRuns, NestedCovered, CheckPasses, CHECKS, HotQueryPasses, VectorEnabled, ApplicableRunner,
         SelectedBudget, StringMetadata, HostedTarget;
    if !WindowsGoverned(a) {
      SameLayer(a, budget);
    } else {
      SafetyLayer(a, budget);
      var resolved := ResolvedWindows(budget).value;
      ChecksRefine(a, resolved);
      SafetyHotFields(resolved);
      HotQueryRefines(a, resolved, resolved + SafetyOverrides(resolved), HotQueryName(a));
      if NestedRuns(a) {
        EnclosingChecked(a, resolved);
        NestingCovers(a, resolved);
      }
    }
  }

  /** What the safety budget asks: doubled wall ceilings, each materialization held to the ceiling of its enclosing index,
      the ordinary memory and disk ceilings, and a hot query of at most 1900 without tolerance. */
  lemma SafetyCeilings(a: ArtifactRecord, resolved: Layer)
    requires Number(resolved, ColdIndexP95).Some? && Number(resolved, OneFileIncrementalP95).Some?
    requires Number(resolved, WholeGraphAnalysisP95).Some?
    ensures var safety := resolved + SafetyOverrides(resolved);
            WithinBudget(a, safety) <==>
              && P95AtMost(a, "cold-index", 2.0 * Number(resolved, ColdIndexP95).value)
              && P95AtMost(a, "cold-materialization", 2.0 * Number(resolved, ColdIndexP95).value)
              && P95AtMost(a, "one-file-reindex-index", 2.0 * Number(resolved, OneFileIncrementalP95).value)
              && P95AtMost(a, "one-file-reindex-materialization", 2.0 * Number(resolved, OneFileIncrementalP95).value)
              && P95AtMost(a, "whole-graph-structural-analysis", 2.0 * Number(resolved, WholeGraphAnalysisP95).value)
              && CheckPasses(a, resolved, "incremental-process-peak-rss", ProcessPeakRss)
              && CheckPasses(a, resolved, "derived-index-disk", DerivedIndexBytes)
              && HotQueryPasses(a, safety, HotQueryName(a))
  {
    hide Find, VectorEnabled, CHECKS, HotQueryPasses, WithinBudget;
    var safety := resolved + SafetyOverrides(resolved);
    WithinBudgetMeans(a, safety);
    SafetyNumbers(resolved);
    hide SafetyOverrides, Number;
  }

  lemma SafetyNumbers(resolved: Layer)
    requires Number(resolved, ColdIndexP95).Some? && Number(resolved, OneFileIncrementalP95).Some?
    requires Number(resolved, WholeGraphAnalysisP95).Some?
    ensures var safety := resolved + SafetyOverrides(resolved);
            && Number(safety, ColdIndexP95) == Number(safety, ColdMaterializationP95)
               == Some(2.0 * Number(resolved, ColdIndexP95).value)
            && Number(safety, OneFileIncrementalP95) == Number(safety, OneFileMaterializationP95)
               == Some(2.0 * Number(resolved, OneFileIncrementalP95).value)
            && Number(safety, WholeGraphAnalysisP95) == Some(2.0 * Number(resolved, WholeGraphAnalysisP95).value)
            && Number(safety, ProcessPeakRss) == Number(resolved, ProcessPeakRss)
            && Number(safety, DerivedIndexBytes) == Number(resolved, DerivedIndexBytes)
  {
  }

  /** The safety budget's hot query is at most 1900, without tolerance. */
  lemma HardWall(a: ArtifactRecord, safety: Layer, hotName: string)
    requires Number(safety, HotP95) == Some(HARD_WALL) && Number(safety, HotP95Tolerance) == Some(0.0)
    requires HotQueryPasses(a, safety, hotName)
    ensures P95AtMost(a, hotName, 1900.0)
  {
    hide Find, SafeInteger;
  }

  predicate P95AtMost(a: ArtifactRecord, name: string, ceiling: real) {
    Find(a, name).Some? && Find(a, name).value.p95 <= ceiling
  }

  lemma EnclosingChecked(a: ArtifactRecord, layer: Layer)
    requires WithinBudget(a, layer)
    ensures CheckPasses(a, layer, "cold-index", ColdIndexP95)
    ensures CheckPasses(a, layer, "one-file-reindex-index", OneFileIncrementalP95)
  {
    hide CheckPasses, HotQueryPasses;
    assert CHECKS[0] == ("cold-index", ColdIndexP95) && CHECKS[2] == ("one-file-reindex-index", OneFileIncrementalP95);
  }

  lemma SafetyHotFields(resolved: Layer)
    requires Number(resolved, ColdIndexP95).Some? && Number(resolved, OneFileIncrementalP95).Some?
    requires Number(resolved, WholeGraphAnalysisP95).Some?
    ensures var safety := resolved + SafetyOverrides(resolved);
            && Number(safety, HotP95) == Some(HARD_WALL) && Number(safety, HotP95Tolerance) == Some(0.0)
            && Agree(resolved, safety, HotP50) && Agree(resolved, safety, HotCpuP95)
            && Agree(resolved, safety, HotSamplesMinimum) && Agree(resolved, safety, HotP50Tolerance)
  {
  }
}
