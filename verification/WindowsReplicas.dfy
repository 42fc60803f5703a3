/** Adjudication of the hosted Windows replicas. */
module WindowsReplicas {
  import opened Basics
  import opened Sorting
  import opened Ratchet
  import opened ProductionRatchet
  import opened BenchmarkBudget

  datatype ReplicaInput = ReplicaInput(artifact: Artifact, warmups: nat, artifactSha256: string, replica: int)

  datatype Observation = Observation(
    replica: int, artifactSha256: string, runnerIdentity: string, ordinaryPassed: bool, safetyPassed: bool)

  datatype Gate = Gate(failures: seq<string>, passed: bool)

  const REPLICAS := 3
  const SAMPLES_PER_REPLICA: nat := 100
  const WARMUPS_PER_REPLICA: nat := 5
  const ORDINARY_PASSES_MINIMUM := 2
  const COLD_MATERIALIZATION_CPU := 3000.0
  const ONE_FILE_MATERIALIZATION_CPU := 200.0
  const WHOLE_GRAPH_CPU := 400.0

  const TIMED_ONCE: seq<string> := [
    "cold-index", "cold-materialization", "one-file-reindex-index", "one-file-reindex-materialization"]
  const NESTED: seq<(string, string)> := [
    ("cold-materialization", "cold-index"),
    ("one-file-reindex-materialization", "one-file-reindex-index")]
  const EXACT_ONE: seq<string> := [
    "one-file-reindex-materialization-staged-files", "primary-query-structural-parity",
    "structural-graph-digest-parity"]
  const DIGEST_PAIRS: seq<(string, string)> := [
    ("structuralGraphDigestIncremental", "structuralGraphDigestSameOverlayReference"),
    ("primaryQueryStructuralDigestIncremental", "primaryQueryStructuralDigestSameOverlayReference")]

  const READ_MEASUREMENTS: seq<string> := [
    "hot-exact-lexical-query", "hot-query-process-cpu", "cold-materialization-process-cpu-n1",
    "one-file-reindex-materialization-process-cpu-n1", "whole-graph-structural-analysis",
    "whole-graph-structural-analysis-process-cpu"]
  const READ_METADATA: seq<string> := ["runnerClass", "runnerIdentity", "runtimePlatform"]

  predicate Sha256(s: string) {
    |s| == 64 && LowerHex(s)
  }

  /** An exact Git SHA-1. */
  predicate GitCommit(s: string) {
    |s| == 40 && LowerHex(s)
  }

  predicate SanitizedIdentity(s: string) {
    |s| == 23 && s[..7] == "runner-" && LowerHex(s[7..])
  }

  /** A string that is present and not empty. */
  function Required(s: Option<string>): Option<string> {
    if s.Some? && s.value != "" then s else None
  }

  function RequiredMetadata(a: ArtifactRecord, key: string): Option<string> {
    Required(StringMetadata(a, key))
  }

  function NumberMetadata(a: ArtifactRecord, key: string): Option<real> {
    if key in a.metadata && a.metadata[key].Number? then Some(a.metadata[key].n) else None
  }

  predicate TimedOnce(a: ArtifactRecord, name: string) {
    Find(a, name).Some? ==> Find(a, name).value.unit == Milliseconds && Find(a, name).value.samples == 1
  }

  /** The count's every retained statistic is one. */
  predicate ExactlyOne(a: ArtifactRecord, name: string) {
    && Find(a, name).Some?
    && var m := Find(a, name).value;
       m.unit == Count && m.samples == 1 && m.minimum == m.p50 == m.p95 == m.p99 == m.maximum == 1.0
  }

  predicate WorkAccounted(a: ArtifactRecord) {
    var cold, reused := NumberMetadata(a, "coldFiles"), NumberMetadata(a, "incrementalReusedFiles");
    var staged, total := NumberMetadata(a, "oneFileReindexStagedFiles"), NumberMetadata(a, "oneFileReindexTotalFiles");
    && cold.Some? && reused.Some? && staged.Some? && total.Some?
    && staged.value == 1.0 && reused.value + 1.0 == cold.value && total.value == cold.value
  }

  predicate DigestsAgree(a: ArtifactRecord, left: string, right: string) {
    && StringMetadata(a, left).Some? && StringMetadata(a, right).Some?
    && Sha256(StringMetadata(a, left).value) && StringMetadata(a, left) == StringMetadata(a, right)
  }

  predicate LexicalNative(a: ArtifactRecord) {
    && "vectorEnabled" in a.metadata && a.metadata["vectorEnabled"] == Boolean(false)
    && "scaleSymbols" !in a.metadata
  }

  /** The materialization maximum does not exceed the maximum of its enclosing index run. */
  predicate NestedMaximum(a: ArtifactRecord, materialization: string, enclosing: string) {
    && Find(a, materialization).Some? && Find(a, enclosing).Some?
    && Find(a, materialization).value.maximum <= Find(a, enclosing).value.maximum
  }

  /** A native replica free of invariant failures. */
  predicate NativeInvariants(a: ArtifactRecord) {
    && LexicalNative(a)
    && (forall i :: 0 <= i < |TIMED_ONCE| ==> TimedOnce(a, TIMED_ONCE[i]))
    && (forall i :: 0 <= i < |NESTED| ==> NestedMaximum(a, NESTED[i].0, NESTED[i].1))
    && (forall i :: 0 <= i < |EXACT_ONE| ==> ExactlyOne(a, EXACT_ONE[i]))
    && WorkAccounted(a)
    && (forall i :: 0 <= i < |DIGEST_PAIRS| ==> DigestsAgree(a, DIGEST_PAIRS[i].0, DIGEST_PAIRS[i].1))
  }

  predicate WorkReadable(a: ArtifactRecord) {
    && NumberMetadata(a, "coldFiles").Some? && NumberMetadata(a, "incrementalReusedFiles").Some?
    && NumberMetadata(a, "oneFileReindexStagedFiles").Some? && NumberMetadata(a, "oneFileReindexTotalFiles").Some?
  }

  /** What the invariant checks read must be present, or they are refused altogether. */
  predicate InvariantsReadable(a: ArtifactRecord) {
    && (forall i :: 0 <= i < |NESTED| ==> Find(a, NESTED[i].0).Some? && Find(a, NESTED[i].1).Some?)
    && WorkReadable(a)
    && (forall i :: 0 <= i < |DIGEST_PAIRS| ==>
          RequiredMetadata(a, DIGEST_PAIRS[i].0).Some? && RequiredMetadata(a, DIGEST_PAIRS[i].1).Some?)
  }

  /** An artifact the adjudicator can read at all: unique names and everything required is present. */
  predicate Readable(a: ArtifactRecord) {
    && UniqueNames(a.measurements)
    && (forall i :: 0 <= i < |READ_MEASUREMENTS| ==> Find(a, READ_MEASUREMENTS[i]).Some?)
    && (forall i :: 0 <= i < |READ_METADATA| ==> RequiredMetadata(a, READ_METADATA[i]).Some?)
    && InvariantsReadable(a)
  }

  /** The native invariants, checked one group after another; refused at the first thing that is missing. */
  method NativeReplicaInvariantFailures(a: Artifact) returns (r: Result<seq<string>>)
    ensures r.Success? <==> InvariantsReadable(a)
    ensures r.Success? ==> (r.value == [] <==> NativeInvariants(a))
  {
    hide Typed, Find, TIMED_ONCE, NESTED, EXACT_ONE, DIGEST_PAIRS, Sha256, StringMetadata, Required, RequiredMetadata,
         NumberMetadata, TimedOnce, ExactlyOne, LexicalNative, DigestsAgree, WorkAccounted, WorkReadable;
    var failures: seq<string> := [];
    if !LexicalNative(a) { failures := failures + ["must be the lexical native fixture"]; }
    ghost var f0 := failures == [];
    for i := 0 to |TIMED_ONCE|
      invariant failures == [] <==> f0 && forall j :: 0 <= j < i ==> TimedOnce(a, TIMED_ONCE[j])
    {
      if !TimedOnce(a, TIMED_ONCE[i]) { failures := failures + ["unit or samples"]; }
    }
    ghost var f1 := failures == [];
    for i := 0 to |NESTED|
      invariant forall j :: 0 <= j < i ==> Find(a, NESTED[j].0).Some? && Find(a, NESTED[j].1).Some?
      invariant failures == [] <==> f1 && forall j :: 0 <= j < i ==> NestedMaximum(a, NESTED[j].0, NESTED[j].1)
    {
      var materialization, enclosing := Find(a, NESTED[i].0), Find(a, NESTED[i].1);
      if materialization.None? || enclosing.None? {
        return Thrown("Replica artifact is missing a measurement.");
      }
      if materialization.value.maximum > enclosing.value.maximum {
        failures := failures + ["exceeds enclosing maximum"];
      }
    }
    ghost var f2 := failures == [];
    for i := 0 to |EXACT_ONE|
      invariant failures == [] <==> f2 && forall j :: 0 <= j < i ==> ExactlyOne(a, EXACT_ONE[j])
    {
      if !ExactlyOne(a, EXACT_ONE[i]) { failures := failures + ["must retain the exact value"]; }
    }
    var work := WorkFailures(a);
    if work.Thrown? {
      return Thrown(work.message);
    }
    failures := failures + work.value;
    ghost var f3 := failures == [];
    for i := 0 to |DIGEST_PAIRS|
      invariant forall j :: 0 <= j < i ==>
                  RequiredMetadata(a, DIGEST_PAIRS[j].0).Some? && RequiredMetadata(a, DIGEST_PAIRS[j].1).Some?
      invariant failures == [] <==>
                  f3 && forall j :: 0 <= j < i ==> DigestsAgree(a, DIGEST_PAIRS[j].0, DIGEST_PAIRS[j].1)
    {
      var left, right := RequiredMetadata(a, DIGEST_PAIRS[i].0), RequiredMetadata(a, DIGEST_PAIRS[i].1);
      if left.None? || right.None? {
        return Thrown("Replica artifact metadata is invalid.");
      }
      DigestsAgreeWhen(a, DIGEST_PAIRS[i].0, DIGEST_PAIRS[i].1);
      if !Sha256(left.value) || left.value != right.value { failures := failures + ["parity digest is invalid"]; }
    }
    return Success(failures);
  }

  method WorkFailures(a: Artifact) returns (r: Result<seq<string>>)
    ensures r.Success? <==> WorkReadable(a)
    ensures r.Success? ==> (r.value == [] <==> WorkAccounted(a))
  {
    hide Typed;
    var cold, reused := NumberMetadata(a, "coldFiles"), NumberMetadata(a, "incrementalReusedFiles");
    var staged, total := NumberMetadata(a, "oneFileReindexStagedFiles"), NumberMetadata(a, "oneFileReindexTotalFiles");
    if cold.None? || reused.None? || staged.None? || total.None? {
      return Thrown("Replica artifact metadata is invalid.");
    }
    var inconsistent :=
      staged.value != 1.0 || reused.value + staged.value != cold.value || total.value != cold.value;
    return Success(if inconsistent then ["one-file incremental work accounting is inconsistent"] else []);
  }

  lemma DigestsAgreeWhen(a: ArtifactRecord, left: string, right: string)
    requires RequiredMetadata(a, left).Some? && RequiredMetadata(a, right).Some?
    ensures DigestsAgree(a, left, right)
       <==> Sha256(RequiredMetadata(a, left).value)
            && RequiredMetadata(a, left).value == RequiredMetadata(a, right).value
  {
  }

  /** What a replica without invariant failures is, whatever the rest of its artifact says: the development budget and
      its exact lexical hot query govern it, both materializations nest in single index runs, and the incremental run
      staged one file, reused all the others, and reached the digests of the full rebuild. */
  lemma NativeReplicaMeans(a: Artifact, budget: Budget)
    requires NativeInvariants(a)
    ensures HotQueryName(a) == "hot-exact-lexical-query"
    ensures SelectedBudget(a, budget, None).Some? <==> budget.development.Some?
    ensures Nested(a, "cold-materialization", "cold-index")
    ensures Nested(a, "one-file-reindex-materialization", "one-file-reindex-index")
    ensures exists files: real ::
              && NumberMetadata(a, "coldFiles") == Some(files) && NumberMetadata(a, "oneFileReindexTotalFiles") == Some(files)
              && NumberMetadata(a, "incrementalReusedFiles") == Some(files - 1.0)
    ensures StringMetadata(a, "structuralGraphDigestIncremental")
         == StringMetadata(a, "structuralGraphDigestSameOverlayReference")
    ensures StringMetadata(a, "primaryQueryStructuralDigestIncremental")
         == StringMetadata(a, "primaryQueryStructuralDigestSameOverlayReference")
  {
    hide Typed, Find, StringMetadata, Sha256, ApplicableRunner;
    assert TimedOnce(a, TIMED_ONCE[0]) && TimedOnce(a, TIMED_ONCE[2]);
    assert NestedMaximum(a, NESTED[0].0, NESTED[0].1) && NestedMaximum(a, NESTED[1].0, NESTED[1].1);
    assert DigestsAgree(a, DIGEST_PAIRS[0].0, DIGEST_PAIRS[0].1) && DigestsAgree(a, DIGEST_PAIRS[1].0, DIGEST_PAIRS[1].1);
    assert NumberMetadata(a, "coldFiles").Some?;
  }

  predicate CpuOnce(a: ArtifactRecord, name: string, maximum: real) {
    && Find(a, name).Some?
    && Find(a, name).value.unit == Milliseconds && Find(a, name).value.samples == 1
    && Find(a, name).value.maximum <= maximum
  }

  /** The process-CPU ceilings of materialization and whole-graph analysis. */
  predicate CpuSafe(a: ArtifactRecord) {
    var wall := Find(a, "whole-graph-structural-analysis");
    var cpu := Find(a, "whole-graph-structural-analysis-process-cpu");
    && CpuOnce(a, "cold-materialization-process-cpu-n1", COLD_MATERIALIZATION_CPU)
    && CpuOnce(a, "one-file-reindex-materialization-process-cpu-n1", ONE_FILE_MATERIALIZATION_CPU)
    && wall.Some? && wall.value.unit == Milliseconds && wall.value.samples == 3
    && cpu.Some? && cpu.value.unit == Milliseconds && cpu.value.samples == wall.value.samples
    && cpu.value.p95 <= WHOLE_GRAPH_CPU
  }

  predicate OrdinaryPassed(a: ArtifactRecord, budget: Budget) {
    NativeInvariants(a) && BudgetPasses(a, budget, None)
  }

  predicate SafetyPassed(a: ArtifactRecord, safety: Budget) {
    NativeInvariants(a) && BudgetPasses(a, safety, None) && CpuSafe(a)
  }

  /** The replica was measured at the expected commit and fixture on the reviewed runner class, with enough samples. */
  predicate Attested(input: ReplicaInput, commit: string, fixture: string) {
    var a := input.artifact;
    && Sha256(input.artifactSha256)
    && a.environment[Commit] == Text(commit)
    && a.environment[Dirty] == Boolean(false)
    && a.environment[FixtureHash] == Text(fixture)
    && a.suite == "code-graph-v1"
    && a.environment[EnvKey.Architecture] == Text("x64")
    && StringMetadata(a, "runnerClass") == Some(WINDOWS_RUNNER)
    && StringMetadata(a, "runnerIdentity").Some? && SanitizedIdentity(StringMetadata(a, "runnerIdentity").value)
    && StringMetadata(a, "runtimePlatform") == Some("win32")
    && input.warmups == WARMUPS_PER_REPLICA
    && Find(a, "hot-exact-lexical-query").Some?
    && Find(a, "hot-exact-lexical-query").value.samples == SAMPLES_PER_REPLICA
    && Find(a, "hot-query-process-cpu").Some?
    && Find(a, "hot-query-process-cpu").value.samples == SAMPLES_PER_REPLICA
  }

  function Identity(a: ArtifactRecord): string {
    if StringMetadata(a, "runnerIdentity").Some? then StringMetadata(a, "runnerIdentity").value else ""
  }

  function Observe(input: ReplicaInput, budget: Budget, safety: Budget): Observation {
    Observation(input.replica, input.artifactSha256, Identity(input.artifact),
                OrdinaryPassed(input.artifact, budget), SafetyPassed(input.artifact, safety))
  }

  const SHARED_ENVIRONMENT: set<EnvKey> := {
    Commit, FixtureHash, Node, PackageManager, OperatingSystem, EnvKey.Architecture}

  predicate ReplicaLeq(x: ReplicaInput, y: ReplicaInput) {
    x.replica <= y.replica
  }

  function OrdinaryCount(observations: seq<Observation>): nat {
    if observations == [] then 0
    else
      OrdinaryCount(observations[..|observations| - 1])
      + (if observations[|observations| - 1].ordinaryPassed then 1 else 0)
  }

  predicate ExactOrdinals(sorted: seq<ReplicaInput>) {
    |sorted| == REPLICAS && forall i :: 0 <= i < |sorted| ==> sorted[i].replica == i + 1
  }

  /** What is compared across all replicas. */
  predicate CrossChecked(sorted: seq<ReplicaInput>, observations: seq<Observation>) {
    && |set i | 0 <= i < |observations| :: observations[i].artifactSha256| == REPLICAS
    && |set i | 0 <= i < |observations| :: observations[i].runnerIdentity| == REPLICAS
    && (forall i, j, k :: 0 <= i < |sorted| && 0 <= j < |sorted| && k in SHARED_ENVIRONMENT ==>
          sorted[i].artifact.environment[k] == sorted[j].artifact.environment[k])
  }

  /** The adjudicated gate, over the inputs sorted by ordinal. */
  ghost predicate GatePasses(sorted: seq<ReplicaInput>, budget: Budget, safety: Budget, commit: string, fixture: string) {
    var observations := seq(|sorted|, i requires 0 <= i < |sorted| => Observe(sorted[i], budget, safety));
    && ExactOrdinals(sorted)
    && (forall i :: 0 <= i < |sorted| ==>
          Attested(sorted[i], commit, fixture) && SafetyPassed(sorted[i].artifact, safety))
    && CrossChecked(sorted, observations)
    && OrdinaryCount(observations) >= ORDINARY_PASSES_MINIMUM
  }

  /** One replica's observation and failures. */
  method ObserveReplica(input: ReplicaInput, budget: Budget, safety: Budget, commit: string, fixture: string)
    returns (r: Result<(Observation, seq<string>)>)
    ensures r.Success? <==> Readable(input.artifact)
    ensures r.Success? ==> r.value.0 == Observe(input, budget, safety)
    ensures r.Success? ==>
              (r.value.1 == [] <==> Attested(input, commit, fixture) && SafetyPassed(input.artifact, safety))
  {
    hide Typed, Find, NativeInvariants, BudgetPasses, CpuSafe, Attested, InvariantsReadable, Identity, UniqueNames;
    hide READ_MEASUREMENTS, READ_METADATA, StringMetadata;
    var a := input.artifact;
    if !Readable(a) {
      return Thrown("Replica artifact is missing required evidence.");
    }
    var failures: seq<string> := [];
    if !Attested(input, commit, fixture) { failures := failures + ["not attested"]; }
    var invariants := NativeReplicaInvariantFailures(a);
    failures := failures + invariants.value;
    var safetyFailures := EnforceBudget(a, safety, None);
    var ordinaryFailures := EnforceBudget(a, budget, None);
    failures := failures + safetyFailures;
    if !CpuSafe(a) { failures := failures + ["process cpu"]; }
    var ordinary := invariants.value == [] && ordinaryFailures == [];
    var safe := invariants.value == [] && safetyFailures == [] && CpuSafe(a);
    return Success((Observation(input.replica, input.artifactSha256, Identity(a), ordinary, safe), failures));
  }

  /** What adjudication needs before it can judge at all: an exact commit, the reviewed policy with a derivable safety
      budget and a fixture hash, and replicas that can be read. */
  predicate Adjudicable(inputs: seq<ReplicaInput>, budget: Budget, commit: string) {
    && GitCommit(commit)
    && PolicyParses(budget) && WindowsReplicaSafetyBudget(budget).Success?
    && Required(budget.fixtureHash).Some?
    && forall i :: 0 <= i < |inputs| ==> Readable(inputs[i].artifact)
  }

  /** Adjudicates the replicas. It is refused exactly when something it needs is missing; otherwise the gate passes
      exactly when it should, and the observations are those of the replicas in the order of their ordinals. */
  method Adjudicate(inputs: seq<ReplicaInput>, budget: Budget, commit: string)
    returns (r: Result<(Gate, seq<Observation>)>)
    ensures r.Success? <==> Adjudicable(inputs, budget, commit)
    ensures r.Success? ==>
              var sorted, safety := Sort(inputs, ReplicaLeq), WindowsReplicaSafetyBudget(budget).value;
              && multiset(sorted) == multiset(inputs) && |sorted| == |inputs|
              && (r.value.0.passed <==> GatePasses(sorted, budget, safety, commit, budget.fixtureHash.value))
              && (r.value.0.passed <==> r.value.0.failures == [])
              && |r.value.1| == |sorted|
              && forall i :: 0 <= i < |sorted| ==> r.value.1[i] == Observe(sorted[i], budget, safety)
  {
    hide Typed, PolicyParses, WindowsReplicaSafetyBudget, Observe, Attested, SafetyPassed, CrossChecked, Readable, Sort,
         LowerHex;
    SortPermutes(inputs, ReplicaLeq);
    if !GitCommit(commit) {
      return Thrown("Expected commit must be an exact lowercase Git SHA-1.");
    }
    if !PolicyParses(budget) {
      return Thrown("Hosted Windows replica policy does not match the reviewed contract.");
    }
    var derived := WindowsReplicaSafetyBudget(budget);
    if derived.Thrown? {
      return Thrown(derived.message);
    }
    if Required(budget.fixtureHash).None? {
      return Thrown("budget fixture hash is invalid.");
    }
    var safety, fixture := derived.value, budget.fixtureHash.value;
    var sorted := Sort(inputs, ReplicaLeq);
    SameReplicas(sorted, inputs);
    var failures: seq<string> := [];
    if !ExactOrdinals(sorted) { failures := failures + ["replica ordinals must be exactly 1,2,3"]; }
    var observations: seq<Observation> := [];
    for i := 0 to |sorted|
      invariant |observations| == i
      invariant forall j :: 0 <= j < i ==> Readable(sorted[j].artifact)
      invariant forall j :: 0 <= j < i ==> observations[j] == Observe(sorted[j], budget, safety)
      invariant failures == [] <==>
                  && ExactOrdinals(sorted)
                  && forall j :: 0 <= j < i ==>
                       Attested(sorted[j], commit, fixture) && SafetyPassed(sorted[j].artifact, safety)
    {
      var observed := ObserveReplica(sorted[i], budget, safety, commit, fixture);
      if observed.Thrown? {
        return Thrown(observed.message);
      }
      observations := observations + [observed.value.0];
      failures := failures + observed.value.1;
    }
    assert observations == seq(|sorted|, i requires 0 <= i < |sorted| => Observe(sorted[i], budget, safety));
    if !CrossChecked(sorted, observations) { failures := failures + ["must match across all replicas"]; }
    if OrdinaryCount(observations) < ORDINARY_PASSES_MINIMUM {
      failures := failures + ["ordinary performance budget"];
    }
    return Success((Gate(failures, failures == []), observations));
  }

  lemma SameReplicas(sorted: seq<ReplicaInput>, inputs: seq<ReplicaInput>)
    requires multiset(sorted) == multiset(inputs)
    ensures (forall i :: 0 <= i < |sorted| ==> Readable(sorted[i].artifact))
       <==> forall i :: 0 <= i < |inputs| ==> Readable(inputs[i].artifact)
  {
    hide Readable;
    forall i | 0 <= i < |sorted| ensures sorted[i] in inputs { assert sorted[i] in multiset(inputs); }
    forall i | 0 <= i < |inputs| ensures inputs[i] in sorted { assert inputs[i] in multiset(sorted); }
  }

  /** A clean checkout of the expected commit and fixture on the reviewed class, warmed up and sampled as the policy says,
      inside the reviewed process-CPU ceilings. */
  predicate AsReviewed(input: ReplicaInput, commit: string, fixture: string) {
    var a := input.artifact;
    var cold, oneFile := Find(a, "cold-materialization-process-cpu-n1"),
                         Find(a, "one-file-reindex-materialization-process-cpu-n1");
    var analysis := Find(a, "whole-graph-structural-analysis-process-cpu");
    && a.environment[Commit] == Text(commit) && a.environment[FixtureHash] == Text(fixture)
    && a.environment[Dirty] == Boolean(false) && a.suite == "code-graph-v1"
    && a.environment[EnvKey.Architecture] == Text("x64")
    && StringMetadata(a, "runnerClass") == Some("github-hosted-windows-x64")
    && StringMetadata(a, "runtimePlatform") == Some("win32")
    && |Identity(a)| == 23 && Identity(a)[..7] == "runner-" && LowerHex(Identity(a)[7..])
    && |input.artifactSha256| == 64 && LowerHex(input.artifactSha256)
    && input.warmups == 5
    && Find(a, "hot-exact-lexical-query").Some? && Find(a, "hot-exact-lexical-query").value.samples == 100
    && Find(a, "hot-query-process-cpu").Some? && Find(a, "hot-query-process-cpu").value.samples == 100
    && cold.Some? && cold.value.maximum <= 3000.0
    && oneFile.Some? && oneFile.value.maximum <= 200.0
    && analysis.Some? && analysis.value.samples == 3 && analysis.value.p95 <= 400.0
  }

  lemma SafeAndAttested(input: ReplicaInput, safety: Budget, commit: string, fixture: string)
    requires Attested(input, commit, fixture) && SafetyPassed(input.artifact, safety)
    ensures AsReviewed(input, commit, fixture)
  {
    hide Typed, Find, NativeInvariants, BudgetPasses, StringMetadata, LowerHex;
  }

  /** Every replica of a passed gate is as reviewed, and all share one checkout, fixture and toolchain. */
  lemma PassedReplicasAsReviewed(sorted: seq<ReplicaInput>, budget: Budget, safety: Budget, commit: string,
                                 fixture: string)
    requires GatePasses(sorted, budget, safety, commit, fixture)
    ensures |sorted| == 3 && forall i :: 0 <= i < 3 ==> AsReviewed(sorted[i], commit, fixture)
    ensures forall i, j, k :: 0 <= i < 3 && 0 <= j < 3 && k in {Commit, FixtureHash, Node, PackageManager, OperatingSystem} ==>
              sorted[i].artifact.environment[k] == sorted[j].artifact.environment[k]
  {
    hide Typed, Attested, SafetyPassed, Observe, OrdinaryCount, AsReviewed;
    forall i | 0 <= i < 3 ensures AsReviewed(sorted[i], commit, fixture) {
      SafeAndAttested(sorted[i], safety, commit, fixture);
    }
  }

  /** What a passed gate means: ordinals exactly 1 to 3, every replica safe, at least two ordinary, and digests and
      runner identities pairwise distinct. */
  lemma PassedGateMeans(sorted: seq<ReplicaInput>, budget: Budget, safety: Budget, commit: string, fixture: string)
    requires GatePasses(sorted, budget, safety, commit, fixture)
    ensures |sorted| == 3 && forall i :: 0 <= i < 3 ==> sorted[i].replica == i + 1 && SafetyPassed(sorted[i].artifact, safety)
    ensures exists i, j :: 0 <= i < j < 3
              && OrdinaryPassed(sorted[i].artifact, budget) && OrdinaryPassed(sorted[j].artifact, budget)
    ensures forall i, j :: 0 <= i < j < 3 ==>
              && sorted[i].artifactSha256 != sorted[j].artifactSha256
              && Identity(sorted[i].artifact) != Identity(sorted[j].artifact)
  {
    hide Typed, Attested, SafetyPassed, OrdinaryPassed, Identity, CrossChecked, OrdinaryCount;
    var observations := seq(|sorted|, i requires 0 <= i < |sorted| => Observe(sorted[i], budget, safety));
    TwoOfThree(observations);
    CrossCheckedDistinct(sorted, observations);
    assert observations[0] == Observe(sorted[0], budget, safety);
    assert observations[1] == Observe(sorted[1], budget, safety);
    assert observations[2] == Observe(sorted[2], budget, safety);
  }

  lemma CrossCheckedDistinct(sorted: seq<ReplicaInput>, o: seq<Observation>)
    requires CrossChecked(sorted, o) && |o| == 3
    ensures forall i, j :: 0 <= i < j < 3 ==>
              o[i].artifactSha256 != o[j].artifactSha256 && o[i].runnerIdentity != o[j].runnerIdentity
  {
    var shas := set i | 0 <= i < |o| :: o[i].artifactSha256;
    var identities := set i | 0 <= i < |o| :: o[i].runnerIdentity;
    assert shas == {o[0].artifactSha256, o[1].artifactSha256, o[2].artifactSha256};
    assert identities == {o[0].runnerIdentity, o[1].runnerIdentity, o[2].runnerIdentity};
    ThreeDistinct(o[0].artifactSha256, o[1].artifactSha256, o[2].artifactSha256);
    ThreeDistinct(o[0].runnerIdentity, o[1].runnerIdentity, o[2].runnerIdentity);
  }

  lemma ThreeDistinct(x: string, y: string, z: string)
    requires |{x, y, z}| == 3
    ensures x != y && y != z && x != z
  {
  }

  lemma TwoOfThree(observations: seq<Observation>)
    requires |observations| == 3 && OrdinaryCount(observations) >= 2
    ensures exists i, j :: 0 <= i < j < 3 && observations[i].ordinaryPassed && observations[j].ordinaryPassed
  {
    var two := observations[..2];
    assert two[..1][..0] == [] && two[..1] == [observations[0]];
    assert OrdinaryCount(two[..1]) <= 1 && OrdinaryCount(two[..0]) == 0;
    assert OrdinaryCount(observations)
        == OrdinaryCount(two) + (if observations[2].ordinaryPassed then 1 else 0);
    assert OrdinaryCount(two) == OrdinaryCount(two[..1]) + (if observations[1].ordinaryPassed then 1 else 0);
    if !observations[0].ordinaryPassed {
      assert OrdinaryCount(two[..1]) == 0;
      assert observations[1].ordinaryPassed && observations[2].ordinaryPassed;
    } else if observations[1].ordinaryPassed {
      assert observations[0].ordinaryPassed && observations[1].ordinaryPassed;
    } else {
      assert observations[0].ordinaryPassed && observations[2].ordinaryPassed;
    }
  }

  /** A replica that passes the ordinary budget is safe exactly when it keeps its process-CPU ceilings and, where the
      Windows layer governs it, its materializations are covered; the latter is certain when its index runs are
      undispersed. */
  lemma OrdinaryReplicaIsSafe(a: Artifact, budget: Budget)
    requires PolicyParses(budget) && WindowsReplicaSafetyBudget(budget).Success?
    requires OrdinaryPassed(a, budget)
    ensures SafetyPassed(a, WindowsReplicaSafetyBudget(budget).value)
       <==> CpuSafe(a) && (WindowsGoverned(a) ==> NestedCovered(a, ResolvedWindows(budget).value))
    ensures Undispersed(a, "cold-index") && Undispersed(a, "one-file-reindex-index") ==>
              (SafetyPassed(a, WindowsReplicaSafetyBudget(budget).value) <==> CpuSafe(a))
  {
    hide Typed, PolicyParses, WindowsReplicaSafetyBudget, BudgetPasses, Find, NativeInvariants, CpuSafe, NestedCovered,
         WindowsGoverned, Nested, Undispersed, HotQueryName, SelectedBudget, NumberMetadata, StringMetadata;
    NativeReplicaMeans(a, budget);
    SafetyRefinesOrdinary(a, budget);
  }
}
