# Threadnote evidence scripts: a verified model

Threadnote's `scripts/` directory produces and judges performance and correctness evidence for its code graph. This
project models the decision procedures and accounting loops of those scripts in Dafny and proves what they promise over
every input, every run or every interleaving of failures. Each module models one component; where the source updates
variables or objects step by step the model is a method or a class, proved against a specification written without it.

* **Performance ratchet** (`Ratchet`, `ProductionRatchet`, `RatchetSandwich`). Limits are generated from repeated
  governed observations and enforced statically or with a candidate-control-candidate sandwich. Main results:
  generation followed by enforcement accepts a contributor *exactly* under a checkable condition; acceptance with a
  sandwich is characterised without any order of the metrics, by the value on the candidates' line at the control's
  moment; generated limits are exactly as tight as reviewed.
* **Heavy-tail release ratchet** (`HeavyTailRatchet`). Tightening is a meet, the closing no-weaker assertion never
  refuses, the admitted set only shrinks along a chain of releases, and released limits admit their own evidence exactly
  under a checkable condition.
* **Extraction telemetry** (`ExtractionSweep`, `ExtractionTelemetry`). An event state machine feeds an interval sweep.
  What it records is read off the event history itself, and union <= summed durations <= peak x union for every history
  with a monotone clock.
* **Sorted apply** (`Coprime`, `SortedApply`). The coprime stride, two writers and their exact agreement.
* **Snapshot overlay, lease, parity, digest framing** (`SnapshotOverlay`, `SnapshotLease`, `QueryParity`,
  `VectorMappingDigest`).
* **Budget and Windows replicas** (`BenchmarkBudget`, `WindowsReplicas`). The derived safety budget refines the ordinary
  one, and what a passed gate means.
* **Smaller machines** (`FixedRateSampling`, `LegacyTermWriter`, `RssObserver`, `MaterializationStopwatch`,
  `ThreadPlan`).

`Basics`, `Sorting` and `Text` hold shared types, the library sort and decimal numerals.

Conventions: JavaScript numbers are reals or integers without rounding; clock readings are integer ticks; an exception
is a `Thrown` result; SHA-256 is injective; an SQLite keyed table is a map; regular-expression tests on measurement names
are open predicates (`NamePolicy`, `HeavyPolicy`), so every result holds for any classification of names. A failing
statement, acknowledgement or child exit is an input of the method that meets it, so results hold for every pattern of
failures.

## Where the code does not do what one might expect

For each item a lemma gives inputs that show it, and another one the exact condition under which the expected property
holds, for all inputs.

* A generated ratchet can refuse an artifact it was generated from: for a coverage counter of zero
  (`ProductionRatchet.ZeroCoverageRefused`), a measurement named `__proto__`, which an assignment to a plain record loses
  (`ProductionRatchet.RefusedContributors`), a blank measurement name, or a millisecond value without an objective beyond
  2^53 - 1, at which such limits are capped. `ProductionRatchet.GenerateThenEnforce` is the exact condition. The two
  lemmas choose a policy under which two measurements are complete evidence.
* The symbol-lookup overlay keeps a base alias row whose evidence file was deleted outright, and a base row whose
  surviving symbol dropped that lookup key (`SnapshotOverlay.DeletedEvidenceFileStaysVisible`,
  `SnapshotOverlay.DroppedSymbolKeyStaysVisible`). `SnapshotOverlay.LookupReadsBackIffFits` is the exact condition for any
  stored rows, `SnapshotOverlay.StagedFitsIff` and `SnapshotOverlay.UnstagedFitsIff` what it comes to for staged rows and
  for none.
* Parity classification reports two different nodes or edges that share an id and swap places as payload drift or as a
  score change (`QueryParity.Misreported`, `QueryParity.SharedIdsMisreported`). `QueryParity.ExactIffConsistent` is the
  exact condition: a result is classified exactly against every other one if and only if it is partial or items that share
  an id are equal.
* The length-prefixed chunks determine the chunk list but not the mapping rows behind it: every symbol id of the form
  `cgs_<hex>` is also a model directory name, so one row can be read in either of two databases of a directory
  (`VectorMappingDigest.NamesInUseOverlap`, `VectorMappingDigest.AmbiguousMappings`). `VectorMappingDigest.DeterminesIff` is
  the exact condition: no string is both.

## Model

| member | source | states |
|---|---|---|
| `Ratchet.SummaryParses` | packages/evidence/src/benchmark.ts:92-137 | every summary of non-negative samples passes the artifact parser, and all statistics of a single sample are that sample |
| `Ratchet.SingleSummary` | packages/evidence/src/benchmark.ts:113-133 | the summary of one observation repeats it in every statistic |
| `Ratchet.SummaryOfSamples` | packages/evidence/src/benchmark.ts:113-137 | a summary holds the ends and the average of the sorted samples and the samples of rank 50, 95 and 99 per cent |
| `Ratchet.NoFailuresWithin` | scripts/benchmark-code-graph.ts:7723-7751 | the failure list of one measurement is empty exactly when every bound of the limit is respected |
| `Ratchet.HeadroomMonotone` | scripts/benchmark-code-graph.ts:7335-7363 | the millisecond headroom limit never decreases as the observation grows, in every headroom class and under the objective cap |
| `Ratchet.GeneratedLimitAdmits` | scripts/benchmark-code-graph.ts:7311-7376 | in every unit and kind, an observation a limit was generated from passes it only when it is admissible (coverage at least one, no uncapped time beyond the largest safe integer), and always then if its statistics repeat it |
| `Ratchet.GeneratedLimitBand` | scripts/benchmark-code-graph.ts:7311-7377 | in every unit and kind, up to less than one unit of rounding, a generated limit lets through, of all measurements, exactly those inside the reviewed growth of the smallest and largest observation |
| `Ratchet.GeneratedLimitValid` | scripts/benchmark-code-graph.ts:7894-7963 | every generated limit is one the ratchet parser accepts, in the observed unit |
| `ProductionRatchet.BenchmarkMeasurementsByName` | scripts/benchmark-code-graph.ts:7711-7721 | the index holds, for each name, exactly the measurements of that name in order |
| `ProductionRatchet.AssessedOnce` | scripts/benchmark-code-graph.ts:7115-7129 | an assessed name of an artifact with unique assessed names occurs once among all its measurements |
| `ProductionRatchet.MatchesOccurrences` | scripts/benchmark-code-graph.ts:7711-7721 | the matches of a name are all measurements of that name, each as often as it occurs |
| `ProductionRatchet.CreateProductionRatchet` | scripts/benchmark-code-graph.ts:7043-7113 | generation succeeds exactly when at least three clean governed artifacts share one contract and every assessed metric yields a limit, and then returns the suite, environment, metadata and limits of that contract |
| `ProductionRatchet.ContributorsGoverned` | scripts/benchmark-code-graph.ts:7043-7077 | a ratchet is generated only from three or more clean governed production runs of one fixture, toolchain, runner and source identity that all measured every assessed metric |
| `ProductionRatchet.GeneratedRatchetBand` | scripts/benchmark-code-graph.ts:7078-7097 | end to end: the limit of a metric lets through exactly what is inside the reviewed growth of the smallest and largest median its artifacts hold |
| `ProductionRatchet.GenerateMeasurements` | scripts/benchmark-code-graph.ts:7078-7097 | one generated limit for each assessed name of the first artifact except `__proto__`, or a refusal when some metric was not observed once in one unit by all |
| `ProductionRatchet.ContributorConditions` | scripts/benchmark-code-graph.ts:7424-7459 | suite, environment, metadata and measurement set of the generated ratchet hold of every contributor exactly when no name was lost from it |
| `ProductionRatchet.ContributorAdmitted` | scripts/benchmark-code-graph.ts:7467-7486 | a contributor passes one generated limit exactly when its observation is admissible or, for statistics that disagree, inside the limit |
| `ProductionRatchet.GenerateThenEnforce` | scripts/benchmark-code-graph.ts:7043-7486 | round trip with its exact condition: the generated ratchet accepts a contributor if and only if no assessed name is blank or `__proto__` and every observation meets its own limit |
| `ProductionRatchet.RefusedContributors` | scripts/benchmark-code-graph.ts:7078-7097 | three artifacts from which a ratchet is generated that refuses each of them, for any zero coverage counter and for the name `__proto__` |
| `ProductionRatchet.ZeroCoverageRefused` | scripts/benchmark-code-graph.ts:7319-7323 | the same for one concrete sampler that took no sample |
| `RatchetSandwich.WeightInside` | scripts/benchmark-code-graph.ts:7868-7870 | strictly ordered creation times give a weight strictly between 0 and 1 that divides the time between the candidates as the control does |
| `RatchetSandwich.LeverLaw` | scripts/benchmark-code-graph.ts:7599-7600 | the interpolated p95 is the one value on the straight line through the candidates at the control's moment |
| `RatchetSandwich.RatchetedOnce` | scripts/benchmark-code-graph.ts:7753-7867 | pairing under the production suite leaves every ratcheted metric exactly one measurement in each of the three runs |
| `RatchetSandwich.PairedRuns` | scripts/benchmark-code-graph.ts:7753-7867 | pairing means two runs of one commit around a run of another, strictly ordered within forty minutes, on one identified runner under the reviewed environment |
| `RatchetSandwich.EnforceInterpolation` | scripts/benchmark-code-graph.ts:7579-7617 | no failure exactly when the candidates agree up to headroom and the value on their line at the control's moment is within the control's headroom limit |
| `RatchetSandwich.EnforceWithControl` | scripts/benchmark-code-graph.ts:7515-7617 | no failure exactly when one of five admission reasons holds, and the tail tolerance is used exactly when only the final candidate crosses its limit by no more than the tolerance |
| `RatchetSandwich.EnforceMeasurement` | scripts/benchmark-code-graph.ts:7467-7617 | the judgement of one metric over the three runs, including missing, repeated and mismatched measurements |
| `RatchetSandwich.EnforceStatically` | scripts/benchmark-code-graph.ts:7464-7486 | without paired evidence there is no failure exactly when each ratcheted metric occurs once, in its unit, within its limit |
| `RatchetSandwich.EnforceBetween` | scripts/benchmark-code-graph.ts:7464-7617 | the loop with its remembered tail name fails exactly when some metric is not admitted or two need the tail tolerance, whatever the order of the metrics |
| `RatchetSandwich.EnforceRatchet` | scripts/benchmark-code-graph.ts:7417-7621 | acceptance is exactly the static or the sandwich condition, neither of which mentions the loop's order |
| `RatchetSandwich.HardObjectives` | scripts/benchmark-code-graph.ts:7527-7547 | all three runs of an admitted metric attain its hard objective |
| `RatchetSandwich.AdmittedKinds` | scripts/benchmark-code-graph.ts:7515-7558 | an admitted metric passes statically in both candidates, or is the pinned bootstrap count, or is a reviewed wall metric |
| `RatchetSandwich.InterpolationBound` | scripts/benchmark-code-graph.ts:7579-7617 | the value on the line at the control's moment lies between the candidates and within the headroom limit of the control, and both candidates within the headroom limit of that |
| `RatchetSandwich.OverWhileControlMeets` | scripts/benchmark-code-graph.ts:7559-7578 | a final candidate over a limit the control meets is excused only by at most one per cent and five milliseconds, without an objective and after a passing screening run |
| `RatchetSandwich.SandwichSound` | scripts/benchmark-code-graph.ts:7464-7709 | soundness of sandwich acceptance for every ratcheted metric: kind, hard objectives, and for a control over the limit the comparison at its moment and the numeric bound; the control measurement is always present under the production suite |
| `RatchetSandwich.SingularTail` | scripts/benchmark-code-graph.ts:7568-7575 | at most one metric of an accepted artifact is over its limit in the final run while the control meets it, and by how much at most |
| `HeavyTailRatchet.HeavyTailLimitAdmits` | scripts/benchmark-code-graph-heavy-tail.ts:853-922 | in every kind, a contributing observation passes the generated limit only when it meets what its kind is pinned to, and always then if its statistics repeat it |
| `HeavyTailRatchet.HeavyTailLimitBand` | scripts/benchmark-code-graph-heavy-tail.ts:853-922 | in every kind, up to less than one unit of rounding, a generated limit lets through, of all measurements, exactly those inside the reviewed growth of the observations |
| `HeavyTailRatchet.TighteningIsMeet` | scripts/benchmark-code-graph-heavy-tail.ts:733-758 | a measurement passes the merged limit exactly when it passes both the generated and the checked limit |
| `HeavyTailRatchet.PreserveCheckedLimits` | scripts/benchmark-code-graph-heavy-tail.ts:724-746 | every generated name keeps its limit, tightened where the checked ratchet has one in the same unit |
| `HeavyTailRatchet.AssertNoWeaker` | scripts/benchmark-code-graph-heavy-tail.ts:791-823 | refuses exactly when some checked limit has no generated limit at least as tight |
| `HeavyTailRatchet.NoWeakerShrinks` | scripts/benchmark-code-graph-heavy-tail.ts:791-823 | an artifact admitted by a ratchet that is no weaker is admitted by the other one |
| `HeavyTailRatchet.MergedNoWeaker` | scripts/benchmark-code-graph-heavy-tail.ts:695-710 | once the artifacts passed the checked limits, the merged limits are never weaker than them |
| `HeavyTailRatchet.OwnEvidenceAdmitted` | scripts/benchmark-code-graph-heavy-tail.ts:620-634 | the generated limits admit an artifact they were generated from exactly when its names are unique and it meets the pins |
| `HeavyTailRatchet.ReleaseRatchet` | scripts/benchmark-code-graph-heavy-tail.ts:662-722 | release succeeds exactly when three comparable, replayed and releasable artifacts pass the checked limits; the released limits admit exactly what both ratchets admit, and the three artifacts exactly when they meet the pins |
| `HeavyTailRatchet.MergedMeet` | scripts/benchmark-code-graph-heavy-tail.ts:724-746 | the meet for whole ratchets |
| `HeavyTailRatchet.ChainShrinks` | scripts/benchmark-code-graph-heavy-tail.ts:706-710 | over any chain of releases the admitted set only shrinks |
| `ExtractionSweep.ActiveWall` | scripts/benchmark-code-graph-heavy-tail.ts:1181-1196 | merging sorted intervals computes the measure of their union |
| `ExtractionSweep.HeavyTailExtractionUtilization` | scripts/benchmark-code-graph-heavy-tail.ts:1177-1205 | union measure, summed lengths and their ratio, for intervals recorded in any order |
| `ExtractionSweep.OrderIrrelevant` | scripts/benchmark-code-graph-heavy-tail.ts:1181-1197 | the union and the sum do not depend on the recording order |
| `ExtractionSweep.LengthIsDepthSum` | scripts/benchmark-code-graph-heavy-tail.ts:1197 | the summed lengths count every tick once per interval open during it |
| `ExtractionSweep.UnionAndSum` | scripts/benchmark-code-graph-heavy-tail.ts:1177-1205 | with at most peak intervals open at once, union <= sum <= peak x union |
| `ExtractionTelemetry.HeavyTailProgressTelemetry.constructor` | scripts/benchmark-code-graph-heavy-tail.ts:1102-1109 | nothing is recorded at first |
| `ExtractionTelemetry.HeavyTailProgressTelemetry.Observe` | scripts/benchmark-code-graph-heavy-tail.ts:1111-1160 | the whole recorded state after one progress event |
| `ExtractionTelemetry.HeavyTailProgressTelemetry.Extraction` | scripts/benchmark-code-graph-heavy-tail.ts:1166-1168 | the utilization of the recorded intervals and peak |
| `ExtractionTelemetry.ActiveOfHistory` | scripts/benchmark-code-graph-heavy-tail.ts:1119-1139 | a path is active exactly when some event is the first start of it since its latest finish, and since the clock reading of that event |
| `ExtractionTelemetry.IntervalsOfHistory` | scripts/benchmark-code-graph-heavy-tail.ts:1136-1155 | every finish event records one interval, from the event that opened its path (empty when none did), and one file record; nothing else is recorded |
| `ExtractionTelemetry.PeakOfHistory` | scripts/benchmark-code-graph-heavy-tail.ts:1119-1122 | the recorded peak is the largest number of paths ever open at once, and is attained |
| `ExtractionTelemetry.TotalsOfHistory` | scripts/benchmark-code-graph-heavy-tail.ts:1123-1159 | each language's totals are the sums of what the events of the history contribute |
| `ExtractionTelemetry.ReadingOfHistory` | scripts/benchmark-code-graph-heavy-tail.ts:1111-1160 | persisted files are those of the persistence events, and the reading time is the largest one reported while scanning |
| `ExtractionTelemetry.ObservedSound` | scripts/benchmark-code-graph-heavy-tail.ts:1111-1160 | each event keeps that no tick is covered by more recorded and open extractions than the recorded peak |
| `ExtractionTelemetry.RunSound` | scripts/benchmark-code-graph-heavy-tail.ts:1111-1160 | the same for every history with non-decreasing clock readings |
| `ExtractionTelemetry.UtilizationOfEveryRun` | scripts/benchmark-code-graph-heavy-tail.ts:1706-1718 | for every such history: union <= requests <= peak x union, average 0 or in [1, peak], and the retained evidence validates exactly when the peak is at most the worker count |
| `ExtractionTelemetry.ObserveRun` | scripts/benchmark-code-graph-heavy-tail.ts:1005-1075 | the same end to end, from a fresh telemetry object over all progress events, of the intervals and the attained peak that the history itself determines |
| `ExtractionTelemetry.RunConserves` | scripts/benchmark-code-graph-heavy-tail.ts:1136-1155 | file records, intervals and per-language file and request totals account for each other after every history |
| `Coprime.GreatestCommonDivisor` | scripts/benchmark-code-graph-sorted-apply.ts:285-288 | the loop computes Euclid's recursion |
| `Coprime.GcdDivides` | scripts/benchmark-code-graph-sorted-apply.ts:285-288 | its result divides both numbers |
| `Coprime.GcdGreatest` | scripts/benchmark-code-graph-sorted-apply.ts:285-288 | every common divisor divides its result |
| `Coprime.FirstCandidateOdd` | scripts/benchmark-code-graph-sorted-apply.ts:280 | the first candidate is the odd one of the half's low 32 bits and their successor, or 1 when they are negative |
| `Coprime.EarlyCandidateCoprime` | scripts/benchmark-code-graph-sorted-apply.ts:279-283 | below 2^32, where the bitwise operator sees the whole half, one of the first two candidates is coprime to the modulus |
| `Coprime.CoprimeStep` | scripts/benchmark-code-graph-sorted-apply.ts:279-283 | terminates for every positive modulus with the first odd number coprime to it from the first candidate on, also where the half wraps around 32 bits; close to the half below 2^32 |
| `Coprime.VisitsEveryIndex` | scripts/benchmark-code-graph-sorted-apply.ts:33-36 | stepping by a coprime stride visits every index below the row count exactly once |
| `SortedApply.RowKeysDiffer` | scripts/benchmark-code-graph-sorted-apply.ts:33-46 | different generated rows have different (lookup key, symbol id) pairs |
| `SortedApply.InsertRowsStores` | scripts/benchmark-code-graph-sorted-apply.ts:222-233 | a multi-row insert into the keyed table succeeds exactly when no key is taken or repeated, and then stores exactly the added rows |
| `SortedApply.InsertDirectTransaction` | scripts/benchmark-code-graph-sorted-apply.ts:210-214 | a transaction of batches is refused exactly when a key collides, and otherwise adds exactly its rows |
| `SortedApply.DirectWriter` | scripts/benchmark-code-graph-sorted-apply.ts:48-64 | the writer inserts the rows in locally sorted batches of limited size and ends with exactly the given rows, or fails exactly when two share a key |
| `SortedApply.AppendToSpool` | scripts/benchmark-code-graph-sorted-apply.ts:83-97 | the spool receives the rows exactly once in order |
| `SortedApply.ApplyPages` | scripts/benchmark-code-graph-sorted-apply.ts:118-138 | the rowid cursor neither skips nor repeats a row, for every page size |
| `SortedApply.SortedWriter` | scripts/benchmark-code-graph-sorted-apply.ts:83-138 | append, global sort and paged apply end with exactly the given rows, and the ordered table is sorted |
| `SortedApply.CompareWriters` | scripts/benchmark-code-graph-sorted-apply.ts:31-148 | for every size parameter both writers succeed with the same keyed table, which holds every generated row exactly once, one for every canonical index |
| `SnapshotOverlay.EffectiveRowCount` | scripts/benchmark-code-graph.ts:3877-3897 | row by row, how often the effective-row query returns it, from the stored rows and deletions |
| `SnapshotOverlay.EffectiveIsOverlay` | scripts/benchmark-code-graph.ts:3877-3897 | the effective-row query returns each key at most once, and a current row wins over a deletion |
| `SnapshotOverlay.ReadsBackIffFits` | scripts/benchmark-code-graph.ts:3877-3897 | the query returns exactly a full table if and only if the delta fits it |
| `SnapshotOverlay.OverlayEqualsRebuild` | packages/graph/src/store/activation.ts:456-556 | the delta that activation stores reads back as the full table, for any base and any full table |
| `SnapshotOverlay.LeastDelta` | packages/graph/src/store/activation.ts:456-556 | every delta that reads back a full table stores at least the changed rows and deletes at least the vanished keys |
| `SnapshotOverlay.EffectiveLookupCount` | scripts/benchmark-code-graph.ts:3488-3529 | row by row, how often the lookup variant returns it; an alias of a file of the snapshot and a row of a deleted symbol are not inherited |
| `SnapshotOverlay.LookupReadsBackIffFits` | scripts/benchmark-code-graph.ts:3488-3529 | for any stored rows, the lookup variant returns exactly a full table if and only if the stored rows fit it |
| `SnapshotOverlay.UnstagedFitsIff` | packages/graph/src/store/activation.ts:580-591 | a snapshot over a base stores no lookup rows, and then reads back exactly the base rows that are not hidden |
| `SnapshotOverlay.StagedFitsIff` | scripts/benchmark-code-graph.ts:3516-3523 | with changed rows and changed files' alias rows staged, the stored rows fit if and only if every vanished base row had a deleted symbol or was an alias of a changed evidence file, and no unstaged row has a deleted symbol |
| `SnapshotOverlay.DeletedEvidenceFileStaysVisible` | scripts/benchmark-code-graph.ts:3516-3523 | an alias row whose evidence file, a base file, is deleted outright is still returned, though its symbol survives and everything is staged |
| `SnapshotOverlay.DroppedSymbolKeyStaysVisible` | scripts/benchmark-code-graph.ts:3516-3523 | a symbol row of a changed file is still returned after its symbol, which survives under another key, dropped the key |
| `SnapshotLease.CadenceBounds` | scripts/benchmark-code-graph.ts:3611-3620 | the renewal cadence is the requested one rounded down, five minutes when none is, and clamped between 100 ms and half the lease |
| `SnapshotLease.LeasedReader.constructor` | scripts/benchmark-code-graph.ts:3621-3635 | the lease runs from its acquisition and the renewal clock from the opened transaction |
| `SnapshotLease.LeasedReader.RenewLeaseIfDue` | scripts/benchmark-code-graph.ts:3636-3642 | reads the clock; exactly when the cadence has passed one renewal is made, which restarts lease and cadence and is refused only after expiry; otherwise only the check is noted |
| `SnapshotLease.LeasedReader.ReadStreams` | scripts/benchmark-code-graph.ts:3804-3834 | when the clock is steady enough for open time, cadence and gap to fit in the lease, every read and renewal of any run happens under a live lease; every stream is read whole and counted |
| `QueryParity.ClassificationIsExact` | scripts/benchmark-code-graph.ts:4749-4794 | when items that share an id are equal, each of the six classes holds exactly when the results are related as its name says and no more closely |
| `QueryParity.ExactIffConsistent` | scripts/benchmark-code-graph.ts:4749-4794 | a result is classified exactly against every other result if and only if it is partial or its items that share an id are equal |
| `QueryParity.Misreported` | scripts/benchmark-code-graph.ts:4745-4747 | every other result has one that is the same up to order and is reported neither as a match nor as ordering-only |
| `QueryParity.DigestsCompare` | scripts/benchmark-code-graph.ts:4749-4769 | each pair of digests agrees exactly when the results agree as lists, as permutations, as permutations without scores, or in their ids |
| `QueryParity.SameOrderedNodes` | scripts/benchmark-code-graph.ts:4712-4732 | results agree in order exactly when their edges, operations and nodes do, index by index in id, score and payload |
| `QueryParity.PermutedNodes` | scripts/benchmark-code-graph.ts:4749-4752 | results are permutations exactly when each node, told by id, score and payload, and each edge is returned equally often |
| `QueryParity.WhatIsDropped` | scripts/benchmark-code-graph.ts:4749-4769 | which fields of nodes and edges each relation ignores |
| `QueryParity.SharedIdsMisreported` | scripts/benchmark-code-graph.ts:4745-4747 | a concrete permutation of two nodes that share an id is reported as payload drift |
| `VectorMappingDigest.DecodeFeed` | scripts/benchmark-code-graph.ts:3976-3980 | the framed input of any chunk list decodes to exactly that list |
| `VectorMappingDigest.FeedInjective` | scripts/benchmark-code-graph.ts:3976-3980 | different chunk lists never give the same digest input |
| `VectorMappingDigest.VectorMappingInput` | scripts/benchmark-code-graph.ts:3931-3974 | the loops feed exactly the chunks of all databases and are refused exactly when there is no row |
| `VectorMappingDigest.DeterminesIff` | scripts/benchmark-code-graph.ts:3931-3974 | the digest input determines the mappings the loops can visit if and only if no string is both a model directory name and a symbol id |
| `VectorMappingDigest.AmbiguousMappings` | scripts/benchmark-code-graph.ts:3931-3974 | for any string that is both, two different visits of one model directory with two databases feed the same digest input |
| `VectorMappingDigest.NamesInUseOverlap` | scripts/benchmark-code-graph.ts:128-135 | every symbol id in use is also a model directory name, so the digest input does not determine the mappings |
| `BenchmarkBudget.LayerPrecedence` | scripts/benchmark-code-graph.ts:8061-8104 | field by field the runner-class layer overrides the platform layer, which overrides the base |
| `BenchmarkBudget.ScalePrecedence` | scripts/benchmark-code-graph.ts:8061-8104 | field by field the runner-class layer of a scale overrides the base layer of that scale |
| `BenchmarkBudget.SelectionWithoutLayers` | scripts/benchmark-code-graph.ts:8061-8104 | without a base layer nothing is selected, and a vector artifact is governed by the vector budgets alone |
| `BenchmarkBudget.RunnerApplies` | scripts/benchmark-code-graph.ts:8061-8104 | a hosted runner-class layer applies exactly on its own platform and architecture, any other one by name |
| `BenchmarkBudget.WithinBudgetMeans` | scripts/benchmark-code-graph.ts:8105-8136 | which measurement is held to which ceiling |
| `BenchmarkBudget.OverCeilingIsGuarded` | scripts/benchmark-code-graph.ts:8137-8229 | a passing hot query is over its ceiling by at most five per cent, over 25 samples or more, with median and process CPU inside the reviewed bounds |
| `BenchmarkBudget.EnforceBudget` | scripts/benchmark-code-graph.ts:8039-8232 | no failure exactly when a budget is selected, every governed p95 is within it and the guarded hot query passes |
| `BenchmarkBudget.HotQueryFailures` | scripts/benchmark-code-graph.ts:8137-8229 | the branching guard is the plain rule: a valid guard demands its companions and widens the ceiling, an unconfigured one leaves it, an invalid one fails |
| `BenchmarkBudget.NestedWithinEnclosing` | scripts/adjudicate-code-graph-windows-replicas.ts:282-293 | a nested materialization p95 is at most the maximum of its enclosing index run, hence its p95 when the statistics repeat one observation |
| `BenchmarkBudget.SafetyLayer` | scripts/adjudicate-code-graph-windows-replicas.ts:432-458 | for the hosted Windows class the safety budget is the resolved budget with the derived overrides |
| `BenchmarkBudget.SafetyCeilings` | scripts/adjudicate-code-graph-windows-replicas.ts:432-458 | the safety budget asks for doubled wall ceilings, the enclosing ceiling of each materialization, and the ordinary memory and disk ceilings |
| `BenchmarkBudget.HardWall` | scripts/adjudicate-code-graph-windows-replicas.ts:432-458 | its hot query is at most 1900, without tolerance |
| `BenchmarkBudget.SameLayer` | scripts/benchmark-code-graph.ts:8073-8081 | where the Windows override does not apply, the safety budget selects the ordinary layers |
| `BenchmarkBudget.HotQueryRefines` | scripts/adjudicate-code-graph-windows-replicas.ts:418-429 | a hot query inside the ordinary boundary of 1050 passes the hard wall of 1900 without tolerance |
| `BenchmarkBudget.SafetyRefinesOrdinary` | scripts/adjudicate-code-graph-windows-replicas.ts:432-458 | an artifact that passes the ordinary layered budget passes the derived safety budget if and only if, where the Windows layer governs it, its materializations are inside the doubled index ceilings; nesting makes sure of that |
| `WindowsReplicas.NativeReplicaMeans` | scripts/adjudicate-code-graph-windows-replicas.ts:262-328 | no invariant failures mean: the development budget and its lexical hot query govern the replica, both materializations nest in single index runs, all files but one were reused, and the incremental digests are those of the rebuild |
| `WindowsReplicas.ObserveReplica` | scripts/adjudicate-code-graph-windows-replicas.ts:126-197 | one replica's ordinary and safety verdicts, and no failure exactly when it is attested and safe |
| `WindowsReplicas.Adjudicate` | scripts/adjudicate-code-graph-windows-replicas.ts:105-254 | refused exactly when commit, policy, safety budget, fixture hash or a replica cannot be read; otherwise the gate passes exactly when ordinals are exact, all replicas attested and safe, cross-checks hold and two of three are ordinary |
| `WindowsReplicas.PassedGateMeans` | scripts/adjudicate-code-graph-windows-replicas.ts:199-254 | a passed gate means ordinals 1 to 3, all three safe, at least two ordinary, and pairwise distinct digests and runners |
| `WindowsReplicas.PassedReplicasAsReviewed` | scripts/adjudicate-code-graph-windows-replicas.ts:126-197 | every replica of a passed gate is a clean run of the expected commit and fixture on the reviewed class with the reviewed samples and process CPU, and all share one toolchain |
| `WindowsReplicas.OrdinaryReplicaIsSafe` | scripts/adjudicate-code-graph-windows-replicas.ts:164-194 | a replica that passes the ordinary budget is safe exactly when it keeps its process-CPU ceilings and its materializations are covered |
| `FixedRateSampling.SampleAtFixedRate` | scripts/benchmark-code-graph-ready-query.ts:370-387 | each request starts at its slot or when the one before it is done, whichever is later, and queue latencies obey the lateness recursion under any work and wake-up jitter |
| `FixedRateSampling.LatenessIsMaximalSuffix` | scripts/benchmark-code-graph-ready-query.ts:372-385 | with exact sleeps the latency is the largest suffix sum of work beyond the interval |
| `FixedRateSampling.LatenessDrains` | scripts/benchmark-code-graph-ready-query.ts:372-385 | lateness drains at the rate of the unused interval instead of drifting |
| `LegacyTermWriter.LegacyDatabase.Commit` | scripts/benchmark-code-graph-lexical-production.ts:300-304 | a commit that succeeds publishes the open transaction whole, one that fails publishes nothing |
| `LegacyTermWriter.Materializer.Flush` | scripts/benchmark-code-graph-lexical-production.ts:305-317 | a flush moves the batch into the transaction, committing at the threshold, and a failure leaves whole transactions that start the input |
| `LegacyTermWriter.MaterializeLegacyTerms` | scripts/benchmark-code-graph-lexical-production.ts:276-341 | rows are conserved in order with bounded inserts and transactions; after any failing step, reading past the last row included, the committed rows are a prefix made of whole transactions |
| `RssObserver.OnlyValidAnswer` | scripts/benchmark-context-brief-citations-target.ts:448-471 | the one valid answer to a begin or an end repeats its number, state and observation |
| `RssObserver.Controller.SendBarrier` | scripts/benchmark-context-brief-citations-target.ts:448-471 | each request carries the next sequence number and succeeds exactly when there is a valid answer to it |
| `RssObserver.Controller.RunObserve` | scripts/benchmark-context-brief-citations-target.ts:316-338 | an idle controller sends the begin and, once that is acknowledged, the end, and succeeds exactly when both answers are valid and the effect succeeds; any other controller sends nothing |
| `RssObserver.Controller.RunFinish` | scripts/benchmark-context-brief-citations-target.ts:339-361 | an idle controller sends a stop and finishes exactly when it is acknowledged and the child exits cleanly; any other controller sends nothing |
| `RssObserver.ProtocolAlternates` | scripts/benchmark-context-brief-citations-target.ts:311-367 | acknowledged begins and ends alternate in matching pairs, and stops come only between pairs |
| `RssObserver.EveryObservationMeasured` | scripts/benchmark-context-brief-citations-target.ts:316-338 | as long as the barriers are acknowledged, each observation contributes its own begin and end and leaves the controller idle |
| `RssObserver.SentStays` | scripts/benchmark-context-brief-citations-target.ts:311-367 | a finished controller sends nothing more |
| `RssObserver.Session` | scripts/benchmark-context-brief-citations-target.ts:311-367 | all of this for any program of sequential calls and any failing barriers, from a fresh controller |
| `MaterializationStopwatch.Stopwatch.ObserveProgress` | scripts/benchmark-code-graph-dirty-overlay.ts:440-457 | each event keeps the stopwatch equal to the time spent in materializing phases, and the metrics those of the latest stretch |
| `MaterializationStopwatch.TimeMaterialization` | scripts/benchmark-code-graph-dirty-overlay.ts:436-467 | the reported time is exactly the time spent in materializing phases, never more than the run |
| `ThreadPlan.AcceptsExactlyBalanced` | scripts/benchmark-code-graph-embedding-contexts.ts:437-465 | for two or more contexts exactly the balanced split is accepted, and one exists exactly with enough cores |

## Left out

- `ProductionRatchet.CreateProductionRatchet`: the completeness of production evidence, storage attestation, the selected metadata keys and the source identity are open functions of the artifact.
- `HeavyTailRatchet.ReleaseRatchet`: candidate commit, runner, freshness, environment and metadata conditions of a release are one open predicate, and so is the replay of an artifact from its outer evidence, which fixes its measurement names and summarizes every metric from a single sample.
- `HeavyTailRatchet.ChainShrinks`: is about measurement limits; environment and metadata conditions may change from release to release.
- `SortedApply.CompareWriters`: products of row index and stride, and of symbol ordinal and its multiplier, are exact integers; the script's numbers are exact only while they stay below 2^53.
- `ExtractionTelemetry.HeavyTailProgressTelemetry.Observe`: all durations are integer ticks, and the clock does not go backwards in the results about runs.
- `FixedRateSampling.SampleAtFixedRate`: clock advance between two adjacent readings is folded into the work and the wake-up jitter.
- `LegacyTermWriter.MaterializeLegacyTerms`: a failed commit is taken to publish nothing, and key conflicts are one kind of failing insert.
- `RssObserver.Session`: callers wait for each call; concurrent callers can pass the overlap check before either begin barrier is acknowledged.
- `VectorMappingDigest.DecodeFeed`: bytes are written as characters and text encoding is left out.
- Floating-point rounding, JSON shape validation, regular expressions, localeCompare ordering and the wording of error messages.
- SQLite pragmas, write-ahead logging, storage measurements, file locks, processes, Git and GitHub provenance checks.
- The composite digests of the structural streams, the reexport-provenance query, the slowest-file list, the timing series of the ready-query benchmark and the percentile helpers: they would add only simple members.
