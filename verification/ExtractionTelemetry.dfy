/** The heavy-tail progress telemetry: start, finish and persistence events, and what any run of them records. */
module ExtractionTelemetry {
  import opened Basics
  import opened ExtractionSweep

  datatype Stage = Extracting | Persisting | OtherStage

  datatype Activity = Activity(
    stage: Stage, path: string, language: string, bytes: nat, factsBytes: Option<nat>, parseTicks: Option<nat>,
    persistTicks: Option<nat>, batchCompleted: nat, symbols: Option<nat>, relations: Option<nat>, degraded: bool)

  /** A progress event; `scanning` says whether its phase is the scanning phase. */
  datatype Progress = Progress(scanning: bool, readingTicks: Option<nat>, activity: Option<Activity>)

  datatype Language = Language(
    degradedFiles: nat, factsBytes: nat, files: nat, parseTicks: nat, persistenceTicks: nat, requestTicks: int,
    relations: nat, sourceBytes: nat, symbols: nat)

  datatype SlowFile = SlowFile(
    bytes: nat, factsBytes: nat, language: string, parseTicks: nat, path: string, requestTicks: int)

  datatype Recorded = Recorded(
    active: map<string, int>, intervals: seq<Interval>, languages: map<string, Language>, slowFiles: seq<SlowFile>,
    peak: nat, persistedFiles: nat, readingTicks: nat)

  const NO_LANGUAGE := Language(0, 0, 0, 0, 0, 0, 0, 0, 0)
  const NOTHING := Recorded(map[], [], map[], [], 0, 0, 0)

  function Or(o: Option<nat>): nat {
    if o.Some? then o.value else 0
  }

  predicate IsStart(a: Activity) {
    a.stage == Extracting && a.parseTicks.None?
  }

  /** What is recorded after one event observed at clock reading `now`. */
  function Observed(r: Recorded, p: Progress, now: int): Recorded {
    if !p.scanning then r else
    var r := r.(readingTicks := Larger(r.readingTicks, Or(p.readingTicks)));
    if p.activity.None? then r else
    var a := p.activity.value;
    if IsStart(a) then Started(r, a.path, now) else
    var known := if a.language in r.languages then r.languages[a.language] else NO_LANGUAGE;
    if a.stage == Extracting then Finished(r, a, known, now)
    else if a.stage == Persisting && a.persistTicks.Some? then
      r.(languages := r.languages[a.language := known.(persistenceTicks := known.persistenceTicks + a.persistTicks.value)],
         persistedFiles := r.persistedFiles + a.batchCompleted)
    else r.(languages := r.languages[a.language := known])
  }

  function Started(r: Recorded, path: string, now: int): Recorded {
    var active := if path in r.active then r.active else r.active[path := now];
    r.(active := active, peak := Larger(r.peak, |active|))
  }

  function StartOf(r: Recorded, path: string, now: int): int {
    if path in r.active then r.active[path] else now
  }

  function Finished(r: Recorded, a: Activity, known: Language, now: int): Recorded
    requires a.parseTicks.Some?
  {
    var startedAt := StartOf(r, a.path, now);
    var request := Larger(0, now - startedAt);
    r.(active := r.active - {a.path},
       intervals := r.intervals + [Interval(startedAt, now)],
       languages := r.languages[a.language := known.(
         degradedFiles := known.degradedFiles + (if a.degraded then 1 else 0),
         factsBytes := known.factsBytes + Or(a.factsBytes),
         files := known.files + 1,
         parseTicks := known.parseTicks + a.parseTicks.value,
         requestTicks := known.requestTicks + request,
         relations := known.relations + Or(a.relations),
         sourceBytes := known.sourceBytes + a.bytes,
         symbols := known.symbols + Or(a.symbols))],
       slowFiles := r.slowFiles + [
         SlowFile(a.bytes, Or(a.factsBytes), a.language, a.parseTicks.value, a.path, request)])
  }

  class HeavyTailProgressTelemetry {
    var activeExtractions: map<string, int>
    var extractionIntervals: seq<Interval>
    var languages: map<string, Language>
    var slowFiles: seq<SlowFile>
    var peakExtractionConcurrency: nat
    var persistedFiles: nat
    var readingTicks: nat

    ghost function Contents(): Recorded
      reads this
    {
      Recorded(activeExtractions, extractionIntervals, languages, slowFiles, peakExtractionConcurrency,
               persistedFiles, readingTicks)
    }

    constructor ()
      ensures Contents() == NOTHING
    {
      activeExtractions, extractionIntervals, languages, slowFiles := map[], [], map[], [];
      peakExtractionConcurrency, persistedFiles, readingTicks := 0, 0, 0;
    }

    method Observe(progress: Progress, now: int)
      modifies this
      ensures Contents() == Observed(old(Contents()), progress, now)
    {
      if !progress.scanning { return; }
      readingTicks := Larger(readingTicks, Or(progress.readingTicks));
      if progress.activity.None? { return; }
      var activity := progress.activity.value;
      if activity.stage == Extracting && activity.parseTicks.None? {
        if activity.path !in activeExtractions {
          activeExtractions := activeExtractions[activity.path := now];
        }
        peakExtractionConcurrency := Larger(peakExtractionConcurrency, |activeExtractions|);
        return;
      }
      var language := if activity.language in languages then languages[activity.language] else NO_LANGUAGE;
      if activity.stage == Extracting {
        FinishExtraction(activity, language, now);
      } else if activity.stage == Persisting && activity.persistTicks.Some? {
        language := language.(persistenceTicks := language.persistenceTicks + activity.persistTicks.value);
        languages := languages[activity.language := language];
        persistedFiles := persistedFiles + activity.batchCompleted;
      } else {
        languages := languages[activity.language := language];
      }
    }

    method FinishExtraction(activity: Activity, known: Language, now: int)
      requires activity.parseTicks.Some?
      modifies this
      ensures Contents() == Finished(old(Contents()), activity, known, now)
    {
      var startedAt := if activity.path in activeExtractions then activeExtractions[activity.path] else now;
      activeExtractions := activeExtractions - {activity.path};
      var request := Larger(0, now - startedAt);
      extractionIntervals := extractionIntervals + [Interval(startedAt, now)];
      languages := languages[activity.language := known.(
        degradedFiles := known.degradedFiles + (if activity.degraded then 1 else 0),
        factsBytes := known.factsBytes + Or(activity.factsBytes),
        files := known.files + 1,
        parseTicks := known.parseTicks + activity.parseTicks.value,
        requestTicks := known.requestTicks + request,
        relations := known.relations + Or(activity.relations),
        sourceBytes := known.sourceBytes + activity.bytes,
        symbols := known.symbols + Or(activity.symbols))];
      slowFiles := slowFiles + [
        SlowFile(activity.bytes, Or(activity.factsBytes), activity.language, activity.parseTicks.value,
                 activity.path, request)];
    }

    method Extraction() returns (u: Utilization)
      requires Forward(extractionIntervals)
      ensures u.activeWall == |Covered(extractionIntervals)|
      ensures u.request == TotalLength(extractionIntervals)
      ensures u.peakConcurrency == peakExtractionConcurrency
      ensures u.averageConcurrency == if u.activeWall == 0 then 0.0 else u.request as real / u.activeWall as real
    {
      u := HeavyTailExtractionUtilization(extractionIntervals, peakExtractionConcurrency);
    }
  }

  // ----- Whole runs -----

  datatype Event = Event(progress: Progress, now: int)

  ghost predicate ClockMonotone(history: seq<Event>) {
    forall i, j :: 0 <= i < j < |history| ==> history[i].now <= history[j].now
  }

  ghost function Run(history: seq<Event>): Recorded {
    if history == [] then NOTHING
    else
      var last := history[|history| - 1];
      Observed(Run(history[..|history| - 1]), last.progress, last.now)
  }

  // ----- What is recorded, read off the history itself -----

  predicate StartEvent(e: Event) {
    && e.progress.scanning && e.progress.activity.Some?
    && e.progress.activity.value.stage == Extracting && e.progress.activity.value.parseTicks.None?
  }

  predicate FinishEvent(e: Event) {
    && e.progress.scanning && e.progress.activity.Some?
    && e.progress.activity.value.stage == Extracting && e.progress.activity.value.parseTicks.Some?
  }

  function PathOf(e: Event): string {
    if e.progress.activity.Some? then e.progress.activity.value.path else ""
  }

  predicate Starts(e: Event, path: string) {
    StartEvent(e) && PathOf(e) == path
  }

  predicate Finishes(e: Event, path: string) {
    FinishEvent(e) && PathOf(e) == path
  }

  /** Event i is the first start of the path since its latest finish before n. */
  ghost predicate OpenedAt(history: seq<Event>, n: nat, path: string, i: nat)
    requires n <= |history|
  {
    && i < n && Starts(history[i], path)
    && (forall k :: i < k < n ==> !Finishes(history[k], path))
    && (forall k :: 0 <= k < i && Starts(history[k], path) ==> exists m :: k < m < i && Finishes(history[m], path))
  }

  /** The paths opened and not finished before n. */
  ghost function OpenPaths(history: seq<Event>, n: nat): set<string>
    requires n <= |history|
  {
    set i: nat | i < n && OpenedAt(history, n, PathOf(history[i]), i) :: PathOf(history[i])
  }

  lemma InOpenPaths(history: seq<Event>, n: nat, path: string)
    requires n <= |history|
    ensures path in OpenPaths(history, n) <==> exists i: nat :: OpenedAt(history, n, path, i)
  {
    if i: nat :| OpenedAt(history, n, path, i) {
      assert PathOf(history[i]) == path;
    }
  }

  /** The interval that finish event j records: from the start that opened its path, or empty when nothing did. */
  ghost predicate IntervalAt(history: seq<Event>, j: nat, iv: Interval)
    requires j < |history|
  {
    && iv.end == history[j].now
    && (forall i: nat :: OpenedAt(history, j, PathOf(history[j]), i) ==> iv.start == history[i].now)
    && (PathOf(history[j]) !in OpenPaths(history, j) ==> iv.start == history[j].now)
  }

  /** The finish events, in order. */
  ghost function FinishEvents(history: seq<Event>): (finishes: seq<nat>)
    ensures forall n :: 0 <= n < |finishes| ==> finishes[n] < |history| && FinishEvent(history[finishes[n]])
  {
    if history == [] then []
    else
      var before := history[..|history| - 1];
      FinishEvents(before) + (if FinishEvent(history[|history| - 1]) then [|history| - 1] else [])
  }

  /** Every finish event is listed, once and in order. */
  lemma {:induction false} FinishEventsComplete(history: seq<Event>)
    ensures forall j :: 0 <= j < |history| && FinishEvent(history[j]) ==> j in FinishEvents(history)
    ensures forall m, n :: 0 <= m < n < |FinishEvents(history)| ==> FinishEvents(history)[m] < FinishEvents(history)[n]
  {
    if history != [] {
      var before := history[..|history| - 1];
      FinishEventsComplete(before);
      forall j | 0 <= j < |history| && FinishEvent(history[j]) ensures j in FinishEvents(history) {
        if j < |before| { assert before[j] == history[j] && j in FinishEvents(before); }
      }
    }
  }

  /** How one more event changes what opened a path. */
  lemma OpenedAtExtends(history: seq<Event>, n: nat, path: string)
    requires |history| == n + 1
    ensures Finishes(history[n], path) ==> forall i: nat :: !OpenedAt(history, |history|, path, i)
    ensures !Finishes(history[n], path) ==>
              forall i: nat :: i < n ==> (OpenedAt(history, |history|, path, i) <==> OpenedAt(history, n, path, i))
    ensures OpenedAt(history, |history|, path, n) <==>
              Starts(history[n], path) && forall k: nat :: !OpenedAt(history, n, path, k)
  {
    var last := history[n];
    if OpenedAt(history, n + 1, path, n) {
      forall k: nat ensures !OpenedAt(history, n, path, k) {}
    }
    if Starts(last, path) && forall k: nat :: !OpenedAt(history, n, path, k) {
      forall k | 0 <= k < n && Starts(history[k], path) ensures exists m :: k < m < n && Finishes(history[m], path) {
        if forall m :: k < m < n ==> !Finishes(history[m], path) {
          FirstUnfinished(history, n, path, k);
        }
      }
    }
  }

  /** A start with no finish after it: some start at or before it opened the path. */
  lemma {:induction false} FirstUnfinished(history: seq<Event>, n: nat, path: string, k: nat)
    requires n <= |history| && k < n && Starts(history[k], path)
    requires forall m :: k < m < n ==> !Finishes(history[m], path)
    ensures exists i: nat :: OpenedAt(history, n, path, i)
  {
    if e :| 0 <= e < k && Starts(history[e], path) && forall m :: e < m < k ==> !Finishes(history[m], path) {
      assert forall m :: e < m < n ==> m == k || !Finishes(history[m], path);
      FirstUnfinished(history, n, path, e);
    } else {
      assert OpenedAt(history, n, path, k);
    }
  }

  lemma OpenedAtPrefix(history: seq<Event>, n: nat, m: nat, path: string, i: nat)
    requires m <= n <= |history|
    ensures OpenedAt(history[..n], m, path, i) <==> OpenedAt(history, m, path, i)
  {
    var prefix := history[..n];
    assert forall k :: 0 <= k < n ==> prefix[k] == history[k];
    if OpenedAt(history, m, path, i) {
      forall k | 0 <= k < i && Starts(prefix[k], path) ensures exists e :: k < e < i && Finishes(prefix[e], path) {
        assert Starts(history[k], path);
        var e :| k < e < i && Finishes(history[e], path);
        assert Finishes(prefix[e], path);
      }
    }
    if OpenedAt(prefix, m, path, i) {
      forall k | 0 <= k < i && Starts(history[k], path) ensures exists e :: k < e < i && Finishes(history[e], path) {
        assert Starts(prefix[k], path);
        var e :| k < e < i && Finishes(prefix[e], path);
        assert Finishes(history[e], path);
      }
    }
  }

  /** One event and one path: a start opens it unless it is open, a finish closes it, nothing else touches it. */
  lemma ActiveAfter(r: Recorded, e: Event, path: string)
    ensures var active := Observed(r, e.progress, e.now).active;
            && (Starts(e, path) ==> path in active && active[path] == if path in r.active then r.active[path] else e.now)
            && (Finishes(e, path) ==> path !in active)
            && (!Starts(e, path) && !Finishes(e, path) ==>
                  (path in active <==> path in r.active) && (path in active ==> active[path] == r.active[path]))
  {
  }

  /** A path is active exactly when some event opened it, since the clock reading of that event. */
  lemma {:induction false} ActiveOfHistory(history: seq<Event>, path: string)
    ensures path in Run(history).active <==> exists i: nat :: OpenedAt(history, |history|, path, i)
    ensures forall i: nat :: OpenedAt(history, |history|, path, i) ==>
              path in Run(history).active && Run(history).active[path] == history[i].now
  {
    if history != [] {
      var n, last := |history| - 1, history[|history| - 1];
      var before := history[..n];
      ActiveOfHistory(before, path);
      ActiveAfter(Run(before), last, path);
      forall i: nat ensures OpenedAt(before, n, path, i) <==> OpenedAt(history, n, path, i) {
        OpenedAtPrefix(history, n, n, path, i);
      }
      OpenedAtExtends(history, n, path);
      hide OpenedAt, Observed, Finished, Started;
      if Starts(last, path) && path !in Run(before).active {
        assert OpenedAt(history, n + 1, path, n);
      } else if path in Run(before).active && !Finishes(last, path) {
        var i: nat :| OpenedAt(before, n, path, i);
        InRange(before, n, path, i);
        assert OpenedAt(history, n + 1, path, i);
      }
      forall i: nat | OpenedAt(history, n + 1, path, i)
        ensures path in Run(history).active && Run(history).active[path] == history[i].now
      {
        InRange(history, n + 1, path, i);
        if i < n { assert OpenedAt(before, n, path, i) && before[i] == history[i]; }
      }
    }
  }

  lemma InRange(history: seq<Event>, n: nat, path: string, i: nat)
    requires n <= |history| && OpenedAt(history, n, path, i)
    ensures i < n
  {
  }

  lemma ActivePaths(history: seq<Event>)
    ensures Run(history).active.Keys == OpenPaths(history, |history|)
  {
    forall path ensures path in Run(history).active <==> path in OpenPaths(history, |history|) {
      ActiveOfHistory(history, path);
      InOpenPaths(history, |history|, path);
    }
  }

  /** What a finished extraction's file record says of it. */
  predicate FileAt(e: Event, iv: Interval, file: SlowFile)
    requires FinishEvent(e)
  {
    var a := e.progress.activity.value;
    && file.path == a.path && file.language == a.language && file.bytes == a.bytes
    && file.factsBytes == Or(a.factsBytes) && file.parseTicks == a.parseTicks.value
    && file.requestTicks == Larger(0, Length(iv))
  }

  /** One interval and one file record per finish event, in order, as the history says. */
  ghost predicate RecordsHistory(history: seq<Event>, intervals: seq<Interval>, files: seq<SlowFile>) {
    var finishes := FinishEvents(history);
    && |intervals| == |files| == |finishes|
    && forall n :: 0 <= n < |finishes| ==>
         IntervalAt(history, finishes[n], intervals[n]) && FileAt(history[finishes[n]], intervals[n], files[n])
  }

  lemma RecordsAfter(r: Recorded, e: Event)
    ensures var r' := Observed(r, e.progress, e.now);
            if FinishEvent(e) then
              var iv := Interval(if PathOf(e) in r.active then r.active[PathOf(e)] else e.now, e.now);
              && r'.intervals == r.intervals + [iv]
              && |r'.slowFiles| == |r.slowFiles| + 1 && r'.slowFiles[..|r.slowFiles|] == r.slowFiles
              && FileAt(e, iv, r'.slowFiles[|r.slowFiles|])
            else r'.intervals == r.intervals && r'.slowFiles == r.slowFiles
  {
  }

  /** Every finish records exactly the interval from the first start of its path since the path's previous finish, or an
      empty one when there is no such start; and nothing else is recorded. */
  lemma {:induction false} IntervalsOfHistory(history: seq<Event>)
    ensures RecordsHistory(history, Run(history).intervals, Run(history).slowFiles)
  {
    if history != [] {
      var n := |history| - 1;
      var r, r' := Run(history[..n]), Run(history);
      IntervalsOfHistory(history[..n]);
      RecordsKept(history, n, r.intervals, r.slowFiles);
      RecordsAfter(r, history[n]);
      LastInterval(history);
      hide Run, Observed, IntervalAt, FileAt;
      assert history[..n + 1] == history;
      if FinishEvent(history[n]) {
        RecordsGrow(history, n, r'.intervals, r'.slowFiles);
      }
    }
  }

  /** The records of a prefix are right for the whole history. */
  ghost predicate RecordsUpTo(history: seq<Event>, n: nat, intervals: seq<Interval>, files: seq<SlowFile>)
    requires n <= |history|
  {
    var finishes := FinishEvents(history[..n]);
    && |intervals| == |files| == |finishes|
    && forall k :: 0 <= k < |finishes| ==>
         finishes[k] < n && FinishEvent(history[finishes[k]])
         && IntervalAt(history, finishes[k], intervals[k]) && FileAt(history[finishes[k]], intervals[k], files[k])
  }

  lemma RecordsKept(history: seq<Event>, n: nat, intervals: seq<Interval>, files: seq<SlowFile>)
    requires n <= |history| && RecordsHistory(history[..n], intervals, files)
    ensures RecordsUpTo(history, n, intervals, files)
  {
    var before := history[..n];
    var finishes := FinishEvents(before);
    hide IntervalAt, FileAt;
    forall k | 0 <= k < |finishes|
      ensures finishes[k] < n && FinishEvent(history[finishes[k]])
      ensures IntervalAt(history, finishes[k], intervals[k]) && FileAt(history[finishes[k]], intervals[k], files[k])
    {
      assert before[finishes[k]] == history[finishes[k]];
      IntervalAtPrefix(history, n, finishes[k], intervals[k]);
    }
  }

  lemma RecordsGrow(history: seq<Event>, n: nat, intervals: seq<Interval>, files: seq<SlowFile>)
    requires |history| == n + 1 && FinishEvent(history[n])
    requires |intervals| == |files| > 0
    requires RecordsUpTo(history, n, intervals[..|intervals| - 1], files[..|files| - 1])
    requires IntervalAt(history, n, intervals[|intervals| - 1])
    requires FileAt(history[n], intervals[|intervals| - 1], files[|files| - 1])
    ensures RecordsHistory(history, intervals, files)
  {
    hide IntervalAt, FileAt;
    var finishes := FinishEvents(history[..n]);
    var last := |intervals| - 1;
    assert FinishEvents(history) == finishes + [n];
    forall k | 0 <= k < |finishes| ensures intervals[..last][k] == intervals[k] && files[..last][k] == files[k] {}
  }

  lemma IntervalAtPrefix(history: seq<Event>, n: nat, j: nat, iv: Interval)
    requires j < n <= |history|
    ensures IntervalAt(history[..n], j, iv) <==> IntervalAt(history, j, iv)
  {
    var prefix, path := history[..n], PathOf(history[j]);
    forall i: nat ensures OpenedAt(prefix, j, path, i) <==> OpenedAt(history, j, path, i) {
      OpenedAtPrefix(history, n, j, path, i);
    }
    InOpenPaths(prefix, j, path);
    InOpenPaths(history, j, path);
    forall i: nat | OpenedAt(history, j, path, i) ensures i < j && prefix[i] == history[i] {
      InRange(history, j, path, i);
    }
    hide OpenedAt, OpenPaths;
  }

  lemma LastInterval(history: seq<Event>)
    requires history != []
    ensures var n, last := |history| - 1, history[|history| - 1];
            var r := Run(history[..n]);
            IntervalAt(history, n, Interval(if PathOf(last) in r.active then r.active[PathOf(last)] else last.now, last.now))
  {
    var n, last := |history| - 1, history[|history| - 1];
    var before, path := history[..n], PathOf(last);
    ActiveOfHistory(before, path);
    forall i: nat ensures OpenedAt(before, n, path, i) <==> OpenedAt(history, n, path, i) {
      OpenedAtPrefix(history, n, n, path, i);
    }
    InOpenPaths(history, n, path);
    forall i: nat | OpenedAt(history, n, path, i) ensures i < n && before[i] == history[i] {
      InRange(history, n, path, i);
    }
    hide OpenedAt, OpenPaths, Run;
  }

  /** The peak is the largest number of paths ever open at once, and it is attained. */
  ghost predicate PeakOf(history: seq<Event>, peak: nat) {
    && (forall n :: 0 <= n <= |history| ==> |OpenPaths(history, n)| <= peak)
    && exists n :: 0 <= n <= |history| && |OpenPaths(history, n)| == peak
  }

  lemma OpenPathsPrefix(history: seq<Event>, n: nat, m: nat)
    requires m <= n <= |history|
    ensures OpenPaths(history[..n], m) == OpenPaths(history, m)
  {
    forall path ensures path in OpenPaths(history[..n], m) <==> path in OpenPaths(history, m) {
      InOpenPaths(history[..n], m, path);
      InOpenPaths(history, m, path);
      forall i: nat ensures OpenedAt(history[..n], m, path, i) <==> OpenedAt(history, m, path, i) {
        OpenedAtPrefix(history, n, m, path, i);
      }
      hide OpenedAt, OpenPaths;
    }
  }

  lemma PeakAfter(r: Recorded, e: Event)
    requires |r.active| <= r.peak
    ensures var r' := Observed(r, e.progress, e.now); r'.peak == if |r'.active| > r.peak then |r'.active| else r.peak
  {
    var r' := Observed(r, e.progress, e.now);
    if FinishEvent(e) {
      OpenSubset(r'.active.Keys, r.active.Keys);
      assert |r'.active| == |r'.active.Keys| && |r.active| == |r.active.Keys|;
    }
  }

  lemma {:induction false} PeakOfHistory(history: seq<Event>)
    ensures PeakOf(history, Run(history).peak)
  {
    if history == [] {
      assert OpenPaths(history, 0) == {};
    } else {
      var n := |history| - 1;
      PeakOfHistory(history[..n]);
      PeakStep(history);
      PeakGrows(history, n, Run(history[..n]).peak, Run(history).peak);
    }
  }

  lemma PeakGrows(history: seq<Event>, n: nat, before: nat, after: nat)
    requires |history| == n + 1 && PeakOf(history[..n], before)
    requires var open := |OpenPaths(history, n + 1)|; after == if open > before then open else before
    ensures PeakOf(history, after)
  {
    hide OpenPaths;
    forall m | 0 <= m <= n ensures OpenPaths(history[..n], m) == OpenPaths(history, m) {
      OpenPathsPrefix(history, n, m);
    }
    var m :| 0 <= m <= n && |OpenPaths(history[..n], m)| == before;
    assert |OpenPaths(history, m)| == before;
  }

  lemma PeakStep(history: seq<Event>)
    requires history != []
    requires PeakOf(history[..|history| - 1], Run(history[..|history| - 1]).peak)
    ensures var before, open := Run(history[..|history| - 1]).peak, |OpenPaths(history, |history|)|;
            Run(history).peak == if open > before then open else before
  {
    var before := history[..|history| - 1];
    assert |OpenPaths(before, |before|)| <= Run(before).peak;
    ActivePaths(before);
    ActivePaths(history);
    assert |Run(before).active| == |Run(before).active.Keys| && |Run(history).active| == |Run(history).active.Keys|;
    PeakAfter(Run(before), history[|history| - 1]);
    hide OpenPaths, Observed;
  }

  /** The paths whose extraction is still open and started at or before t. */
  ghost function Open(active: map<string, int>, t: int): set<string> {
    set path | path in active && active[path] <= t
  }

  /** Every tick is covered by at most `peak` recorded or open extractions, and the record is in the past of `now`. */
  ghost predicate Sound(r: Recorded, now: int) {
    && Forward(r.intervals)
    && (forall i :: 0 <= i < |r.intervals| ==> r.intervals[i].end <= now)
    && (forall path :: path in r.active ==> r.active[path] <= now)
    && (forall t :: Depth(r.intervals, t) + |Open(r.active, t)| <= r.peak)
  }

  lemma {:induction false} DepthAppend(s: seq<Interval>, iv: Interval, t: int)
    ensures Depth(s + [iv], t) == Depth(s, t) + if OpenAt(iv, t) then 1 else 0
  {
    if s == [] {
      assert s + [iv] == [iv];
    } else {
      DepthAppend(s[1..], iv, t);
      assert (s + [iv])[1..] == s[1..] + [iv];
    }
  }

  lemma {:induction false} DepthPast(s: seq<Interval>, t: int)
    requires forall i :: 0 <= i < |s| ==> s[i].end <= t
    ensures Depth(s, t) == 0
  {
    if s != [] { DepthPast(s[1..], t); }
  }

  lemma OpenSubset(a: set<string>, b: set<string>)
    requires a <= b
    ensures |a| <= |b|
  {
    assert |b| == |a| + |b - a| by { assert b == a + (b - a); }
  }

  lemma StartedSound(r: Recorded, path: string, before: int, now: int)
    requires Sound(r, before) && before <= now
    ensures Sound(Started(r, path, now), now)
  {
    var r' := Started(r, path, now);
    forall t ensures Depth(r'.intervals, t) + |Open(r'.active, t)| <= r'.peak {
      if path !in r.active {
        if t < now {
          assert Open(r'.active, t) == Open(r.active, t);
        } else {
          DepthPast(r.intervals, t);
          OpenSubset(Open(r'.active, t), r'.active.Keys);
          assert |r'.active.Keys| == |r'.active|;
        }
      }
      assert Depth(r.intervals, t) + |Open(r.active, t)| <= r.peak;
    }
  }

  lemma FinishedSound(r: Recorded, a: Activity, known: Language, before: int, now: int)
    requires Sound(r, before) && before <= now && a.parseTicks.Some?
    ensures Sound(Finished(r, a, known, now), now)
  {
    var r' := Finished(r, a, known, now);
    var iv := Interval(StartOf(r, a.path, now), now);
    forall t ensures Depth(r'.intervals, t) + |Open(r'.active, t)| <= r'.peak {
      DepthAppend(r.intervals, iv, t);
      assert Depth(r.intervals, t) + |Open(r.active, t)| <= r.peak;
      if OpenAt(iv, t) {
        assert Open(r.active, t) == Open(r'.active, t) + {a.path};
        assert a.path !in Open(r'.active, t);
      } else {
        OpenSubset(Open(r'.active, t), Open(r.active, t));
      }
    }
  }

  lemma ObservedSound(r: Recorded, p: Progress, before: int, now: int)
    requires Sound(r, before) && before <= now
    ensures Sound(Observed(r, p, now), now)
  {
    if p.scanning {
      var r1 := r.(readingTicks := Larger(r.readingTicks, Or(p.readingTicks)));
      assert Sound(r1, before);
      if p.activity.Some? {
        var a := p.activity.value;
        if IsStart(a) {
          StartedSound(r1, a.path, before, now);
        } else if a.stage == Extracting {
          FinishedSound(r1, a, if a.language in r.languages then r.languages[a.language] else NO_LANGUAGE, before, now);
        }
      }
    }
  }

  lemma {:induction false} RunSound(history: seq<Event>, now: int)
    requires ClockMonotone(history)
    requires history != [] ==> history[|history| - 1].now <= now
    ensures Sound(Run(history), now)
  {
    if history != [] {
      var last := history[|history| - 1];
      var before := history[..|history| - 1];
      RunSound(before, last.now);
      ObservedSound(Run(before), last.progress, last.now, last.now);
    } else {
      assert forall t :: Open(NOTHING.active, t) == {};
    }
  }

  /** A utilization report as its retained-evidence validator accepts it for a run with `workers` workers. */
  predicate ValidUtilization(u: Utilization, workers: nat) {
    && u.activeWall >= 0
    && u.averageConcurrency >= 0.0
    && u.request >= 0
    && u.averageConcurrency <= workers as real + 0.000001
    && u.peakConcurrency <= workers
    && u.request as real + 0.000001 >= u.activeWall as real
  }

  /** For every history with non-decreasing clock readings: the active wall time is at most the summed request time,
      which is at most the recorded peak times the active wall time; the average concurrency is 0 or in [1, peak]; and
      the retained evidence validates exactly when the peak does not exceed the worker count. */
  lemma UtilizationOfEveryRun(history: seq<Event>, u: Utilization, workers: nat)
    requires ClockMonotone(history)
    requires var r := Run(history);
             && u.activeWall == |Covered(r.intervals)| && u.request == TotalLength(r.intervals)
             && u.peakConcurrency == r.peak
             && u.averageConcurrency == if u.activeWall == 0 then 0.0 else u.request as real / u.activeWall as real
    ensures u.activeWall <= u.request <= u.peakConcurrency * u.activeWall
    ensures u.averageConcurrency == 0.0 || 1.0 <= u.averageConcurrency <= u.peakConcurrency as real
    ensures u.averageConcurrency == 0.0 <==> u.activeWall == 0
    ensures ValidUtilization(u, workers) <==> u.peakConcurrency <= workers
  {
    var r := Run(history);
    RunSound(history, if history == [] then 0 else history[|history| - 1].now);
    forall t ensures Depth(r.intervals, t) <= r.peak {
      assert Depth(r.intervals, t) + |Open(r.active, t)| <= r.peak;
    }
    UnionAndSum(r.intervals, r.peak);
    if u.activeWall > 0 {
      RatioBounds(u.request, u.activeWall, u.peakConcurrency);
    }
  }

  /** One child run: every progress event is observed, then the utilization is read. */
  method ObserveRun(history: seq<Event>, workers: nat) returns (u: Utilization, valid: bool)
    requires ClockMonotone(history)
    ensures u.activeWall == |Covered(Run(history).intervals)| && u.request == TotalLength(Run(history).intervals)
    ensures RecordsHistory(history, Run(history).intervals, Run(history).slowFiles)
    ensures PeakOf(history, u.peakConcurrency)
    ensures u.activeWall <= u.request <= u.peakConcurrency * u.activeWall
    ensures u.averageConcurrency == 0.0 || 1.0 <= u.averageConcurrency <= u.peakConcurrency as real
    ensures valid <==> u.peakConcurrency <= workers
  {
    var progress := new HeavyTailProgressTelemetry();
    for i := 0 to |history|
      invariant fresh(progress)
      invariant progress.Contents() == Run(history[..i])
    {
      assert history[..i + 1][..i] == history[..i];
      progress.Observe(history[i].progress, history[i].now);
    }
    assert history[..|history|] == history;
    RunSound(history, if history == [] then 0 else history[|history| - 1].now);
    IntervalsOfHistory(history);
    PeakOfHistory(history);
    hide RecordsHistory, PeakOf;
    u := progress.Extraction();
    UtilizationOfEveryRun(history, u, workers);
    valid := ValidUtilization(u, workers);
  }

  lemma Divide(total: real, part: real, bound: real)
    requires part > 0.0
    ensures total <= bound * part ==> total / part <= bound
    ensures total >= bound * part ==> total / part >= bound
  {
    assert total == (total / part) * part;
    assert (total / part - bound) * part == total - bound * part;
  }

  lemma RatioBounds(total: int, part: int, factor: nat)
    requires 0 < part <= total <= factor * part
    ensures 1.0 <= total as real / part as real <= factor as real
  {
    assert (factor * part) as real == factor as real * part as real;
    Divide(total as real, part as real, 1.0);
    Divide(total as real, part as real, factor as real);
  }

  // ----- Conservation: the per-language totals account for every finished file -----

  ghost function FilesOf(files: seq<SlowFile>, language: string): nat {
    if files == [] then 0
    else FilesOf(files[..|files| - 1], language) + (if files[|files| - 1].language == language then 1 else 0)
  }

  ghost function RequestOf(files: seq<SlowFile>, language: string): int {
    if files == [] then 0
    else
      var last := files[|files| - 1];
      RequestOf(files[..|files| - 1], language) + (if last.language == language then last.requestTicks else 0)
  }

  /** One file record per interval with the interval's length as its request time, and each language's totals are the
      totals of its file records. */
  ghost predicate Conserved(r: Recorded) {
    && |r.slowFiles| == |r.intervals|
    && (forall i :: 0 <= i < |r.slowFiles| ==> r.slowFiles[i].requestTicks == Length(r.intervals[i]))
    && (forall language :: language !in r.languages ==>
          FilesOf(r.slowFiles, language) == 0 && RequestOf(r.slowFiles, language) == 0)
    && (forall language :: language in r.languages ==>
          && r.languages[language].files == FilesOf(r.slowFiles, language)
          && r.languages[language].requestTicks == RequestOf(r.slowFiles, language))
  }

  lemma FinishedConserves(r: Recorded, a: Activity, before: int, now: int)
    requires Sound(r, before) && before <= now && Conserved(r) && a.parseTicks.Some?
    ensures Conserved(Finished(r, a, if a.language in r.languages then r.languages[a.language] else NO_LANGUAGE, now))
  {
    var known := if a.language in r.languages then r.languages[a.language] else NO_LANGUAGE;
    var r' := Finished(r, a, known, now);
    assert r'.slowFiles[..|r'.slowFiles| - 1] == r.slowFiles;
    forall language
      ensures FilesOf(r'.slowFiles, language)
           == FilesOf(r.slowFiles, language) + if language == a.language then 1 else 0
    {
    }
  }

  lemma ObservedConserves(r: Recorded, p: Progress, before: int, now: int)
    requires Sound(r, before) && before <= now && Conserved(r)
    ensures Conserved(Observed(r, p, now))
  {
    if p.scanning {
      var r1 := r.(readingTicks := Larger(r.readingTicks, Or(p.readingTicks)));
      assert Sound(r1, before) && Conserved(r1);
      if p.activity.Some? {
        var a := p.activity.value;
        if IsStart(a) {
        } else if a.stage == Extracting {
          FinishedConserves(r1, a, before, now);
        }
      }
    }
  }

  lemma {:induction false} RunConserves(history: seq<Event>)
    requires ClockMonotone(history)
    ensures Conserved(Run(history))
  {
    if history != [] {
      var last := history[|history| - 1];
      var before := history[..|history| - 1];
      RunSound(before, last.now);
      RunConserves(before);
      ObservedConserves(Run(before), last.progress, last.now, last.now);
    }
  }

  /** What one event adds to a language's totals, request time aside. */
  function Contribution(e: Event, language: string): Language {
    if !e.progress.scanning || e.progress.activity.None? || e.progress.activity.value.language != language
    then NO_LANGUAGE
    else
      var a := e.progress.activity.value;
      if FinishEvent(e) then
        Language(if a.degraded then 1 else 0, Or(a.factsBytes), 1, a.parseTicks.value, 0, 0, Or(a.relations), a.bytes,
                 Or(a.symbols))
      else if a.stage == Persisting then NO_LANGUAGE.(persistenceTicks := Or(a.persistTicks))
      else NO_LANGUAGE
  }

  function Plus(x: Language, y: Language): Language {
    Language(x.degradedFiles + y.degradedFiles, x.factsBytes + y.factsBytes, x.files + y.files,
             x.parseTicks + y.parseTicks, x.persistenceTicks + y.persistenceTicks, x.requestTicks + y.requestTicks,
             x.relations + y.relations, x.sourceBytes + y.sourceBytes, x.symbols + y.symbols)
  }

  function Contributions(history: seq<Event>, language: string): Language {
    if history == [] then NO_LANGUAGE
    else Plus(Contributions(history[..|history| - 1], language), Contribution(history[|history| - 1], language))
  }

  function PersistedBy(history: seq<Event>): nat {
    if history == [] then 0
    else
      var last := history[|history| - 1].progress;
      PersistedBy(history[..|history| - 1])
      + (if last.scanning && last.activity.Some? && last.activity.value.stage == Persisting
            && last.activity.value.persistTicks.Some?
         then last.activity.value.batchCompleted else 0)
  }

  function TotalsOf(r: Recorded, language: string): Language {
    if language in r.languages then r.languages[language] else NO_LANGUAGE
  }

  lemma UntouchedTotals(r: Recorded, e: Event, language: string)
    requires || !e.progress.scanning || e.progress.activity.None? || e.progress.activity.value.language != language
             || StartEvent(e)
    ensures TotalsOf(Observed(r, e.progress, e.now), language) == TotalsOf(r, language)
  {
    hide Larger, Or;
  }

  /** A finish adds its activity to the totals of its language. */
  lemma FinishContributes(r: Recorded, e: Event)
    requires FinishEvent(e)
    ensures var a := e.progress.activity.value;
            var before, after := TotalsOf(r, a.language), TotalsOf(Observed(r, e.progress, e.now), a.language);
            && after.degradedFiles == before.degradedFiles + (if a.degraded then 1 else 0)
            && after.factsBytes == before.factsBytes + Or(a.factsBytes)
            && after.files == before.files + 1
            && after.parseTicks == before.parseTicks + a.parseTicks.value
            && after.persistenceTicks == before.persistenceTicks
            && after.relations == before.relations + Or(a.relations)
            && after.sourceBytes == before.sourceBytes + a.bytes
            && after.symbols == before.symbols + Or(a.symbols)
  {
    hide Larger, Or;
  }

  lemma OtherContributes(r: Recorded, e: Event)
    requires e.progress.scanning && e.progress.activity.Some? && !StartEvent(e) && !FinishEvent(e)
    ensures var a := e.progress.activity.value;
            var before, after := TotalsOf(r, a.language), TotalsOf(Observed(r, e.progress, e.now), a.language);
            && after.(persistenceTicks := before.persistenceTicks) == before
            && after.persistenceTicks
               == before.persistenceTicks + if a.stage == Persisting then Or(a.persistTicks) else 0
  {
    hide Larger;
  }

  lemma ContributionAfter(r: Recorded, e: Event, language: string)
    ensures TotalsOf(Observed(r, e.progress, e.now), language).(requestTicks := 0)
         == Plus(TotalsOf(r, language).(requestTicks := 0), Contribution(e, language))
  {
    hide Observed, TotalsOf, Larger, Or;
    if !e.progress.scanning || e.progress.activity.None? || e.progress.activity.value.language != language
       || StartEvent(e)
    {
      UntouchedTotals(r, e, language);
    } else if FinishEvent(e) {
      FinishContributes(r, e);
    } else {
      OtherContributes(r, e);
    }
  }

  /** The totals of every language are the sums of what the history contributes. */
  lemma {:induction false} TotalsOfHistory(history: seq<Event>, language: string)
    ensures TotalsOf(Run(history), language).(requestTicks := 0) == Contributions(history, language)
  {
    if history != [] {
      var n := |history| - 1;
      TotalsOfHistory(history[..n], language);
      ContributionAfter(Run(history[..n]), history[n], language);
      hide Observed, Contribution, TotalsOf, Plus;
    }
  }

  lemma PersistedAfter(r: Recorded, e: Event)
    ensures var r' := Observed(r, e.progress, e.now);
            && r'.persistedFiles == r.persistedFiles + PersistedBy([e])
            && r'.readingTicks == if e.progress.scanning then Larger(r.readingTicks, Or(e.progress.readingTicks))
                                  else r.readingTicks
  {
    assert [e][..0] == [];
  }

  /** The persisted files are those of the persistence events, and the reading time is the largest one reported while
      scanning. */
  lemma {:induction false} ReadingOfHistory(history: seq<Event>)
    ensures Run(history).persistedFiles == PersistedBy(history)
    ensures forall i :: 0 <= i < |history| && history[i].progress.scanning ==>
              Or(history[i].progress.readingTicks) <= Run(history).readingTicks
    ensures Run(history).readingTicks == 0
         || exists i :: 0 <= i < |history| && history[i].progress.scanning
                        && Or(history[i].progress.readingTicks) == Run(history).readingTicks
  {
    if history != [] {
      var n := |history| - 1;
      var before := history[..n];
      ReadingOfHistory(before);
      PersistedAfter(Run(before), history[n]);
      assert PersistedBy(history) == PersistedBy(before) + PersistedBy([history[n]]) by {
        assert [history[n]][..0] == [];
      }
      var r, r' := Run(before), Run(history);
      assert r' == Observed(r, history[n].progress, history[n].now);
      hide Observed, Run, PersistedBy;
      forall i | 0 <= i < |history| && history[i].progress.scanning
        ensures Or(history[i].progress.readingTicks) <= r'.readingTicks
      {
        if i < n { assert before[i] == history[i]; }
      }
      if r'.readingTicks == r.readingTicks && r.readingTicks != 0 {
        var i :| 0 <= i < |before| && before[i].progress.scanning
                 && Or(before[i].progress.readingTicks) == r.readingTicks;
        assert history[i] == before[i];
      }
    }
  }
}
