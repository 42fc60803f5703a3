/** The stopwatch that the dirty-overlay benchmark keeps over progress events. Times are nanoseconds. */
module MaterializationStopwatch {
  import opened Basics

  /** A progress event: whether its phase is materializing, the metrics it carries, and when it was observed. */
  datatype Event<+M> = Event(materializing: bool, metrics: Option<M>, now: int)

  ghost predicate ClockMonotone<M>(history: seq<Event<M>>) {
    forall i, j :: 0 <= i < j < |history| ==> history[i].now <= history[j].now
  }

  /** The time until `until` during which the latest event was a materializing one. */
  ghost function Materializing<M>(history: seq<Event<M>>, until: int): int {
    if history == [] then 0
    else
      var last := history[|history| - 1];
      Materializing(history[..|history| - 1], last.now) + (if last.materializing then until - last.now else 0)
  }

  /** The latest metrics of the latest uninterrupted stretch of materializing events. */
  ghost function StretchMetrics<M>(history: seq<Event<M>>): Option<M> {
    if history == [] then None
    else
      var before, last := history[..|history| - 1], history[|history| - 1];
      if !last.materializing then StretchMetrics(before)
      else if last.metrics.Some? then last.metrics
      else if before != [] && before[|before| - 1].materializing then StretchMetrics(before)
      else None
  }

  class Stopwatch<M> {
    var started: Option<int>
    var nanoseconds: int
    var finalMetrics: Option<M>
    var previousMaterializing: bool

    /** After this history the open stretch, the closed time and the retained metrics are right. */
    ghost predicate Valid(history: seq<Event<M>>)
      reads this
    {
      && previousMaterializing == (history != [] && history[|history| - 1].materializing)
      && started.Some? == previousMaterializing
      && finalMetrics == StretchMetrics(history)
      && forall until: int ::
           Elapsed(history, until) == Materializing(history, until)
    }

    ghost function Elapsed(history: seq<Event<M>>, until: int): int
      reads this
    {
      nanoseconds + if started.Some? then until - started.value else 0
    }

    constructor ()
      ensures Valid([])
    {
      started, nanoseconds, finalMetrics, previousMaterializing := None, 0, None, false;
    }

    method ObserveProgress(event: Event<M>, ghost history: seq<Event<M>>)
      requires Valid(history)
      modifies this
      ensures Valid(history + [event])
    {
      assert (history + [event])[..|history|] == history;
      assert Elapsed(history, event.now) == Materializing(history, event.now);
      if event.materializing {
        if !previousMaterializing { finalMetrics := None; }
        if event.metrics.Some? { finalMetrics := event.metrics; }
        if started.None? { started := Some(event.now); }
      } else if started.Some? {
        nanoseconds := nanoseconds + (event.now - started.value);
        started := None;
      }
      previousMaterializing := event.materializing;
    }
  }

  lemma {:induction false} MaterializingBounds<M>(history: seq<Event<M>>, until: int)
    requires ClockMonotone(history)
    requires history != [] ==> history[|history| - 1].now <= until
    ensures 0 <= Materializing(history, until)
    ensures history != [] ==> Materializing(history, until) <= until - history[0].now
  {
    if history != [] {
      var before, last := history[..|history| - 1], history[|history| - 1];
      MaterializingBounds(before, last.now);
      if before != [] { assert before[0] == history[0]; }
    }
  }

  /** One indexing run. For every history of progress events the reported time is exactly the time during which the latest
      event was a materializing one, never more than the time since the first event; the retained metrics are those of the
      last materializing stretch. */
  method TimeMaterialization<M>(history: seq<Event<M>>, finished: int)
    returns (nanoseconds: int, finalMetrics: Option<M>)
    requires ClockMonotone(history) && (history != [] ==> history[|history| - 1].now <= finished)
    ensures nanoseconds == Materializing(history, finished)
    ensures finalMetrics == StretchMetrics(history)
    ensures 0 <= nanoseconds && (history != [] ==> nanoseconds <= finished - history[0].now)
  {
    var watch := new Stopwatch<M>();
    for i := 0 to |history|
      invariant fresh(watch) && watch.Valid(history[..i])
    {
      assert history[..i + 1] == history[..i] + [history[i]];
      watch.ObserveProgress(history[i], history[..i]);
    }
    assert history[..|history|] == history;
    assert watch.Elapsed(history, finished) == Materializing(history, finished);
    nanoseconds := watch.nanoseconds;
    if watch.started.Some? {
      nanoseconds := nanoseconds + (finished - watch.started.value);
    }
    finalMetrics := watch.finalMetrics;
    MaterializingBounds(history, finished);
  }
}
