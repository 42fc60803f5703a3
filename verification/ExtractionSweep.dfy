/** The interval sweep behind the heavy-tail extraction utilization. Time is counted in clock ticks. */
module ExtractionSweep {
  import opened Basics
  import opened Sorting

  datatype Interval = Interval(start: int, end: int)

  datatype Utilization = Utilization(activeWall: int, averageConcurrency: real, peakConcurrency: nat, request: int)

  ghost predicate Forward(s: seq<Interval>) {
    forall i :: 0 <= i < |s| ==> s[i].start <= s[i].end
  }

  /** The comparator of the sweep: by start, then by end. */
  predicate Leq(a: Interval, b: Interval) {
    a.start < b.start || (a.start == b.start && a.end <= b.end)
  }

  predicate OpenAt(iv: Interval, t: int) {
    iv.start <= t < iv.end
  }

  ghost function Ticks(iv: Interval): set<int> {
    set t | iv.start <= t < iv.end && OpenAt(iv, t)
  }

  /** The ticks that some interval covers: the union of the half-open intervals. */
  ghost function Covered(s: seq<Interval>): set<int> {
    set iv, t | iv in s && iv.start <= t < iv.end && OpenAt(iv, t) :: t
  }

  function Length(iv: Interval): int {
    iv.end - iv.start
  }

  function TotalLength(s: seq<Interval>): int {
    if s == [] then 0 else Length(s[0]) + TotalLength(s[1..])
  }

  /** How many intervals are open during tick t. */
  ghost function Depth(s: seq<Interval>, t: int): nat {
    if s == [] then 0 else (if OpenAt(s[0], t) then 1 else 0) + Depth(s[1..], t)
  }

  lemma {:induction false} TicksSize(iv: Interval)
    requires iv.start <= iv.end
    ensures |Ticks(iv)| == Length(iv)
    decreases Length(iv)
  {
    if iv.start == iv.end {
      assert Ticks(iv) == {};
    } else {
      var shorter := Interval(iv.start, iv.end - 1);
      TicksSize(shorter);
      assert Ticks(iv) == Ticks(shorter) + {iv.end - 1};
    }
  }

  lemma CoveredAppend(s: seq<Interval>, iv: Interval)
    ensures Covered(s + [iv]) == Covered(s) + Ticks(iv)
  {
    forall t ensures t in Covered(s + [iv]) <==> t in Covered(s) + Ticks(iv) {
      if t in Ticks(iv) { assert (s + [iv])[|s|] == iv; }
      if t in Covered(s) {
        var w :| w in s && OpenAt(w, t);
        assert w in s + [iv];
      }
    }
  }

  lemma CoveredPermutes(a: seq<Interval>, b: seq<Interval>)
    requires multiset(a) == multiset(b)
    ensures Covered(a) == Covered(b)
  {
    forall iv ensures iv in a <==> iv in b {
      assert iv in a <==> iv in multiset(a);
      assert iv in b <==> iv in multiset(b);
    }
  }

  lemma {:induction false} TotalLengthInsert(x: Interval, s: seq<Interval>)
    ensures TotalLength(Insert(x, s, Leq)) == Length(x) + TotalLength(s)
  {
    if s != [] && !Leq(x, s[0]) { TotalLengthInsert(x, s[1..]); }
  }

  lemma {:induction false} TotalLengthSort(s: seq<Interval>)
    ensures TotalLength(Sort(s, Leq)) == TotalLength(s)
  {
    if s != [] {
      TotalLengthSort(s[1..]);
      TotalLengthInsert(s[0], Sort(s[1..], Leq));
    }
  }

  lemma {:induction false} TotalLengthAppend(s: seq<Interval>, iv: Interval)
    ensures TotalLength(s + [iv]) == TotalLength(s) + Length(iv)
  {
    if s != [] {
      TotalLengthAppend(s[1..], iv);
      assert (s + [iv])[1..] == s[1..] + [iv];
    } else {
      assert s + [iv] == [iv];
    }
  }

  /** The sweep after i intervals: the open run, and the ticks already added to the active wall time. */
  ghost predicate Swept(intervals: seq<Interval>, i: nat, settled: set<int>, run: Interval) {
    && 0 < i <= |intervals|
    && run.start <= run.end
    && run.start <= intervals[i - 1].start
    && (forall t :: t in settled ==> t < run.start)
    && Covered(intervals[..i]) == settled + Ticks(run)
  }

  function Merge(run: Interval, next: Interval): Interval {
    Interval(run.start, if run.end < next.end then next.end else run.end)
  }

  lemma SweepStarts(intervals: seq<Interval>)
    requires Forward(intervals) && intervals != []
    ensures Swept(intervals, 1, {}, intervals[0])
  {
    CoveredAppend([], intervals[0]);
    assert intervals[..1] == [] + [intervals[0]];
  }

  lemma SweepSteps(intervals: seq<Interval>, i: nat, settled: set<int>, run: Interval)
    requires Forward(intervals) && Sorted(intervals, Leq) && i < |intervals|
    requires Swept(intervals, i, settled, run)
    ensures intervals[i].start <= run.end ==> Swept(intervals, i + 1, settled, Merge(run, intervals[i]))
    ensures intervals[i].start > run.end ==> Swept(intervals, i + 1, settled + Ticks(run), intervals[i])
  {
    var next := intervals[i];
    assert Leq(intervals[i - 1], next);
    assert intervals[..i + 1] == intervals[..i] + [next];
    CoveredAppend(intervals[..i], next);
    if next.start <= run.end {
      assert Ticks(run) + Ticks(next) == Ticks(Merge(run, next));
    }
  }

  lemma SettledSize(intervals: seq<Interval>, i: nat, settled: set<int>, run: Interval)
    requires Swept(intervals, i, settled, run)
    ensures |settled + Ticks(run)| == |settled| + Length(run)
  {
    TicksSize(run);
    assert settled !! Ticks(run);
  }

  /** The sorted intervals have the same elements, so the same union and total. */
  lemma SortKeeps(observations: seq<Interval>)
    requires Forward(observations)
    ensures Forward(Sort(observations, Leq)) && Sorted(Sort(observations, Leq), Leq)
    ensures Covered(Sort(observations, Leq)) == Covered(observations)
    ensures TotalLength(Sort(observations, Leq)) == TotalLength(observations)
  {
    SortPermutes(observations, Leq);
    SortSorts(observations, Leq);
    CoveredPermutes(Sort(observations, Leq), observations);
    TotalLengthSort(observations);
    forall i | 0 <= i < |Sort(observations, Leq)|
      ensures Sort(observations, Leq)[i].start <= Sort(observations, Leq)[i].end
    {
      assert Sort(observations, Leq)[i] in multiset(observations);
    }
  }

  /** Merges overlapping or touching intervals in sorted order: the measure of the union. */
  method ActiveWall(intervals: seq<Interval>) returns (activeWall: int)
    requires Forward(intervals) && Sorted(intervals, Leq)
    ensures activeWall == |Covered(intervals)|
  {
    activeWall := 0;
    var current: Option<Interval> := None;
    ghost var settled: set<int> := {};
    for i := 0 to |intervals|
      invariant current.None? <==> i == 0
      invariant |settled| == activeWall
      invariant i == 0 ==> settled == {}
      invariant i > 0 ==> Swept(intervals, i, settled, current.value)
    {
      var interval := intervals[i];
      if current.None? {
        SweepStarts(intervals);
        current := Some(interval);
      } else {
        var run := current.value;
        SweepSteps(intervals, i, settled, run);
        if interval.start <= run.end {
          current := Some(Merge(run, interval));
        } else {
          SettledSize(intervals, i, settled, run);
          settled := settled + Ticks(run);
          activeWall := activeWall + (run.end - run.start);
          current := Some(interval);
        }
      }
    }
    if current.Some? {
      SettledSize(intervals, |intervals|, settled, current.value);
      assert intervals[..|intervals|] == intervals;
      activeWall := activeWall + (current.value.end - current.value.start);
    }
  }

  /** The measure of the union, the sum of the lengths and their ratio, for intervals recorded in any order. */
  method HeavyTailExtractionUtilization(observations: seq<Interval>, peakConcurrency: nat) returns (u: Utilization)
    requires Forward(observations)
    ensures u.activeWall == |Covered(observations)|
    ensures u.request == TotalLength(observations)
    ensures u.peakConcurrency == peakConcurrency
    ensures u.averageConcurrency == if u.activeWall == 0 then 0.0 else u.request as real / u.activeWall as real
  {
    var intervals := Sort(observations, Leq);
    SortKeeps(observations);
    var activeWall := ActiveWall(intervals);
    var request := 0;
    for i := 0 to |intervals|
      invariant request == TotalLength(intervals[..i])
    {
      assert intervals[..i + 1] == intervals[..i] + [intervals[i]];
      TotalLengthAppend(intervals[..i], intervals[i]);
      request := request + (intervals[i].end - intervals[i].start);
    }
    assert intervals[..|intervals|] == intervals;
    u := Utilization(activeWall, if activeWall == 0 then 0.0 else request as real / activeWall as real,
                     peakConcurrency, request);
  }

  /** The report does not depend on the order in which the intervals were recorded. */
  lemma OrderIrrelevant(a: seq<Interval>, b: seq<Interval>)
    requires multiset(a) == multiset(b)
    ensures Covered(a) == Covered(b) && TotalLength(a) == TotalLength(b)
  {
    CoveredPermutes(a, b);
    TotalLengthPermutes(a, b);
  }

  lemma {:induction false} TotalLengthPermutes(a: seq<Interval>, b: seq<Interval>)
    requires multiset(a) == multiset(b)
    ensures TotalLength(a) == TotalLength(b)
  {
    SortPermutes(a, Leq);
    SortPermutes(b, Leq);
    SortSorts(a, Leq);
    SortSorts(b, Leq);
    TotalLengthSort(a);
    TotalLengthSort(b);
    SortedUnique(Sort(a, Leq), Sort(b, Leq), Leq);
  }

  // ----- Counting the covered ticks by depth -----

  ghost function Pick<T>(from: set<T>): T
    requires from != {}
  {
    var x :| x in from; x
  }

  ghost function DepthSum(s: seq<Interval>, ticks: set<int>): nat
    decreases |ticks|
  {
    if ticks == {} then 0 else Depth(s, Pick(ticks)) + DepthSum(s, ticks - {Pick(ticks)})
  }

  lemma {:induction false} DepthSumEmpty(ticks: set<int>)
    ensures DepthSum([], ticks) == 0
    decreases |ticks|
  {
    if ticks != {} { DepthSumEmpty(ticks - {Pick(ticks)}); }
  }

  lemma {:induction false} DepthSumHead(s: seq<Interval>, ticks: set<int>)
    requires s != []
    ensures DepthSum(s, ticks) == |Ticks(s[0]) * ticks| + DepthSum(s[1..], ticks)
    decreases |ticks|
  {
    var own := Ticks(s[0]);
    if ticks == {} {
      assert own * ticks == {};
    } else {
      var t := Pick(ticks);
      DepthSumHead(s, ticks - {t});
      if t in own {
        assert own * ticks == (own * (ticks - {t})) + {t};
      } else {
        assert own * ticks == own * (ticks - {t});
      }
    }
  }

  /** Summing interval lengths counts every tick once per interval that is open during it. */
  lemma {:induction false} LengthIsDepthSum(s: seq<Interval>, ticks: set<int>)
    requires Forward(s) && Covered(s) <= ticks
    ensures TotalLength(s) == DepthSum(s, ticks)
  {
    if s == [] {
      DepthSumEmpty(ticks);
    } else {
      assert s == [s[0]] + s[1..];
      assert forall iv :: iv in s[1..] ==> iv in s;
      LengthIsDepthSum(s[1..], ticks);
      DepthSumHead(s, ticks);
      assert Ticks(s[0]) * ticks == Ticks(s[0]) by {
        forall t | t in Ticks(s[0]) ensures t in ticks {
          assert s[0] in s;
          assert t in Covered(s);
        }
      }
      TicksSize(s[0]);
    }
  }

  lemma {:induction false} DepthPositive(s: seq<Interval>, t: int)
    requires t in Covered(s)
    ensures Depth(s, t) >= 1
  {
    if !OpenAt(s[0], t) {
      var iv :| iv in s && OpenAt(iv, t);
      assert iv in s[1..];
      DepthPositive(s[1..], t);
    }
  }

  lemma {:induction false} DepthSumBounds(s: seq<Interval>, ticks: set<int>, peak: nat)
    requires ticks <= Covered(s)
    requires forall t :: Depth(s, t) <= peak
    ensures |ticks| <= DepthSum(s, ticks) <= peak * |ticks|
    decreases |ticks|
  {
    if ticks != {} {
      var t := Pick(ticks);
      DepthPositive(s, t);
      DepthSumBounds(s, ticks - {t}, peak);
      assert |ticks| == |ticks - {t}| + 1;
      assert peak * |ticks| == peak * |ticks - {t}| + peak;
    }
  }

  /** When at most `peak` intervals are ever open at once, the union is no longer than the sum of the lengths and the
      sum is at most `peak` times the union. */
  lemma UnionAndSum(s: seq<Interval>, peak: nat)
    requires Forward(s)
    requires forall t :: Depth(s, t) <= peak
    ensures |Covered(s)| <= TotalLength(s) <= peak * |Covered(s)|
  {
    LengthIsDepthSum(s, Covered(s));
    DepthSumBounds(s, Covered(s), peak);
  }
}
