/** The fixed-rate deferred sampling loop of the ready-query benchmark. Times are nanoseconds. */
module FixedRateSampling {
  import opened Basics

  /** How late the i-th request starts: the first one after whatever delay the loop began with, each later one by what
      is left of the previous lateness and work beyond the interval; jitter is the extra time until the clock is read. */
  function Lateness(i: nat, interval: nat, delay: nat, works: seq<nat>, jitter: seq<nat>): nat
    requires i < |jitter| && i <= |works|
  {
    if i == 0 then delay + jitter[0]
    else Larger(0, Lateness(i - 1, interval, delay, works, jitter) + works[i - 1] - interval) + jitter[i]
  }

  /** Issues one request per interval. Starts never precede their schedule: each request starts at its slot or when the
      one before it is done, whichever is later, plus the wake-up jitter. The recorded queue latencies obey the lateness
      recursion whatever the work and the jitter are. */
  method SampleAtFixedRate(scheduleStarted: int, samples: nat, interval: nat, delay: nat, works: seq<nat>,
                           jitter: seq<nat>) returns (queueLatencies: seq<int>, starts: seq<int>)
    requires |works| == |jitter| == samples
    ensures |queueLatencies| == |starts| == samples
    ensures forall i :: 0 <= i < samples ==> starts[i] == scheduleStarted + i * interval + queueLatencies[i]
    ensures forall i :: 0 <= i < samples ==> starts[i] >= scheduleStarted + i * interval
    ensures samples > 0 ==> starts[0] == scheduleStarted + delay + jitter[0]
    ensures forall i :: 0 < i < samples ==>
              starts[i] == Larger(scheduleStarted + i * interval, starts[i - 1] + works[i - 1]) + jitter[i]
    ensures forall i :: 0 <= i < samples ==> queueLatencies[i] == Lateness(i, interval, delay, works, jitter)
  {
    hide Lateness;
    queueLatencies, starts := [], [];
    var now := scheduleStarted + delay;
    for index := 0 to samples
      invariant |queueLatencies| == |starts| == index
      invariant forall i :: 0 <= i < index ==> starts[i] == scheduleStarted + i * interval + queueLatencies[i]
      invariant forall i :: 0 <= i < index ==> queueLatencies[i] == Lateness(i, interval, delay, works, jitter)
      invariant index > 0 ==> starts[0] == scheduleStarted + delay + jitter[0]
      invariant forall i :: 0 < i < index ==>
                  starts[i] == Larger(scheduleStarted + i * interval, starts[i - 1] + works[i - 1]) + jitter[i]
      invariant index == 0 ==> now == scheduleStarted + delay
      invariant index > 0 ==> now == starts[index - 1] + works[index - 1]
    {
      NextSlot(index, interval);
      var scheduled := scheduleStarted + index * interval;
      LatenessStep(index, interval, delay, works, jitter);
      if now < scheduled {
        now := scheduled;
      }
      var started := now + jitter[index];
      queueLatencies := queueLatencies + [Larger(0, started - scheduled)];
      starts := starts + [started];
      now := started + works[index];
    }
  }

  lemma LatenessStep(i: nat, interval: nat, delay: nat, works: seq<nat>, jitter: seq<nat>)
    requires i < |jitter| && i <= |works|
    ensures i == 0 ==> Lateness(i, interval, delay, works, jitter) == delay + jitter[0]
    ensures i > 0 ==>
              var carried := Lateness(i - 1, interval, delay, works, jitter) + works[i - 1] - interval;
              Lateness(i, interval, delay, works, jitter) == Larger(0, carried) + jitter[i]
  {
  }

  lemma NextSlot(index: nat, interval: nat)
    ensures index > 0 ==> index * interval == (index - 1) * interval + interval
  {
  }

  predicate Exact(jitter: seq<nat>) {
    forall i :: 0 <= i < |jitter| ==> jitter[i] == 0
  }

  /** The work beyond the interval, summed over requests from `from` up to `to`. */
  function Excess(from: nat, to: nat, interval: nat, works: seq<nat>): int
    requires from <= to <= |works|
  {
    if from == to then 0 else Excess(from, to - 1, interval, works) + works[to - 1] - interval
  }

  /** With exact wake-ups the lateness is the largest suffix sum of excess work (the empty suffix counting zero), where
      the longest suffix also carries the initial delay. */
  lemma {:induction false} LatenessIsMaximalSuffix(i: nat, interval: nat, delay: nat, works: seq<nat>, jitter: seq<nat>)
    requires i < |jitter| && i <= |works| && Exact(jitter)
    ensures forall j :: 0 <= j <= i ==> Lateness(i, interval, delay, works, jitter) >= Excess(j, i, interval, works)
    ensures Lateness(i, interval, delay, works, jitter) >= delay + Excess(0, i, interval, works)
    ensures || Lateness(i, interval, delay, works, jitter) == delay + Excess(0, i, interval, works)
            || exists j :: 0 <= j <= i && Lateness(i, interval, delay, works, jitter) == Excess(j, i, interval, works)
  {
    if i > 0 {
      LatenessIsMaximalSuffix(i - 1, interval, delay, works, jitter);
      var before := Lateness(i - 1, interval, delay, works, jitter);
      forall j | 0 <= j <= i ensures Lateness(i, interval, delay, works, jitter) >= Excess(j, i, interval, works) {
        if j < i { assert before >= Excess(j, i - 1, interval, works); }
      }
      if before + works[i - 1] - interval <= 0 {
        assert Lateness(i, interval, delay, works, jitter) == Excess(i, i, interval, works);
      } else if before != delay + Excess(0, i - 1, interval, works) {
        var j :| 0 <= j <= i - 1 && before == Excess(j, i - 1, interval, works);
        assert Lateness(i, interval, delay, works, jitter) == Excess(j, i, interval, works);
      }
    }
  }

  /** Lateness drains: while every request leaves `slack` of its interval unused, lateness falls by at least that much a
      request, down to zero. */
  lemma {:induction false} LatenessDrains(i: nat, n: nat, slack: nat, interval: nat, delay: nat, works: seq<nat>,
                                          jitter: seq<nat>)
    requires i + n < |jitter| && i + n <= |works| && Exact(jitter)
    requires forall k :: i <= k < i + n ==> works[k] + slack <= interval
    ensures Lateness(i + n, interval, delay, works, jitter)
         <= Larger(0, Lateness(i, interval, delay, works, jitter) - n * slack)
  {
    if n > 0 {
      LatenessDrains(i, n - 1, slack, interval, delay, works, jitter);
      assert n * slack == (n - 1) * slack + slack;
      assert works[i + n - 1] + slack <= interval;
    }
  }
}
