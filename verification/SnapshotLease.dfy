/** Lease renewal while the structural digest streams are read. Times are milliseconds. */
module SnapshotLease {
  import opened Basics

  const LEASE := 3600000
  const DEFAULT_RENEWAL := 300000
  const CHUNK_ROWS := 10000

  /** The renewal cadence: the requested one rounded down when it is a finite number, the default otherwise, clamped
      between 100 ms and half the lease. */
  function Cadence(requested: Option<real>): int {
    var finite := if requested.Some? then requested.value.Floor else DEFAULT_RENEWAL;
    var capped := if finite < LEASE / 2 then finite else LEASE / 2;
    if capped < 100 then 100 else capped
  }

  lemma CadenceBounds(requested: Option<real>)
    ensures 100 <= Cadence(requested) <= LEASE / 2
    ensures requested.None? ==> Cadence(requested) == 5 * 60 * 1000
    ensures forall r: real :: requested == Some(r) && 100.0 <= r <= 1800000.0 ==>
              Cadence(requested) as real <= r < Cadence(requested) as real + 1.0
    ensures forall r: real :: requested == Some(r) && r < 100.0 ==> Cadence(requested) == 100
    ensures forall r: real :: requested == Some(r) && r > 1800000.0 ==> Cadence(requested) == 1800000
  {
  }

  /** A row read, or a renewal inside the store: when it happened, when the lease then in force expires, and when the
      loop last checked whether to renew. */
  datatype Event = Read(at: int, expires: int, lastCheck: int) | Renewal(at: int, expires: int, lastCheck: int)

  /** No row is read and no renewal arrives under an expired lease. */
  ghost predicate Live(trace: seq<Event>) {
    forall i :: 0 <= i < |trace| ==> trace[i].at < trace[i].expires
  }

  /** Nothing happens more than `gap` after the latest renewal check. */
  ghost predicate GapsWithin(trace: seq<Event>, gap: int) {
    forall i :: 0 <= i < |trace| ==> trace[i].at - trace[i].lastCheck <= gap
  }

  /** A chunk of rows, a check and the renewal before it never take longer than `gap`: no CHUNK_ROWS + 4 consecutive clock
      readings span more. */
  ghost predicate Steady(clock: nat -> int, gap: int) {
    forall i: nat :: clock(i + CHUNK_ROWS + 3) - clock(i) <= gap
  }

  ghost predicate Monotone(clock: nat -> int) {
    forall i, j :: 0 <= i <= j ==> clock(i) <= clock(j)
  }

  /** The lease and the loop's bookkeeping: `expires` is the store's, `lastRenewal` and `lastCheck` the reader's. */
  ghost predicate Held(expires: int, lastRenewal: int, lastCheck: int, open: int, cadence: int) {
    && lastRenewal <= lastCheck < lastRenewal + cadence
    && lastRenewal + LEASE - open <= expires
  }

  class LeasedReader<Row> {
    const clock: nat -> int
    const cadence: int
    ghost const open: int
    var step: nat
    var expires: int
    var lastRenewal: int
    var lastCheck: int
    ghost var checkStep: nat
    ghost var trace: seq<Event>

    ghost predicate Valid()
      reads this
    {
      && Monotone(clock)
      && cadence >= 100 && open >= 0
      && Held(expires, lastRenewal, lastCheck, open, cadence)
      && checkStep < step && lastCheck == clock(checkStep)
      && Bounded(trace)
    }

    /** Acquires the lease, opens the read transaction, and starts the renewal clock. */
    constructor (clock: nat -> int, requested: Option<real>)
      requires Monotone(clock)
      ensures Valid() && trace == []
      ensures this.clock == clock && cadence == Cadence(requested) && open == clock(1) - clock(0)
      ensures expires == clock(0) + LEASE && lastRenewal == lastCheck == clock(1)
      ensures step == 2 && checkStep == 1
    {
      CadenceBounds(requested);
      this.clock := clock;
      this.cadence := Cadence(requested);
      this.open := clock(1) - clock(0);
      assert clock(0) <= clock(1) <= clock(2);
      this.expires := clock(0) + LEASE;
      this.lastRenewal := clock(1);
      this.lastCheck := clock(1);
      this.checkStep := 1;
      this.step := 2;
      this.trace := [];
    }

    /** Reads one row at the next moment. */
    method ReadRow()
      requires Valid()
      modifies this`step, this`trace
      ensures Valid() && step == old(step) + 1
      ensures trace == old(trace) + [Read(clock(old(step)), expires, lastCheck)]
    {
      BoundedNext(Read(clock(step), expires, lastCheck));
      trace := trace + [Read(clock(step), expires, lastCheck)];
      step := step + 1;
    }

    /** Reads the clock; when the cadence has passed since the last renewal, renews the lease, which the store refuses once
        it has expired. A renewal restarts the cadence from the reading and the lease from the renewal; otherwise nothing
        but the check is noted. */
    method RenewLeaseIfDue() returns (ok: bool)
      requires Valid()
      modifies this
      ensures var now, due := clock(old(step)), clock(old(step)) - old(lastRenewal) >= cadence;
              var storeNow := clock(old(step) + 1);
              && (ok <==> due ==> storeNow < old(expires))
              && trace == old(trace) + (if due then [Renewal(storeNow, old(expires), old(lastCheck))] else [])
              && (ok ==> lastCheck == now && checkStep == old(step))
              && (ok && due ==> expires == storeNow + LEASE && lastRenewal == now)
              && (!due ==> expires == old(expires) && lastRenewal == old(lastRenewal))
              && old(step) < step <= old(step) + 2
      ensures ok ==> Valid()
      ensures Bounded(trace) && (!ok ==> !Live(trace))
    {
      var now := clock(step);
      assert clock(checkStep) <= clock(step);
      step := step + 1;
      if now - lastRenewal < cadence {
        lastCheck, checkStep := now, step - 1;
        return true;
      }
      var storeNow := clock(step);
      BoundedNext(Renewal(storeNow, expires, lastCheck));
      trace := trace + [Renewal(storeNow, expires, lastCheck)];
      if expires <= storeNow {
        assert trace[|trace| - 1].at >= trace[|trace| - 1].expires;
        return false;
      }
      expires := storeNow + LEASE;
      lastRenewal, lastCheck, checkStep := now, now, step - 1;
      assert clock(step - 1) <= clock(step);
      step := step + 1;
      return true;
    }

    /** For every gap that leaves room for the open time and the cadence, gaps within it keep the lease live. */
    ghost predicate Bounded(trace: seq<Event>) {
      forall gap: int :: open + cadence + gap <= LEASE && GapsWithin(trace, gap) ==> Live(trace)
    }

    lemma BoundedNext(next: Event)
      requires Held(expires, lastRenewal, lastCheck, open, cadence) && Bounded(trace)
      requires next.expires == expires && next.lastCheck == lastCheck
      ensures Bounded(trace + [next])
    {
      forall gap: int | open + cadence + gap <= LEASE && GapsWithin(trace + [next], gap)
        ensures Live(trace + [next])
      {
        assert GapsWithin(trace, gap) by {
          forall i | 0 <= i < |trace| ensures trace[i].at - trace[i].lastCheck <= gap {
            assert (trace + [next])[i] == trace[i];
          }
        }
        assert (trace + [next])[|trace|] == next;
        assert next.at - next.lastCheck <= gap;
      }
    }

    /** A steady clock leaves no longer gaps. */
    ghost predicate Paced(trace: seq<Event>) {
      forall gap: int :: Steady(clock, gap) ==> GapsWithin(trace, gap)
    }

    /** The next event, at most CHUNK_ROWS + 3 readings after the latest check. */
    lemma PacedNext(next: Event, at: nat)
      requires Valid() && Paced(trace) && step <= at <= checkStep + CHUNK_ROWS + 3
      requires next.at == clock(at) && next.lastCheck == lastCheck
      ensures Paced(trace + [next])
    {
      forall gap: int | Steady(clock, gap) ensures GapsWithin(trace + [next], gap) {
        assert clock(at) <= clock(checkStep + CHUNK_ROWS + 3);
        assert GapsWithin(trace, gap);
      }
    }

    lemma StartsPaced()
      ensures Paced([]) && ReadCount([]) == TotalRows<Row>([]) == 0
    {
    }

    lemma NeverRefused(trace: seq<Event>)
      requires Bounded(trace) && Paced(trace)
      ensures forall gap: int :: open + cadence + gap <= LEASE && GapsWithin(trace, gap) ==> Live(trace)
      ensures forall gap: int :: open + cadence + gap <= LEASE && Steady(clock, gap) ==> Live(trace)
    {
    }

    /** Reads every stream in chunks, checking the lease after each chunk. Whatever the number of streams and rows, and
        however long each step takes: if the time from acquiring the lease to starting the renewal clock, plus the
        cadence, plus the longest gap between checks is at most the lease, no renewal is refused and no row is read
        under an expired lease; and a clock that is steady keeps to such a gap. Then every stream is read whole, in
        order, with its row count. */
    method ReadStreams(streams: seq<seq<Row>>) returns (ok: bool, rows: seq<seq<Row>>, counts: seq<nat>)
      requires Valid() && trace == [] && step <= checkStep + 1
      modifies this
      ensures ok ==> rows == streams && |counts| == |streams|
      ensures ok ==> forall s :: 0 <= s < |streams| ==> counts[s] == |streams[s]|
      ensures forall gap: int :: open + cadence + gap <= LEASE && Steady(clock, gap) ==> ok && Live(trace)
      ensures forall gap: int :: open + cadence + gap <= LEASE && GapsWithin(trace, gap) ==> ok && Live(trace)
      ensures ok ==> ReadCount(trace) == TotalRows(streams)
    {
      hide Bounded, Paced, Live, GapsWithin, Steady, Monotone, Held, ReadCount, TotalRows;
      StartsPaced();
      rows, counts := [], [];
      for s := 0 to |streams|
        invariant Valid() && Paced(trace) && step <= checkStep + 2
        invariant rows == streams[..s] && |counts| == s
        invariant forall i :: 0 <= i < s ==> counts[i] == |streams[i]|
        invariant ReadCount(trace) == TotalRows(streams[..s])
      {
        var read := [];
        var complete := false;
        ghost var before := ReadCount(trace);
        while !complete
          invariant Valid() && Paced(trace) && step <= checkStep + 2
          invariant read <= streams[s]
          invariant complete ==> read == streams[s]
          invariant ReadCount(trace) == before + |read|
          decreases |streams[s]| - |read|, !complete
        {
          var index := 0;
          ghost var start := |read|;
          while index < CHUNK_ROWS && !complete
            invariant 0 <= index <= CHUNK_ROWS
            invariant Valid() && Paced(trace) && step <= checkStep + 2 + index
            invariant read <= streams[s]
            invariant complete ==> read == streams[s]
            invariant !complete ==> |read| == start + index
            invariant |read| >= start
            invariant ReadCount(trace) == before + |read|
            decreases CHUNK_ROWS - index, !complete
          {
            if |read| == |streams[s]| {
              complete := true;
            } else {
              ReadCountAppend(trace, Read(clock(step), expires, lastCheck));
              PacedNext(Read(clock(step), expires, lastCheck), step);
              ReadRow();
              read := read + [streams[s][|read|]];
              index := index + 1;
            }
          }
          ghost var earlier := trace;
          PacedNext(Renewal(clock(step + 1), expires, lastCheck), step + 1);
          var renewed := RenewLeaseIfDue();
          assert earlier + [] == earlier;
          RenewalKeepsCount(earlier, trace);
          if !renewed {
            NeverRefused(trace);
            return false, rows, counts;
          }
        }
        rows := rows + [read];
        counts := counts + [|read|];
        assert streams[..s + 1] == streams[..s] + [streams[s]];
        TotalRowsAppend(streams[..s], streams[s]);
      }
      assert streams[..|streams|] == streams;
      NeverRefused(trace);
      return true, rows, counts;
    }
  }

  ghost function ReadCount(trace: seq<Event>): nat {
    if trace == [] then 0
    else ReadCount(trace[..|trace| - 1]) + (if trace[|trace| - 1].Read? then 1 else 0)
  }

  ghost function TotalRows<Row>(streams: seq<seq<Row>>): nat {
    if streams == [] then 0 else TotalRows(streams[..|streams| - 1]) + |streams[|streams| - 1]|
  }

  lemma ReadCountAppend(trace: seq<Event>, e: Event)
    ensures ReadCount(trace + [e]) == ReadCount(trace) + (if e.Read? then 1 else 0)
  {
    assert (trace + [e])[..|trace|] == trace;
  }

  lemma RenewalKeepsCount(earlier: seq<Event>, later: seq<Event>)
    requires earlier <= later && |later| <= |earlier| + 1
    requires |later| > |earlier| ==> later[|earlier|].Renewal?
    ensures ReadCount(later) == ReadCount(earlier)
  {
    if |later| > |earlier| {
      assert later == earlier + [later[|earlier|]];
      ReadCountAppend(earlier, later[|earlier|]);
    } else {
      assert later == earlier;
    }
  }

  lemma TotalRowsAppend<Row>(streams: seq<seq<Row>>, last: seq<Row>)
    ensures TotalRows(streams + [last]) == TotalRows(streams) + |last|
  {
    assert (streams + [last])[..|streams|] == streams;
  }
}
