/** The barrier protocol between the citation benchmark and its RSS observer, for callers that wait for each call. */
module RssObserver {
  import opened Basics

  datatype Request = Begin(observationId: string) | End(observationId: string) | Stop

  datatype AckState = Begun | Ended | Stopped

  datatype Acknowledgement = Acknowledgement(
    sequence: nat, version: nat, state: AckState, observationId: Option<string>)

  /** One barrier: its sequence number, the request sent, and whether it was acknowledged. */
  datatype Barrier = Barrier(sequence: nat, request: Request, ok: bool)

  const VERSION: nat := 2

  function ExpectedState(request: Request): AckState {
    match request
    case Begin(_) => Begun
    case End(_) => Ended
    case Stop => Stopped
  }

  /** The acknowledgement answers this very request. */
  predicate ValidAcknowledgement(sequence: nat, request: Request, ack: Acknowledgement) {
    && ack.sequence == sequence && ack.version == VERSION && ack.state == ExpectedState(request)
    && (!request.Stop? ==> ack.observationId == Some(request.observationId))
  }

  /** The acknowledged requests, in order. */
  function Acknowledged(trace: seq<Barrier>): seq<Request> {
    if trace == [] then []
    else
      var last := trace[|trace| - 1];
      Acknowledged(trace[..|trace| - 1]) + (if last.ok then [last.request] else [])
  }

  /** The observation in progress after a list of acknowledged requests; nothing when the list breaks the protocol. */
  function InProgress(requests: seq<Request>): Option<Option<string>> {
    if requests == [] then Some(None)
    else
      match (InProgress(requests[..|requests| - 1]), requests[|requests| - 1])
      case (Some(None), Begin(id)) => Some(Some(id))
      case (Some(None), Stop) => Some(None)
      case (Some(Some(active)), End(id)) => if active == id then Some(None) else None
      case (_, _) => None
  }

  /** Request sequence numbers count the barriers. */
  ghost predicate Sequenced(trace: seq<Barrier>) {
    forall i :: 0 <= i < |trace| ==> trace[i].sequence == i + 1
  }

  /** A sequential caller: observations with the calls made while they are open and whether their effect succeeds, and
      finishing. */
  datatype Call = Observe(observationId: string, body: seq<Call>, succeeds: bool) | Finish

  /** The adapter: the acknowledgement of request n, if any, and whether the child exits cleanly after a stop that had
      sequence number n. */
  datatype Adapter = Adapter(acknowledgements: nat -> Option<Acknowledgement>, exits: nat -> bool)

  /** Request n, sent with this content, is acknowledged as it should be. */
  predicate Answered(adapter: Adapter, n: nat, request: Request) {
    && adapter.acknowledgements(n).Some?
    && ValidAcknowledgement(n, request, adapter.acknowledgements(n).value)
  }

  /** The one valid answer to a begin or an end repeats its number and observation; a stop asks for no observation. */
  lemma OnlyValidAnswer(adapter: Adapter, n: nat, id: string)
    ensures Answered(adapter, n, Begin(id)) <==> adapter.acknowledgements(n) == Some(Acknowledgement(n, 2, Begun, Some(id)))
    ensures Answered(adapter, n, End(id)) <==> adapter.acknowledgements(n) == Some(Acknowledgement(n, 2, Ended, Some(id)))
    ensures Answered(adapter, n, Stop) <==>
              exists any :: adapter.acknowledgements(n) == Some(Acknowledgement(n, 2, Stopped, any))
  {
    var ack := adapter.acknowledgements(n);
    if Answered(adapter, n, Stop) {
      assert ack == Some(Acknowledgement(n, 2, Stopped, ack.value.observationId));
    }
  }

  /** What a controller has sent, and where it stands. */
  datatype State = State(trace: seq<Barrier>, active: Option<string>, finished: bool)

  /** One call from the outside: an idle controller sends the begin and end of an observation, or a stop, as far as they
      are acknowledged; any other one sends nothing. */
  function After(adapter: Adapter, s: State, call: Call): State {
    var n := |s.trace|;
    if s.finished || s.active.Some? then s
    else match call
      case Observe(id, _, _) =>
        var begun, ended := Answered(adapter, n + 1, Begin(id)), Answered(adapter, n + 2, End(id));
        State(s.trace + [Barrier(n + 1, Begin(id), begun)] + (if begun then [Barrier(n + 2, End(id), ended)] else []),
              if begun && !ended then Some(id) else None, false)
      case Finish =>
        var stopped := Answered(adapter, n + 1, Stop);
        State(s.trace + [Barrier(n + 1, Stop, stopped)], None, stopped && adapter.exits(n + 1))
  }

  function AfterAll(adapter: Adapter, s: State, calls: seq<Call>): State {
    if calls == [] then s else After(adapter, AfterAll(adapter, s, calls[..|calls| - 1]), calls[|calls| - 1])
  }

  /** The call succeeds for its caller. */
  predicate Succeeds(adapter: Adapter, s: State, call: Call) {
    && !s.finished && s.active.None?
    && match call
       case Observe(id, _, succeeds) =>
         && Answered(adapter, |s.trace| + 1, Begin(id)) && Answered(adapter, |s.trace| + 2, End(id)) && succeeds
       case Finish => Answered(adapter, |s.trace| + 1, Stop) && adapter.exits(|s.trace| + 1)
  }

  class Controller {
    const adapter: Adapter
    var activeObservationId: Option<string>
    var finished: bool
    var sequence: nat
    ghost var trace: seq<Barrier>

    ghost function Contents(): State
      reads this
    {
      State(trace, activeObservationId, finished)
    }

    ghost predicate Valid()
      reads this
    {
      && sequence == |trace|
      && Sequenced(trace)
      && InProgress(Acknowledged(trace)) == Some(activeObservationId)
      && (finished ==> activeObservationId.None? && trace != [] && trace[|trace| - 1].request.Stop?
                       && trace[|trace| - 1].ok)
      && forall i :: 0 <= i < |trace| ==> (trace[i].ok <==> Answered(adapter, i + 1, trace[i].request))
    }

    constructor (adapter: Adapter)
      ensures Valid() && Contents() == State([], None, false) && this.adapter == adapter
    {
      this.adapter := adapter;
      activeObservationId, finished, sequence, trace := None, false, 0, [];
    }

    /** Sends one numbered request and waits for an acknowledgement, which must be valid for it. */
    method SendBarrier(request: Request) returns (ok: bool)
      requires Valid() && !finished
      requires InProgress(Acknowledged(trace) + [request]).Some?
      modifies this`sequence, this`trace
      ensures ok <==> Answered(adapter, old(sequence) + 1, request)
      ensures trace == old(trace) + [Barrier(old(sequence) + 1, request, ok)]
      ensures sequence == |trace| && Sequenced(trace)
      ensures Acknowledged(trace) == if ok then Acknowledged(old(trace)) + [request] else Acknowledged(old(trace))
      ensures !ok ==> Valid()
      ensures forall i :: 0 <= i < |trace| ==> (trace[i].ok <==> Answered(adapter, i + 1, trace[i].request))
    {
      hide Acknowledged, InProgress, ValidAcknowledgement;
      sequence := sequence + 1;
      var ack := adapter.acknowledgements(sequence);
      ok := ack.Some? && ValidAcknowledgement(sequence, request, ack.value);
      AcknowledgedAppend(trace, Barrier(sequence, request, ok));
      hide Answered;
      trace := trace + [Barrier(sequence, request, ok)];
    }

    /** Acquire with a begin barrier, run the body, release with an end barrier. */
    method RunObserve(observationId: string, body: seq<Call>, succeeds: bool) returns (ok: bool)
      requires Valid()
      modifies this
      ensures Valid()
      ensures Contents() == After(adapter, old(Contents()), Observe(observationId, body, succeeds))
      ensures ok <==> Succeeds(adapter, old(Contents()), Observe(observationId, body, succeeds))
      decreases body
    {
      hide Acknowledged, InProgress, Answered, ValidAcknowledgement, Sequenced;
      if finished || activeObservationId.Some? {
        return false;
      }
      Extended(Acknowledged(trace), Begin(observationId));
      ok := SendBarrier(Begin(observationId));
      if !ok {
        return;
      }
      activeObservationId := Some(observationId);
      RunBody(body);
      Extended(Acknowledged(trace), End(observationId));
      ok := SendBarrier(End(observationId));
      if ok {
        activeObservationId := None;
      }
      ok := ok && succeeds;
    }

    /** Calls made while an observation is open are rejected and send nothing. */
    method RunBody(body: seq<Call>)
      requires Valid() && activeObservationId.Some?
      modifies this
      ensures Valid() && Contents() == old(Contents())
      decreases body, 0
    {
      for i := 0 to |body|
        invariant Valid() && Contents() == old(Contents())
      {
        match body[i] {
          case Observe(id, inner, succeeds) => var ok := RunObserve(id, inner, succeeds);
          case Finish => var ok := RunFinish();
        }
      }
    }

    /** Stop barrier, child exit and artifact; only all of them finish the controller. */
    method RunFinish() returns (ok: bool)
      requires Valid()
      modifies this
      ensures Valid()
      ensures Contents() == After(adapter, old(Contents()), Finish)
      ensures ok <==> Succeeds(adapter, old(Contents()), Finish)
    {
      hide Acknowledged, InProgress, Answered, ValidAcknowledgement, Sequenced;
      if finished || activeObservationId.Some? {
        return false;
      }
      Extended(Acknowledged(trace), Stop);
      ok := SendBarrier(Stop);
      if !ok {
        return;
      }
      ok := adapter.exits(sequence);
      if ok {
        finished := true;
      }
    }

    /** Runs any program of sequential calls. */
    method Run(calls: seq<Call>)
      requires Valid()
      modifies this
      ensures Valid() && Contents() == AfterAll(adapter, old(Contents()), calls)
    {
      for i := 0 to |calls|
        invariant Valid() && Contents() == AfterAll(adapter, old(Contents()), calls[..i])
      {
        assert calls[..i + 1][..i] == calls[..i];
        match calls[i] {
          case Observe(id, body, succeeds) => var ok := RunObserve(id, body, succeeds);
          case Finish => var ok := RunFinish();
        }
      }
      assert calls[..|calls|] == calls;
    }
  }

  /** Nothing is unsent, and a finished controller sends nothing more. */
  lemma {:induction false} SentStays(adapter: Adapter, s: State, calls: seq<Call>)
    ensures s.trace <= AfterAll(adapter, s, calls).trace
    ensures s.finished ==> AfterAll(adapter, s, calls) == s
  {
    if calls != [] { SentStays(adapter, s, calls[..|calls| - 1]); }
  }

  /** The first n calls are observations whose begin and end are acknowledged. */
  ghost predicate Cooperative(adapter: Adapter, sent: nat, calls: seq<Call>, n: nat)
    requires n <= |calls|
  {
    forall k :: 0 <= k < n ==>
      && calls[k].Observe?
      && Answered(adapter, sent + 2 * k + 1, Begin(calls[k].observationId))
      && Answered(adapter, sent + 2 * k + 2, End(calls[k].observationId))
  }

  /** From that place on, the begin and the end of the observation were sent next to each other and acknowledged. */
  predicate MeasuredAt(trace: seq<Barrier>, at: nat, observationId: string) {
    && at + 1 < |trace|
    && trace[at] == Barrier(at + 1, Begin(observationId), true)
    && trace[at + 1] == Barrier(at + 2, End(observationId), true)
  }

  lemma MeasuredStays(shorter: seq<Barrier>, longer: seq<Barrier>)
    requires shorter <= longer
    ensures forall at: nat, id :: MeasuredAt(shorter, at, id) ==> MeasuredAt(longer, at, id)
  {
  }

  /** Every observation is really measured: from an idle controller, as long as the barriers are acknowledged, each
      observation contributes its own begin and end, and the controller is idle again. */
  lemma {:induction false} EveryObservationMeasured(adapter: Adapter, s: State, calls: seq<Call>, n: nat)
    requires n <= |calls| && !s.finished && s.active.None? && Cooperative(adapter, |s.trace|, calls, n)
    ensures var after, sent := AfterAll(adapter, s, calls[..n]), |s.trace|;
            && |after.trace| == sent + 2 * n && after.active.None? && !after.finished
            && s.trace <= after.trace
            && forall k :: 0 <= k < n ==> MeasuredAt(after.trace, sent + 2 * k, calls[k].observationId)
  {
    hide Answered, After, MeasuredAt;
    if n > 0 {
      var before, after := AfterAll(adapter, s, calls[..n - 1]), AfterAll(adapter, s, calls[..n]);
      assert Cooperative(adapter, |s.trace|, calls, n - 1);
      EveryObservationMeasured(adapter, s, calls, n - 1);
      assert calls[..n][..n - 1] == calls[..n - 1];
      assert after == After(adapter, before, calls[n - 1]);
      hide AfterAll;
      OneObservation(adapter, before, calls[n - 1]);
      MeasuredStays(before.trace, after.trace);
    }
  }

  lemma OneObservation(adapter: Adapter, s: State, call: Call)
    requires !s.finished && s.active.None? && call.Observe?
    requires Answered(adapter, |s.trace| + 1, Begin(call.observationId))
    requires Answered(adapter, |s.trace| + 2, End(call.observationId))
    ensures var after := After(adapter, s, call);
            && s.trace <= after.trace && |after.trace| == |s.trace| + 2 && after.active.None? && !after.finished
            && MeasuredAt(after.trace, |s.trace|, call.observationId)
  {
    hide Answered;
  }

  lemma AcknowledgedAppend(trace: seq<Barrier>, last: Barrier)
    ensures Acknowledged(trace + [last])
         == if last.ok then Acknowledged(trace) + [last.request] else Acknowledged(trace)
  {
    assert (trace + [last])[..|trace|] == trace;
  }

  /** How one more acknowledged request continues the protocol. */
  lemma Extended(requests: seq<Request>, next: Request)
    ensures InProgress(requests) == Some(None) && next.Begin? ==>
              InProgress(requests + [next]) == Some(Some(next.observationId))
    ensures InProgress(requests) == Some(None) && next.Stop? ==> InProgress(requests + [next]) == Some(None)
    ensures next.End? && InProgress(requests) == Some(Some(next.observationId)) ==>
              InProgress(requests + [next]) == Some(None)
  {
    assert (requests + [next])[..|requests|] == requests;
  }

  lemma {:induction false} ProtocolPrefix(requests: seq<Request>, n: nat)
    requires InProgress(requests).Some? && n <= |requests|
    ensures InProgress(requests[..n]).Some?
    decreases |requests|
  {
    if n == |requests| {
      assert requests[..n] == requests;
    } else {
      var shorter := requests[..|requests| - 1];
      ProtocolPrefix(shorter, n);
      assert shorter[..n] == requests[..n];
    }
  }

  /** An acknowledged begin is followed by its own end before any other acknowledged request, an end follows its own
      begin, and a stop never comes while an observation is open. */
  ghost predicate AlternatesAt(requests: seq<Request>, i: nat)
    requires i < |requests|
  {
    && (requests[i].Begin? && i + 1 < |requests| ==> requests[i + 1] == End(requests[i].observationId))
    && (requests[i].End? ==> i > 0 && requests[i - 1] == Begin(requests[i].observationId))
    && (requests[i].Stop? && i > 0 ==> !requests[i - 1].Begin?)
  }

  /** What keeping the protocol means. */
  lemma ProtocolAlternates(requests: seq<Request>, i: nat)
    requires InProgress(requests).Some? && i < |requests|
    ensures AlternatesAt(requests, i)
  {
    ProtocolPrefix(requests, i + 1);
    ProtocolPrefix(requests, i);
    assert requests[..i + 1][..i] == requests[..i];
    if i > 0 {
      ProtocolPrefix(requests, i - 1);
      assert requests[..i][..i - 1] == requests[..i - 1];
    }
    if i + 1 < |requests| {
      ProtocolPrefix(requests, i + 2);
      assert requests[..i + 2][..i + 1] == requests[..i + 1];
    }
  }

  /** A run from a fresh controller, in two parts. The acknowledged requests alternate, sequence numbers strictly
      increase, a barrier is acknowledged exactly when its answer is valid for it, nothing is sent once a part finished,
      and the observations before the first failure or finish each sent their begin and end. */
  method Session(adapter: Adapter, calls: seq<Call>, more: seq<Call>)
    returns (finished: bool, ghost sent: seq<Barrier>, ghost trace: seq<Barrier>)
    ensures sent <= trace && (finished ==> trace == sent)
    ensures Sequenced(trace)
    ensures forall i :: 0 <= i < |Acknowledged(trace)| ==> AlternatesAt(Acknowledged(trace), i)
    ensures forall i :: 0 <= i < |trace| ==> (trace[i].ok <==> Answered(adapter, i + 1, trace[i].request))
    ensures forall n :: 0 <= n <= |calls| && Cooperative(adapter, 0, calls, n) ==>
              forall k :: 0 <= k < n ==> MeasuredAt(sent, 2 * k, calls[k].observationId)
  {
    hide Answered, ValidAcknowledgement, After, AfterAll, MeasuredAt;
    var controller := new Controller(adapter);
    controller.Run(calls);
    finished := controller.finished;
    sent := controller.trace;
    ghost var between := controller.Contents();
    controller.Run(more);
    trace := controller.trace;
    SentStays(adapter, between, more);
    ghost var requests := Acknowledged(trace);
    forall i | 0 <= i < |requests| ensures AlternatesAt(requests, i) {
      ProtocolAlternates(requests, i);
    }
    forall n | 0 <= n <= |calls| && Cooperative(adapter, 0, calls, n)
      ensures forall k :: 0 <= k < n ==> MeasuredAt(sent, 2 * k, calls[k].observationId)
    {
      MeasuredFromStart(adapter, calls, n);
    }
  }

  lemma MeasuredFromStart(adapter: Adapter, calls: seq<Call>, n: nat)
    requires n <= |calls| && Cooperative(adapter, 0, calls, n)
    ensures var trace := AfterAll(adapter, State([], None, false), calls).trace;
            forall k :: 0 <= k < n ==> MeasuredAt(trace, 2 * k, calls[k].observationId)
  {
    var start := State([], None, false);
    EveryObservationMeasured(adapter, start, calls, n);
    AfterPrefix(adapter, start, calls, n);
    MeasuredStays(AfterAll(adapter, start, calls[..n]).trace, AfterAll(adapter, start, calls).trace);
    hide AfterAll, MeasuredAt, Cooperative;
  }

  lemma {:induction false} AfterPrefix(adapter: Adapter, s: State, calls: seq<Call>, n: nat)
    requires n <= |calls|
    ensures AfterAll(adapter, s, calls[..n]).trace <= AfterAll(adapter, s, calls).trace
    decreases |calls| - n
  {
    if n == |calls| {
      assert calls[..n] == calls;
    } else {
      AfterPrefix(adapter, s, calls, n + 1);
      assert calls[..n + 1][..n] == calls[..n];
    }
  }
}
