/**
  Session output: read from the terminal, recorded, then forwarded to the client (the pump of
  src/ssh/shell.rs and `record_output` of src/ssh/recording.rs).

  A run is told as the trace of what was done, in order. `Lawful` speaks of every moment of it.
 */
module OutputPump {
  import opened Wrappers
  import opened Bytes

  datatype Action =
    | Read(data: seq<Byte>)        // came out of the terminal
    | Recorded(data: seq<Byte>)    // was handed to the recorder's upload
    | SendFailed                   // the upload would not take it
    | Delivered(data: seq<Byte>)   // was sent to the client
    | Ended(message: string)       // the session was ended with this message

  /** What becomes of the loop's wait: the upload's verdict arrives, or the terminal read returns; a read of
      no bytes is the end of the output. `upload` and `client` tell whether the sends that follow are taken. */
  datatype Event =
    | Verdict(message: Option<string>)
    | Output(data: seq<Byte>, upload: bool, client: bool)
    | ReadError

  /** No recording at all, or one whose failure ends the session with a message, or does not. */
  datatype Policy = Unrecorded | FailOpen | FailClosed(message: string)

  function PtyOutput(t: seq<Action>): seq<Byte> {
    if t == [] then [] else
    var a := t[|t| - 1];
    PtyOutput(t[..|t| - 1]) + if a.Read? then a.data else []
  }

  function RecordedBytes(t: seq<Action>): seq<Byte> {
    if t == [] then [] else
    var a := t[|t| - 1];
    RecordedBytes(t[..|t| - 1]) + if a.Recorded? then a.data else []
  }

  function DeliveredBytes(t: seq<Action>): seq<Byte> {
    if t == [] then [] else
    var a := t[|t| - 1];
    DeliveredBytes(t[..|t| - 1]) + if a.Delivered? then a.data else []
  }

  /** What holds at the end of a trace. */
  predicate Now(policy: Policy, t: seq<Action>) {
    && RecordedBytes(t) <= PtyOutput(t)
    && DeliveredBytes(t) <= PtyOutput(t)
    && (policy.FailClosed? || (policy.FailOpen? && SendFailed !in t) ==> DeliveredBytes(t) <= RecordedBytes(t))
    && (policy.Unrecorded? ==> RecordedBytes(t) == [])
    && (t != [] && t[|t| - 1].Recorded? ==> SendFailed !in t)
  }

  /** It holds at every moment. */
  predicate Lawful(policy: Policy, t: seq<Action>) {
    Now(policy, t) && (t == [] || Lawful(policy, t[..|t| - 1]))
  }

  lemma {:induction false} LawfulThroughout(policy: Policy, t: seq<Action>, n: nat)
    requires Lawful(policy, t) && n <= |t|
    ensures Now(policy, t[..n])
  {
    if n == |t| {
      assert t[..n] == t;
    } else {
      LawfulThroughout(policy, t[..|t| - 1], n);
      assert t[..|t| - 1][..n] == t[..n];
    }
  }

  lemma Append(t: seq<Action>, a: Action)
    ensures PtyOutput(t + [a]) == PtyOutput(t) + if a.Read? then a.data else []
    ensures RecordedBytes(t + [a]) == RecordedBytes(t) + if a.Recorded? then a.data else []
    ensures DeliveredBytes(t + [a]) == DeliveredBytes(t) + if a.Delivered? then a.data else []
    ensures (t + [a])[..|t|] == t
  {
    assert (t + [a])[..|t|] == t;
  }

  /** The loop is running: everything read has been delivered, and recorded unless recording is off. */
  predicate Running(policy: Policy, stopped: bool, t: seq<Action>) {
    && Lawful(policy, t)
    && DeliveredBytes(t) == PtyOutput(t)
    && (!policy.Unrecorded? && !stopped ==> RecordedBytes(t) == PtyOutput(t))
    && (stopped ==> policy.FailOpen?)
    && (policy.Unrecorded? || !stopped <==> SendFailed !in t)
  }

  class Recording {
    const message: Option<string>
    var stopped: bool

    constructor (message: Option<string>)
      ensures this.message == message && !stopped
    {
      this.message, stopped := message, false;
    }

    function OnFailure(): Policy {
      if message.Some? then FailClosed(message.value) else FailOpen
    }

    /** `record_output`: `taken` tells whether the upload takes the line. */
    method RecordOutput(data: seq<Byte>, taken: bool) returns (done: seq<Action>, failure: Option<string>)
      modifies this`stopped
      ensures old(stopped) ==> done == [] && stopped && failure.None?
      ensures !old(stopped) && taken ==> done == [Recorded(data)] && !stopped && failure.None?
      ensures !old(stopped) && !taken ==> done == [SendFailed] && failure == message && stopped == message.None?
    {
      done, failure := [], None;
      if stopped { return; }
      if taken { return [Recorded(data)], None; }
      done := [SendFailed];
      if message.Some? { return done, message; }
      stopped := true;
    }
  }

  lemma ReadThenFailed(policy: Policy, t: seq<Action>, data: seq<Byte>)
    requires Running(policy, false, t) && !policy.Unrecorded?
    ensures Lawful(policy, t + [Read(data)] + [SendFailed])
    ensures policy.FailOpen? ==> Running(policy, true, t + [Read(data)] + [SendFailed] + [Delivered(data)])
  {
    Append(t, Read(data));
    Append(t + [Read(data)], SendFailed);
    if policy.FailOpen? { DeliverUnrecorded(policy, t + [Read(data)] + [SendFailed], data); }
  }

  lemma DeliverUnrecorded(policy: Policy, t: seq<Action>, data: seq<Byte>)
    requires policy.FailOpen? && Lawful(policy, t) && SendFailed in t && DeliveredBytes(t) + data == PtyOutput(t)
    ensures Running(policy, true, t + [Delivered(data)])
  {
    Append(t, Delivered(data));
  }

  lemma ReadRecordDeliver(policy: Policy, t: seq<Action>, data: seq<Byte>)
    requires Running(policy, false, t) && !policy.Unrecorded?
    ensures Lawful(policy, t + [Read(data)] + [Recorded(data)])
    ensures Running(policy, false, t + [Read(data)] + [Recorded(data)] + [Delivered(data)])
  {
    Append(t, Read(data));
    Append(t + [Read(data)], Recorded(data));
    Append(t + [Read(data)] + [Recorded(data)], Delivered(data));
  }

  lemma ReadDeliver(policy: Policy, stopped: bool, t: seq<Action>, data: seq<Byte>)
    requires Running(policy, stopped, t) && (policy.Unrecorded? || stopped)
    ensures Lawful(policy, t + [Read(data)])
    ensures Running(policy, stopped, t + [Read(data)] + [Delivered(data)])
  {
    Append(t, Read(data));
    Append(t + [Read(data)], Delivered(data));
  }

  lemma End(policy: Policy, t: seq<Action>, message: string)
    requires Lawful(policy, t)
    ensures Lawful(policy, t + [Ended(message)])
  {
    Append(t, Ended(message));
  }

  /** All that the terminal puts out in a run. */
  function Terminal(events: seq<Event>): seq<Byte> {
    if events == [] then [] else
    var e := events[|events| - 1];
    Terminal(events[..|events| - 1]) + if e.Output? then e.data else []
  }

  predicate Smooth(e: Event) { e.Output? && e.data != [] && e.upload && e.client }

  datatype Step = Step(trace: seq<Action>, stopped: bool, go: bool)

  function Deliver(t: seq<Action>, stopped: bool, e: Event): Step
    requires e.Output?
  {
    if e.client then Step(t + [Delivered(e.data)], stopped, true) else Step(t, stopped, false)
  }

  /** One read: recorded first if there is a recording, and only then delivered. */
  function Forwarded(policy: Policy, stopped: bool, t: seq<Action>, e: Event): Step
    requires e.Output?
  {
    if policy.Unrecorded? || stopped then Deliver(t + [Read(e.data)], stopped, e)
    else if e.upload then Deliver(t + [Read(e.data)] + [Recorded(e.data)], stopped, e)
    else if policy.FailOpen? then Deliver(t + [Read(e.data)] + [SendFailed], true, e)
    else Step(t + [Read(e.data)] + [SendFailed] + [Ended(policy.message)], stopped, false)
  }

  lemma ForwardedIsLawful(policy: Policy, stopped: bool, t: seq<Action>, e: Event)
    requires e.Output? && Running(policy, stopped, t)
    ensures Lawful(policy, Forwarded(policy, stopped, t, e).trace)
    ensures Forwarded(policy, stopped, t, e).go ==>
      Running(policy, Forwarded(policy, stopped, t, e).stopped, Forwarded(policy, stopped, t, e).trace)
  {
    if policy.Unrecorded? || stopped {
      ReadDeliver(policy, stopped, t, e.data);
    } else if e.upload {
      ReadRecordDeliver(policy, t, e.data);
    } else {
      ReadThenFailed(policy, t, e.data);
      if policy.FailClosed? { End(policy, t + [Read(e.data)] + [SendFailed], policy.message); }
    }
  }

  lemma DeliverReads(t: seq<Action>, stopped: bool, e: Event)
    requires e.Output?
    ensures PtyOutput(Deliver(t, stopped, e).trace) == PtyOutput(t)
  {
    Append(t, Delivered(e.data));
  }

  lemma ForwardedReads(policy: Policy, stopped: bool, t: seq<Action>, e: Event)
    requires e.Output?
    ensures PtyOutput(Forwarded(policy, stopped, t, e).trace) == PtyOutput(t) + e.data
  {
    var t1 := t + [Read(e.data)];
    Append(t, Read(e.data));
    if policy.Unrecorded? || stopped {
      DeliverReads(t1, stopped, e);
    } else if e.upload {
      Append(t1, Recorded(e.data));
      DeliverReads(t1 + [Recorded(e.data)], stopped, e);
    } else {
      Append(t1, SendFailed);
      DeliverReads(t1 + [SendFailed], true, e);
      if policy.FailClosed? { Append(t1 + [SendFailed], Ended(policy.message)); }
    }
  }

  /** The pump between two events: whether recording has stopped, whether the upload's verdict is still
      awaited, and whether the loop is over. */
  datatype State = State(trace: seq<Action>, stopped: bool, awaiting: bool, over: bool)

  /** One turn of the loop. Without a channel to wait on, no verdict ever arrives. */
  function Turn(policy: Policy, st: State, e: Event): State {
    match e
    case ReadError => st.(over := true)
    case Verdict(message) =>
      if !st.awaiting then st
      else if message.None? then st.(awaiting := false)
      else State(st.trace + [Ended(message.value)], st.stopped, false, true)
    case Output(data, _, _) =>
      if data == [] then st.(over := true) else
      var f := Forwarded(policy, st.stopped, st.trace, e);
      State(f.trace, f.stopped, st.awaiting, !f.go)
  }

  function Run(policy: Policy, events: seq<Event>): State {
    if events == [] then State([], false, !policy.Unrecorded?, false) else
    var st := Run(policy, events[..|events| - 1]);
    if st.over then st else Turn(policy, st, events[|events| - 1])
  }

  // What holds of every run.

  lemma OutputIsLawful(policy: Policy, st: State, e: Event)
    requires Running(policy, st.stopped, st.trace) && !st.over && e.Output?
    ensures Lawful(policy, Turn(policy, st, e).trace)
    ensures !Turn(policy, st, e).over ==> Running(policy, Turn(policy, st, e).stopped, Turn(policy, st, e).trace)
  {
    ForwardedIsLawful(policy, st.stopped, st.trace, e);
    var f := Forwarded(policy, st.stopped, st.trace, e);
    assert e.data != [] ==> Turn(policy, st, e) == State(f.trace, f.stopped, st.awaiting, !f.go);
  }

  lemma TurnIsLawful(policy: Policy, st: State, e: Event)
    requires Running(policy, st.stopped, st.trace) && !st.over
    ensures Lawful(policy, Turn(policy, st, e).trace)
    ensures !Turn(policy, st, e).over ==> Running(policy, Turn(policy, st, e).stopped, Turn(policy, st, e).trace)
  {
    match e {
      case Output(_, _, _) => OutputIsLawful(policy, st, e);
      case ReadError =>
      case Verdict(message) => if message.Some? { End(policy, st.trace, message.value); }
    }
  }

  /** Recorded is a prefix of what was read, and delivered a prefix of what was recorded, at every moment. */
  lemma {:induction false} RunIsLawful(policy: Policy, events: seq<Event>)
    ensures Lawful(policy, Run(policy, events).trace)
    ensures !Run(policy, events).over ==> Running(policy, Run(policy, events).stopped, Run(policy, events).trace)
  {
    if events != [] {
      var before := events[..|events| - 1];
      RunIsLawful(policy, before);
      if !Run(policy, before).over { TurnIsLawful(policy, Run(policy, before), events[|events| - 1]); }
    }
  }

  /** In no run is anything recorded after a failed send. */
  lemma NeverResumes(policy: Policy, events: seq<Event>, i: nat, j: nat)
    requires i < j < |Run(policy, events).trace| && Run(policy, events).trace[i].SendFailed?
    ensures !Run(policy, events).trace[j].Recorded?
  {
    var t := Run(policy, events).trace;
    RunIsLawful(policy, events);
    LawfulThroughout(policy, t, j + 1);
    assert t[..j + 1][i] == t[i] && t[..j + 1][j] == t[j];
  }

  lemma TurnReads(policy: Policy, st: State, e: Event)
    ensures PtyOutput(Turn(policy, st, e).trace) == PtyOutput(st.trace) + if e.Output? then e.data else []
  {
    if e.Output? {
      ForwardedReads(policy, st.stopped, st.trace, e);
    } else if e.Verdict? && e.message.Some? {
      Append(st.trace, Ended(e.message.value));
    }
  }

  /** The pump reads the terminal's output from its start, in order, and all of it while it runs. */
  lemma {:induction false} RunReads(policy: Policy, events: seq<Event>)
    ensures PtyOutput(Run(policy, events).trace) <= Terminal(events)
    ensures !Run(policy, events).over ==> PtyOutput(Run(policy, events).trace) == Terminal(events)
  {
    if events != [] {
      var before := events[..|events| - 1];
      RunReads(policy, before);
      TurnReads(policy, Run(policy, before), events[|events| - 1]);
    }
  }

  lemma {:induction false} SmoothGoesOn(policy: Policy, events: seq<Event>)
    requires forall i :: 0 <= i < |events| ==> Smooth(events[i])
    ensures !Run(policy, events).over && !Run(policy, events).stopped
  {
    if events != [] { SmoothGoesOn(policy, events[..|events| - 1]); }
  }

  /** When nothing fails, everything reaches the client and the recorder. */
  lemma SmoothIsComplete(policy: Policy, events: seq<Event>)
    requires forall i :: 0 <= i < |events| ==> Smooth(events[i])
    ensures DeliveredBytes(Run(policy, events).trace) == Terminal(events)
    ensures !policy.Unrecorded? ==> RecordedBytes(Run(policy, events).trace) == Terminal(events)
  {
    SmoothGoesOn(policy, events);
    RunReads(policy, events);
    RunIsLawful(policy, events);
  }

  /** Under fail-closed a failed send ends the session, and that is the last thing that happens. */
  lemma {:induction false} FailureEndsSession(policy: Policy, events: seq<Event>)
    requires policy.FailClosed? && SendFailed in Run(policy, events).trace
    ensures var t := Run(policy, events).trace;
            |t| >= 2 && t[|t| - 2..] == [SendFailed, Ended(policy.message)]
  {
    if events != [] {
      var before := events[..|events| - 1];
      if SendFailed in Run(policy, before).trace {
        FailureEndsSession(policy, before);
        RunIsLawful(policy, before);
      } else {
        TurnFails(policy, Run(policy, before), events[|events| - 1]);
      }
    }
  }

  lemma TurnFails(policy: Policy, st: State, e: Event)
    requires policy.FailClosed? && SendFailed !in st.trace && SendFailed in Turn(policy, st, e).trace
    ensures var t := Turn(policy, st, e).trace;
            |t| >= 2 && t[|t| - 2..] == [SendFailed, Ended(policy.message)]
  {
  }

  // How a run ends.

  lemma RunNext(policy: Policy, before: seq<Event>, e: Event)
    ensures var st := Run(policy, before);
            Run(policy, before + [e]) == if st.over then st else Turn(policy, st, e)
  {
    assert (before + [e])[..|before|] == before;
  }

  /** The upload's verdict is awaited until the first one comes, and never without a recording. */
  lemma {:induction false} AwaitingIs(policy: Policy, events: seq<Event>)
    requires !Run(policy, events).over
    ensures Run(policy, events).awaiting <==>
            !policy.Unrecorded? && forall i :: 0 <= i < |events| ==> !events[i].Verdict?
  {
    if events != [] {
      AwaitingIs(policy, events[..|events| - 1]);
      assert forall i :: 0 <= i < |events| - 1 ==> events[..|events| - 1][i] == events[i];
    }
  }

  /** The upload's first verdict ends the session with its message, at once and for good. */
  lemma VerdictEnds(policy: Policy, before: seq<Event>, message: string, after: seq<Event>)
    requires !policy.Unrecorded? && !Run(policy, before).over
    requires forall i :: 0 <= i < |before| ==> !before[i].Verdict?
    ensures var st := Run(policy, before + [Verdict(Some(message))] + after);
            st.over && st.trace == Run(policy, before).trace + [Ended(message)]
  {
    var events := before + [Verdict(Some(message))];
    AwaitingIs(policy, before);
    RunNext(policy, before, Verdict(Some(message)));
    assert (events + after)[..|events|] == events;
    OverStays(policy, events + after, |events|);
  }

  /** A verdict without a message, a second verdict, and any verdict without a recording change nothing that can
      be seen. */
  lemma OtherVerdictsAreSilent(policy: Policy, before: seq<Event>, message: Option<string>)
    requires message.None? || policy.Unrecorded? || exists i :: 0 <= i < |before| && before[i].Verdict?
    ensures var st, st' := Run(policy, before), Run(policy, before + [Verdict(message)]);
            st'.trace == st.trace && st'.stopped == st.stopped && st'.over == st.over
  {
    RunNext(policy, before, Verdict(message));
    if !Run(policy, before).over { AwaitingIs(policy, before); }
  }

  /** What ends a run that is going on. */
  predicate Ends(policy: Policy, before: seq<Event>, e: Event) {
    match e
    case ReadError => true
    case Verdict(message) =>
      message.Some? && !policy.Unrecorded? && forall i :: 0 <= i < |before| ==> !before[i].Verdict?
    case Output(data, upload, client) => data == [] || !client || (policy.FailClosed? && !upload)
  }

  /** A run ends with a read error, with the end of the output, with a refused delivery, with the upload's first
      verdict, or with a failed send under fail-closed, and with nothing else. */
  lemma RunEndsExactly(policy: Policy, before: seq<Event>, e: Event)
    requires !Run(policy, before).over
    ensures Run(policy, before + [e]).over <==> Ends(policy, before, e)
  {
    RunNext(policy, before, e);
    AwaitingIs(policy, before);
    RunIsLawful(policy, before);
  }

  /** A read error and the end of the output leave no trace; a refused delivery is not told as one. */
  lemma LastEventTraces(policy: Policy, before: seq<Event>, e: Event)
    requires !Run(policy, before).over
    ensures e.ReadError? || (e.Output? && e.data == []) ==>
      Run(policy, before + [e]).trace == Run(policy, before).trace
    ensures e.Output? && !e.client ==>
      DeliveredBytes(Run(policy, before + [e]).trace) == DeliveredBytes(Run(policy, before).trace)
  {
    RunNext(policy, before, e);
    if e.Output? && !e.client { RefusedDelivers(policy, Run(policy, before).stopped, Run(policy, before).trace, e); }
  }

  lemma RefusedDelivers(policy: Policy, stopped: bool, t: seq<Action>, e: Event)
    requires e.Output? && !e.client
    ensures DeliveredBytes(Forwarded(policy, stopped, t, e).trace) == DeliveredBytes(t)
  {
    var t1 := t + [Read(e.data)];
    Append(t, Read(e.data));
    Append(t1, Recorded(e.data));
    Append(t1, SendFailed);
    if policy.FailClosed? { Append(t1 + [SendFailed], Ended(policy.message)); }
  }

  predicate NoEnd(t: seq<Action>) { forall i :: 0 <= i < |t| ==> !t[i].Ended? }

  lemma TurnEnded(policy: Policy, st: State, e: Event)
    requires NoEnd(st.trace)
    ensures var t := Turn(policy, st, e);
            NoEnd(t.trace) || (t.over && t.trace[|t.trace| - 1].Ended? && NoEnd(t.trace[..|t.trace| - 1]))
  {
  }

  /** Nothing follows the end of a session, and the run is over. */
  lemma {:induction false} EndedIsLast(policy: Policy, events: seq<Event>)
    ensures var st := Run(policy, events);
            NoEnd(st.trace) || (st.over && st.trace[|st.trace| - 1].Ended? && NoEnd(st.trace[..|st.trace| - 1]))
  {
    if events != [] {
      var before := events[..|events| - 1];
      EndedIsLast(policy, before);
      if !Run(policy, before).over { TurnEnded(policy, Run(policy, before), events[|events| - 1]); }
    }
  }

  /** A session is ended only with the message of a failed send under fail-closed, or with a verdict's. */
  lemma {:induction false} EndedBecause(policy: Policy, events: seq<Event>, message: string)
    requires Ended(message) in Run(policy, events).trace
    ensures || (policy == FailClosed(message) && SendFailed in Run(policy, events).trace)
            || (!policy.Unrecorded? && Verdict(Some(message)) in events)
  {
    if events != [] {
      var before, e := events[..|events| - 1], events[|events| - 1];
      if Ended(message) in Run(policy, before).trace {
        EndedBecause(policy, before, message);
        if Verdict(Some(message)) !in before { FailureStays(policy, Run(policy, before), e); }
      } else {
        AwaitingIs(policy, before);
        TurnEndsWith(policy, Run(policy, before), e, message);
      }
    }
  }

  lemma FailureStays(policy: Policy, st: State, e: Event)
    requires SendFailed in st.trace
    ensures SendFailed in Turn(policy, st, e).trace
  {
  }

  lemma TurnEndsWith(policy: Policy, st: State, e: Event, message: string)
    requires Ended(message) !in st.trace && Ended(message) in Turn(policy, st, e).trace
    ensures || (policy == FailClosed(message) && SendFailed in Turn(policy, st, e).trace)
            || (st.awaiting && e == Verdict(Some(message)))
  {
  }

  // The code.

  /** The body of the pump's loop for a read. */
  method Forward(rec: Recording?, trace: seq<Action>, e: Event) returns (t: seq<Action>, go: bool)
    requires e.Output?
    modifies if rec == null then {} else {rec}
    ensures rec == null ==> Step(t, false, go) == Forwarded(Unrecorded, false, trace, e)
    ensures rec != null ==> Step(t, rec.stopped, go) == Forwarded(rec.OnFailure(), old(rec.stopped), trace, e)
  {
    go := false;
    t := trace + [Read(e.data)];
    if rec != null {
      var done, failure := rec.RecordOutput(e.data, e.upload);
      t := t + done;
      if failure.Some? {
        t := t + [Ended(failure.value)];
        return;
      }
    }
    if !e.client { return; }
    t := t + [Delivered(e.data)];
    go := true;
  }

  function PolicyOf(rec: Recording?): Policy { if rec == null then Unrecorded else rec.OnFailure() }

  lemma {:induction false} OverStays(policy: Policy, events: seq<Event>, i: nat)
    requires i <= |events| && Run(policy, events[..i]).over
    ensures Run(policy, events) == Run(policy, events[..i])
    decreases |events|
  {
    if i == |events| {
      assert events[..i] == events;
    } else {
      var before := events[..|events| - 1];
      assert before[..i] == events[..i];
      OverStays(policy, before, i);
    }
  }

  /** The output pump of a session. */
  method Pump(rec: Recording?, events: seq<Event>) returns (trace: seq<Action>)
    requires rec != null ==> !rec.stopped
    modifies if rec == null then {} else {rec}
    ensures trace == Run(PolicyOf(rec), events).trace
  {
    trace := [];
    var awaiting := rec != null;
    ghost var policy := PolicyOf(rec);
    var i := 0;
    while i < |events|
      invariant 0 <= i <= |events|
      invariant Run(policy, events[..i]) == State(trace, rec != null && rec.stopped, awaiting, false)
    {
      assert events[..i + 1][..i] == events[..i];
      if Run(policy, events[..i + 1]).over { OverStays(policy, events, i + 1); }
      match events[i] {
        case ReadError => return;
        case Verdict(message) =>
          if awaiting {
            awaiting := false;
            if message.Some? {
              trace := trace + [Ended(message.value)];
              return;
            }
          }
        case Output(data, _, _) =>
          if data == [] { return; }
          var go;
          trace, go := Forward(rec, trace, events[i]);
          if !go { return; }
      }
      i := i + 1;
    }
    assert events[..|events|] == events;
  }
}
