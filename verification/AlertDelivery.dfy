/**
 The feedback loop of an alert: the service watches the subjects it publishes on, so its own
 publications and anyone else's writes come back to it (alert/service.go reconcileStateLocked,
 republishCanonicalLocked, storeAndPublishLocked, for an owned alert that is not a summary).
 */
module AlertDelivery {
  import opened Wrappers
  import opened AlertModel
  import opened AlertEvaluator
  import AlertLifecycle

  /** A message on a state subject, as far as the decoder gets with it. */
  datatype Wire = Malformed | Decoded(state: State)

  function NormalTime(t: Option<Time>): Option<Time> {
    if t.Some? && t.value.IsUtc() then Some(Time(t.value.instant, Utc)) else t
  }

  /** What comes back when a state is encoded and decoded: UTC times, and no empty member list. */
  function Normalized(s: State): State {
    s.(cameTime := NormalTime(s.cameTime), wentTime := NormalTime(s.wentTime), ackTime := NormalTime(s.ackTime),
       members := SliceOf(s.members.Items()))
  }

  datatype Reaction = Reaction(canonical: State, published: Option<State>)

  /** How the service reacts to one message for an owned alert with a canonical state. */
  function Deliver(canonical: State, message: Wire, now: int): Reaction {
    match message
    case Malformed => Reaction(canonical, Some(canonical))
    case Decoded(incoming) =>
      if incoming == canonical then Reaction(canonical, None)
      else if incoming.acknowledged && canonical.pending && incoming.episodeId == canonical.episodeId then
        match Acknowledge(canonical, canonical.episodeId, now)
        case Ok(next) => Reaction(next, Some(next))
        case Err(_) => Reaction(canonical, None)
      else Reaction(canonical, Some(canonical))
  }

  /** The bus keeps every message; those from delivered on are still to be delivered. */
  datatype Loop = Loop(canonical: State, bus: seq<Wire>, delivered: nat) {
    predicate Quiet() {
      delivered >= |bus|
    }

    function Step(now: int): Loop {
      if Quiet() then this
      else
        var r := Deliver(canonical, bus[delivered], now);
        Loop(r.canonical,
             if r.published.Some? then bus + [Decoded(Normalized(r.published.value))] else bus,
             delivered + 1)
    }
  }

  function Later(clock: nat -> int): nat -> int {
    (i: nat) => clock(i + 1)
  }

  function Run(loop: Loop, clock: nat -> int, n: nat): Loop {
    if n == 0 then loop else Run(loop, clock, n - 1).Step(clock(n - 1))
  }

  /** Nothing is left to deliver and the last message on the bus is the canonical state. */
  predicate Restored(loop: Loop) {
    loop.Quiet() && (loop.bus != [] ==> loop.bus[|loop.bus| - 1] == Decoded(loop.canonical))
  }

  predicate Returnable(s: State) {
    ValidState(s) && Normalized(s) == s && (s.pending ==> s.episodeId != "")
  }

  /** The canonical state only ever changes by one acknowledgement of its own episode. */
  predicate AtMostAcknowledged(before: State, after: State) {
    || after == before
    || (before.pending && !after.pending && after.ackTime.Some?
        && after == before.(pending := false, acknowledged := true, ackTime := after.ackTime))
  }

  lemma AcknowledgedIsReturnable(s: State, now: int)
    requires Returnable(s) && s.pending
    ensures var r := Acknowledge(s, s.episodeId, now);
      r.Ok? && Returnable(r.value) && !r.value.pending && AtMostAcknowledged(s, r.value)
  {
  }

  /** The work one queued message can still cause. */
  function Weight(canonical: State, message: Wire): nat {
    (if canonical.pending then 2 else 0) + (if message == Decoded(canonical) then 1 else 2)
  }

  function Work(canonical: State, queue: seq<Wire>): nat {
    if queue == [] then 0 else Weight(canonical, queue[0]) + Work(canonical, queue[1..])
  }

  lemma {:induction false} WorkAppends(canonical: State, queue: seq<Wire>, message: Wire)
    ensures Work(canonical, queue + [message]) == Work(canonical, queue) + Weight(canonical, message)
  {
    if queue != [] {
      assert (queue + [message])[1..] == queue[1..] + [message];
      WorkAppends(canonical, queue[1..], message);
    }
  }

  lemma {:induction false} AcknowledgementReducesWork(canonical: State, acknowledged: State, queue: seq<Wire>)
    requires canonical.pending && !acknowledged.pending
    ensures Work(acknowledged, queue) <= Work(canonical, queue)
    ensures Work(canonical, queue) <= 4 * |queue|
  {
    if queue != [] {
      AcknowledgementReducesWork(canonical, acknowledged, queue[1..]);
    }
  }

  lemma {:induction false} WorkIsBounded(canonical: State, queue: seq<Wire>)
    ensures Work(canonical, queue) <= 4 * |queue|
  {
    if queue != [] {
      WorkIsBounded(canonical, queue[1..]);
    }
  }

  /** Each delivery leaves less work behind, and whatever it leaves on the bus ends with the canonical state. */
  lemma StepReducesWork(loop: Loop, now: int)
    requires Returnable(loop.canonical) && !loop.Quiet()
    ensures var next := loop.Step(now);
      && Returnable(next.canonical) && AtMostAcknowledged(loop.canonical, next.canonical)
      && next.delivered <= |next.bus|
      && Work(next.canonical, next.bus[next.delivered..]) < Work(loop.canonical, loop.bus[loop.delivered..])
      && (next.Quiet() ==> Restored(next))
  {
    var next, queue := loop.Step(now), loop.bus[loop.delivered..];
    var r, rest := Deliver(loop.canonical, loop.bus[loop.delivered], now), loop.bus[loop.delivered + 1..];
    assert queue[0] == loop.bus[loop.delivered] && queue[1..] == rest;
    if loop.canonical.pending {
      AcknowledgedIsReturnable(loop.canonical, now);
      AcknowledgementReducesWork(loop.canonical, loop.canonical.(pending := false), rest);
    }
    if r.canonical != loop.canonical {
      AcknowledgementReducesWork(loop.canonical, r.canonical, rest);
    }
    if r.published.Some? {
      assert next.bus[next.delivered..] == rest + [Decoded(r.canonical)];
      WorkAppends(r.canonical, rest, Decoded(r.canonical));
    }
  }

  lemma {:induction false} RunComposes(loop: Loop, clock: nat -> int, n: nat)
    ensures Run(loop, clock, n + 1) == Run(loop.Step(clock(0)), Later(clock), n)
  {
    if n > 0 {
      RunComposes(loop, clock, n - 1);
      var last := Run(loop, clock, n);
      assert Run(loop, clock, n + 1) == last.Step(clock(n));
      assert Later(clock)(n - 1) == clock(n);
    }
  }

  /**
   Any finite queue of arbitrary or malformed messages is worked off in at most four steps a message.
   The bus then ends with the canonical state, which changed at most by one acknowledgement.
   */
  lemma {:induction false} LoopQuiesces(loop: Loop, clock: nat -> int) returns (n: nat)
    requires Returnable(loop.canonical) && loop.delivered <= |loop.bus|
    requires loop.Quiet() ==> Restored(loop)
    ensures n <= Work(loop.canonical, loop.bus[loop.delivered..]) <= 4 * (|loop.bus| - loop.delivered)
    ensures Restored(Run(loop, clock, n)) && AtMostAcknowledged(loop.canonical, Run(loop, clock, n).canonical)
    decreases Work(loop.canonical, loop.bus[loop.delivered..])
  {
    WorkIsBounded(loop.canonical, loop.bus[loop.delivered..]);
    if loop.Quiet() {
      n := 0;
    } else {
      StepReducesWork(loop, clock(0));
      var m := LoopQuiesces(loop.Step(clock(0)), Later(clock));
      RunComposes(loop, clock, m);
      n := m + 1;
    }
  }

  // ------------------------------------------------------ and when it does not

  ghost predicate AlwaysRestored(canonical: State) {
    forall queue: seq<Wire>, clock: nat -> int | queue != [] :: SomeRunRestores(canonical, queue, clock)
  }

  ghost predicate SomeRunRestores(canonical: State, queue: seq<Wire>, clock: nat -> int) {
    exists n: nat :: Restored(Run(Loop(canonical, queue, 0), clock, n))
  }

  /** A canonical state that does not survive encoding is republished for ever. */
  lemma {:induction false} UnnormalStateLoops(canonical: State, clock: nat -> int, n: nat)
    requires ValidState(canonical) && Normalized(canonical) != canonical
    ensures var loop := Run(Loop(canonical, [Malformed], 0), clock, n);
      && loop.canonical == canonical && loop.delivered == n && |loop.bus| == n + 1
      && loop.bus[n] in {Malformed, Decoded(Normalized(canonical))}
  {
    if n > 0 {
      UnnormalStateLoops(canonical, clock, n - 1);
    }
  }

  /** A pending state without an episode swallows an acknowledgement and is not restored. */
  lemma {:induction false} EpisodelessStateIsNotRestored(canonical: State, clock: nat -> int, n: nat)
    requires ValidState(canonical) && canonical.pending && canonical.episodeId == ""
    ensures var message := Decoded(canonical.(acknowledged := true));
      var loop := Run(Loop(canonical, [message], 0), clock, n);
      loop.canonical == canonical && loop.bus == [message] && !Restored(loop)
  {
    if n > 0 {
      EpisodelessStateIsNotRestored(canonical, clock, n - 1);
    }
  }

  /**
   Every queue is worked off with the canonical state restored if and only if the state survives
   encoding and, while pending, has an episode.
   */
  lemma RestoredExactlyWhenReturnable(canonical: State, clock: nat -> int)
    requires ValidState(canonical)
    ensures AlwaysRestored(canonical) <==> Returnable(canonical)
  {
    if Returnable(canonical) {
      forall queue: seq<Wire>, clock: nat -> int | queue != [] ensures SomeRunRestores(canonical, queue, clock) {
        var n := LoopQuiesces(Loop(canonical, queue, 0), clock);
      }
    } else if Normalized(canonical) != canonical {
      forall n: nat ensures !Restored(Run(Loop(canonical, [Malformed], 0), clock, n)) {
        UnnormalStateLoops(canonical, clock, n);
      }
      assert !SomeRunRestores(canonical, [Malformed], clock);
    } else {
      var message := Decoded(canonical.(acknowledged := true));
      forall n: nat ensures !Restored(Run(Loop(canonical, [message], 0), clock, n)) {
        EpisodelessStateIsNotRestored(canonical, clock, n);
      }
      assert !SomeRunRestores(canonical, [message], clock);
    }
  }

  lemma AppliedIsNormal(previous: Option<State>, e: Evaluation, now: int, episodeId: string)
    requires previous.Some? ==> Normalized(previous.value) == previous.value
    ensures var r := ApplyEvaluation(previous, e, now, episodeId);
      r.Ok? ==> Normalized(r.value) == r.value
  {
  }

  /** The service's own states survive encoding, so for them an episode while pending is all it takes. */
  lemma {:induction false} ReachableStatesAreNormal(events: seq<AlertLifecycle.Event>)
    requires forall event <- events :: AlertLifecycle.Sound(event)
    ensures var s := AlertLifecycle.Run(events);
      s.Some? ==> Normalized(s.value) == s.value && (Returnable(s.value) <==> (s.value.pending ==> s.value.episodeId != ""))
  {
    AlertLifecycle.EveryRunIsLawful(events);
    if events != [] {
      var n := |events| - 1;
      ReachableStatesAreNormal(events[..n]);
      var before := AlertLifecycle.Run(events[..n]);
      if events[n].Evaluated? {
        AppliedIsNormal(before, events[n].e, events[n].now, events[n].episodeId);
      }
    }
  }
}
