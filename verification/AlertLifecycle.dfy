/**
 What holds of one alert over every run of its lifecycle: any mix of evaluations and
 acknowledgement requests, starting from no state (alert/evaluator.go).
 */
module AlertLifecycle {
  import opened Wrappers
  import opened AlertModel
  import opened AlertEvaluator

  datatype Event =
    | Evaluated(e: Evaluation, now: int, episodeId: string)
    | AckRequested(now: int, episodeId: string)

  /** The state is kept when the lifecycle refuses the event. */
  function Step(s: Option<State>, event: Event): Option<State> {
    match event
    case Evaluated(e, now, id) =>
      (match ApplyEvaluation(s, e, now, id) case Ok(next) => Some(next) case Err(_) => s)
    case AckRequested(now, id) =>
      if s.None? then None
      else match Acknowledge(s.value, id, now) case Ok(next) => Some(next) case Err(_) => s
  }

  function Run(events: seq<Event>): Option<State> {
    if events == [] then None
    else Step(Run(events[..|events| - 1]), events[|events| - 1])
  }

  /** Evaluations come from the evaluators, with a generated episode id. */
  predicate Sound(event: Event) {
    event.Evaluated? ==> WellFormed(event.e) && event.episodeId != ""
  }

  predicate Healthy(s: Option<State>) {
    s.Some? ==>
      && ValidState(s.value)
      && s.value.acknowledged == !s.value.pending
      && (s.value.episodeId != "" <==> s.value.cameTime.Some?)
  }

  predicate Starts(s: Option<State>, t: Option<State>) {
    t.Some? && t.value.active && (s.None? || !s.value.active)
  }

  predicate Ends(s: Option<State>, t: Option<State>) {
    s.Some? && s.value.active && t.Some? && !t.value.active
  }

  /** The request names the episode that is to be acknowledged. */
  predicate Acknowledges(s: Option<State>, event: Event) {
    event.AckRequested? && s.Some? && s.value.pending && event.episodeId == s.value.episodeId && event.episodeId != ""
  }

  /** Where an alert without a state starts from. */
  function Before(s: Option<State>): State {
    if s.Some? then s.value else NO_STATE
  }

  /** What the alert shows is what was evaluated last. */
  predicate LawfulContent(s: Option<State>, event: Event, t: State) {
    match event
    case Evaluated(e, _, _) =>
      && t.active == e.active && t.presentation == e.presentation && t.text == e.text
      && t.dominant == e.dominant && t.members.Items() == e.members
    case AckRequested(_, _) =>
      && t.active == Before(s).active && t.presentation == Before(s).presentation && t.text == Before(s).text
      && t.dominant == Before(s).dominant && t.members == Before(s).members
  }

  /** A new episode asks for acknowledgement if the evaluation does; later on only an acknowledgement ends that. */
  predicate LawfulPending(s: Option<State>, event: Event, t: State) {
    t.pending <==>
      if Starts(s, Some(t)) then event.Evaluated? && (event.e.pending || (event.e.presentation.requiresAcknowledgement && !event.e.acknowledged))
      else !Acknowledges(s, event) && (Before(s).pending || (event.Evaluated? && event.e.pending))
  }

  /** Each time is set by the event it is named after and dropped by a new episode; pending drops the acknowledgement. */
  predicate LawfulTimes(s: Option<State>, event: Event, t: State) {
    && t.cameTime == (if Starts(s, Some(t)) then Some(At(event.now)) else Before(s).cameTime)
    && t.wentTime == (if Starts(s, Some(t)) then None else if Ends(s, Some(t)) then Some(At(event.now)) else Before(s).wentTime)
    && t.ackTime == (if Starts(s, Some(t)) || t.pending then None else if Acknowledges(s, event) then Some(At(event.now)) else Before(s).ackTime)
  }

  /** What one event does to an alert. */
  predicate Lawful(s: Option<State>, event: Event, t: Option<State>) {
    && (t.None? <==> s.None? && event.AckRequested?)
    && (t.Some? ==>
          && (Starts(s, t) ==> event.Evaluated?)
          && t.value.episodeId == (if Starts(s, t) then event.episodeId else Before(s).episodeId)
          && LawfulContent(s, event, t.value) && LawfulPending(s, event, t.value) && LawfulTimes(s, event, t.value))
  }

  lemma StepIsLawful(s: Option<State>, event: Event)
    requires (s.Some? ==> ValidState(s.value)) && Sound(event)
    ensures Lawful(s, event, Step(s, event)) && (Healthy(s) ==> Healthy(Step(s, event)))
    ensures event.Evaluated? ==> ApplyEvaluation(s, event.e, event.now, event.episodeId).Ok?
  {
    if event.Evaluated? {
      ApplyNeverFails(s, event.e, event.now, event.episodeId);
    }
  }

  /** Every reachable state is healthy and every event of every run obeys the law of one step. */
  lemma {:induction false} EveryRunIsLawful(events: seq<Event>)
    requires forall event <- events :: Sound(event)
    ensures Healthy(Run(events))
    ensures forall k | 0 <= k < |events| :: Lawful(Run(events[..k]), events[k], Run(events[..k + 1]))
  {
    if events != [] {
      var n := |events| - 1;
      var front := events[..n];
      EveryRunIsLawful(front);
      StepIsLawful(Run(front), events[n]);
      forall k | 0 <= k < |events| ensures Lawful(Run(events[..k]), events[k], Run(events[..k + 1])) {
        if k < n {
          assert front[..k] == events[..k] && front[..k + 1] == events[..k + 1] && front[k] == events[k];
          assert Lawful(Run(front[..k]), front[k], Run(front[..k + 1]));
        } else {
          assert events[..k + 1] == events;
        }
      }
    }
  }

  predicate NonDecreasingClock(events: seq<Event>) {
    forall i, j | 0 <= i < j < |events| :: events[i].now <= events[j].now
  }

  predicate NotAfter(a: Option<Time>, b: Option<Time>) {
    a.Some? && b.Some? ==> a.value.instant <= b.value.instant
  }

  predicate Chronological(s: Option<State>, now: int) {
    s.Some? ==>
      && NotAfter(s.value.cameTime, Some(At(now))) && NotAfter(s.value.wentTime, Some(At(now))) && NotAfter(s.value.ackTime, Some(At(now)))
      && NotAfter(s.value.cameTime, s.value.wentTime)
      && NotAfter(s.value.cameTime, s.value.ackTime)
  }

  lemma StepIsChronological(s: Option<State>, event: Event, before: int)
    requires Chronological(s, before) && before <= event.now
    ensures Chronological(Step(s, event), event.now)
  {
    if event.Evaluated? {
      AppliedChronologically(s, event.e, event.now, event.episodeId);
    }
  }

  lemma AppliedChronologically(s: Option<State>, e: Evaluation, now: int, id: string)
    requires Chronological(s, now)
    ensures ApplyEvaluation(s, e, now, id).Ok? ==> Chronological(Some(ApplyEvaluation(s, e, now, id).value), now)
  {
  }

  lemma LaterIsChronological(s: Option<State>, now: int, later: int)
    requires Chronological(s, now) && now <= later
    ensures Chronological(s, later)
  {
  }

  /** Under a clock that never runs backwards an alert comes before it goes and before it is acknowledged. */
  lemma {:induction false} TimesAreOrdered(events: seq<Event>, now: int)
    requires NonDecreasingClock(events)
    requires forall event <- events :: event.now <= now
    ensures Chronological(Run(events), now)
  {
    if events != [] {
      var n := |events| - 1;
      TimesAreOrdered(events[..n], events[n].now);
      StepIsChronological(Run(events[..n]), events[n], events[n].now);
      LaterIsChronological(Run(events), events[n].now, now);
    }
  }
}
