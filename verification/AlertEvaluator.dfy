/**
 Alert evaluation and the alert lifecycle (alert/evaluator.go).

 Evaluators turn a configuration and its inputs into an Evaluation;
 ApplyEvaluation and Acknowledge move a State through its lifecycle.
 */
module AlertEvaluator {
  import opened Wrappers
  import opened Sequences
  import opened AlertModel

  datatype EvaluationError =
    | InvalidConfig | WrongType | NotFinite | NotCovered
    | UnknownProperty | InvalidProperty | MissingMember | InvalidMember

  // ------------------------------------------------ presentation, binary alerts

  function ResolvePresentation(subject: string, properties: map<string, Properties>): Result<Presentation, EvaluationError> {
    if subject !in properties then Err(UnknownProperty)
    else if !ValidProperties(properties[subject]) then Err(InvalidProperty)
    else
      var p := properties[subject];
      Ok(Presentation(subject, p.color, p.abbreviation, p.shortSign, p.priority, p.requiresAcknowledgement))
  }

  /** What a binary mapping or a value interval evaluates to. */
  function Selected(active: bool, property: string, text: string, properties: map<string, Properties>)
    : Result<Evaluation, EvaluationError>
  {
    if !active then Ok(INACTIVE.(acknowledged := false, text := text))
    else
      match ResolvePresentation(property, properties)
      case Err(e) => Err(e)
      case Ok(p) => Ok(Evaluation(true, false, false, p, text, "", []))
  }

  function EvaluateBinary(config: BinaryConfig, value: bool, properties: map<string, Properties>)
    : Result<Evaluation, EvaluationError>
  {
    if !ValidBinary(config) then Err(InvalidConfig)
    else
      var mapping := if value then config.onTrue else config.onFalse;
      Selected(value == config.badValue, mapping.property, mapping.text, properties)
  }

  /** The evaluations the evaluators produce, as far as the lifecycle depends on them. */
  predicate WellFormed(e: Evaluation) {
    && ValidPresentation(e.presentation)
    && ValidMembers(e.members, e.dominant)
    && !(e.pending && e.acknowledged)
    && (!e.active && !e.pending ==> e.acknowledged || !e.presentation.requiresAcknowledgement)
  }

  predicate Resolvable(property: string, properties: map<string, Properties>) {
    property in properties && ValidProperties(properties[property])
  }

  /** The presentation is that of the properties, field by field, under their subject. */
  predicate Presents(p: Presentation, property: string, properties: map<string, Properties>)
    requires property in properties
  {
    var q := properties[property];
    && p.property == property && p.color == q.color && p.abbreviation == q.abbreviation && p.shortSign == q.shortSign
    && p.priority == q.priority && p.requiresAcknowledgement == q.requiresAcknowledgement
  }

  /** What a mapping or an interval must make of an alert: an active one fails exactly without usable properties. */
  predicate Decides(active: bool, property: string, text: string, properties: map<string, Properties>, r: Result<Evaluation, EvaluationError>) {
    && (r.Err? <==> active && !Resolvable(property, properties))
    && (r.Ok? ==>
          && r.value.active == active && !r.value.pending && !r.value.acknowledged
          && r.value.text == text && r.value.dominant == "" && r.value.members == []
          && if active then Presents(r.value.presentation, property, properties) else r.value.presentation == NO_PRESENTATION)
  }

  /** A binary alert is bad exactly on the bad value, with text and properties of the mapping for the value it has. */
  lemma BinaryMeaning(config: BinaryConfig, value: bool, properties: map<string, Properties>)
    requires ValidBinary(config)
    ensures var r := EvaluateBinary(config, value, properties);
      && (value ==> Decides(config.badValue, config.onTrue.property, config.onTrue.text, properties, r))
      && (!value ==> Decides(!config.badValue, config.onFalse.property, config.onFalse.text, properties, r))
  {
  }

  lemma SelectedIsWellFormed(active: bool, property: string, text: string, properties: map<string, Properties>)
    requires active ==> ValidPropertyReference(property)
    ensures var r := Selected(active, property, text, properties);
      r.Ok? ==> WellFormed(r.value) && r.value.active == active && !r.value.pending
  {
  }

  // ---------------------------------------------------------------- summaries

  /** The two loop variables of the summary evaluator. */
  datatype Progress = Progress(result: Evaluation, dominant: Option<State>)

  const NOTHING_SEEN := Progress(INACTIVE.(acknowledged := false), None)

  predicate Live(s: State) {
    s.active || s.pending
  }

  predicate Dominates(challenger: State, holder: Option<State>) {
    || holder.None?
    || (challenger.active && !holder.value.active)
    || (challenger.active == holder.value.active && challenger.presentation.priority > holder.value.presentation.priority)
  }

  function Visit(p: Progress, subject: string, state: State): Progress {
    if !Live(state) then p
    else
      var r := p.result.(
        members := p.result.members + [subject],
        active := p.result.active || state.active,
        pending := p.result.pending || state.pending);
      if Dominates(state, p.dominant)
      then Progress(r.(dominant := subject), Some(state))
      else Progress(r, p.dominant)
  }

  predicate Present(members: seq<string>, states: map<string, State>) {
    forall m <- members :: m in states
  }

  function Scan(members: seq<string>, states: map<string, State>): Progress
    requires Present(members, states)
  {
    if members == [] then NOTHING_SEEN
    else
      var last := members[|members| - 1];
      Visit(Scan(members[..|members| - 1], states), last, states[last])
  }

  function Finish(p: Progress): Evaluation {
    match p.dominant
    case None => p.result.(acknowledged := true)
    case Some(d) => p.result.(presentation := d.presentation, text := d.text, acknowledged := !p.result.pending)
  }

  /** The evaluation of a summary whose members all have a state. */
  function Summarize(members: seq<string>, states: map<string, State>): Evaluation
    requires Present(members, states)
  {
    Finish(Scan(members, states))
  }

  /** The summary evaluator as the code runs it: one pass over the members in configured order. */
  method EvaluateSummary(members: seq<string>, states: map<string, State>) returns (r: Result<Evaluation, EvaluationError>)
    ensures r.Ok? <==> ValidSummary(members) && Present(members, states) && forall m <- members :: ValidState(states[m])
    ensures r.Ok? ==> r.value == Summarize(members, states)
  {
    if !ValidSummary(members) {
      return Err(InvalidConfig);
    }
    var result, dominant := NOTHING_SEEN.result, NOTHING_SEEN.dominant;
    for i := 0 to |members|
      invariant Present(members[..i], states)
      invariant forall m <- members[..i] :: ValidState(states[m])
      invariant Progress(result, dominant) == Scan(members[..i], states)
    {
      var subject := members[i];
      assert members[..i + 1][..i] == members[..i] && members[..i + 1][i] == subject;
      if subject !in states {
        return Err(MissingMember);
      }
      var state := states[subject];
      if !ValidState(state) {
        return Err(InvalidMember);
      }
      if !state.active && !state.pending {
        continue;
      }
      result := result.(members := result.members + [subject]);
      result := result.(active := result.active || state.active);
      result := result.(pending := result.pending || state.pending);
      if Dominates(state, dominant) {
        dominant := Some(state);
        result := result.(dominant := subject);
      }
    }
    assert members[..|members|] == members;
    if dominant.None? {
      return Ok(result.(acknowledged := true));
    }
    r := Ok(result.(presentation := dominant.value.presentation, text := dominant.value.text, acknowledged := !result.pending));
  }

  /** The members that are active or pending, in configured order. */
  function LiveMembers(members: seq<string>, states: map<string, State>): (live: seq<string>)
    requires Present(members, states)
    ensures forall m :: m in live <==> m in members && Live(states[m])
    ensures Distinct(members) ==> Distinct(live)
  {
    if members == [] then []
    else
      var last := members[|members| - 1];
      assert members == members[..|members| - 1] + [last];
      LiveMembers(members[..|members| - 1], states) + if Live(states[last]) then [last] else []
  }

  lemma NoLiveMembers(members: seq<string>, states: map<string, State>)
    requires Present(members, states) && forall m <- members :: !Live(states[m])
    ensures LiveMembers(members, states) == []
  {
  }

  predicate AnyActive(members: seq<string>, states: map<string, State>)
    requires Present(members, states)
  {
    exists m <- members :: states[m].active
  }

  predicate AnyPending(members: seq<string>, states: map<string, State>)
    requires Present(members, states)
  {
    exists m <- members :: states[m].pending
  }

  lemma {:induction false} ScanCollects(members: seq<string>, states: map<string, State>)
    requires Present(members, states)
    ensures var p := Scan(members, states);
      && p.result.members == LiveMembers(members, states)
      && (p.dominant.None? <==> p.result.members == [])
      && (p.dominant.None? ==> !p.result.active && !p.result.pending && p.result.dominant == "")
      && p.result.presentation == NO_PRESENTATION && p.result.text == "" && !p.result.acknowledged
  {
    if members != [] {
      var front, last := members[..|members| - 1], members[|members| - 1];
      ScanCollects(front, states);
      var p := Scan(front, states);
      assert Scan(members, states) == Visit(p, last, states[last]);
      assert LiveMembers(members, states) == p.result.members + if Live(states[last]) then [last] else [];
    }
  }

  lemma {:induction false} ScanActivity(members: seq<string>, states: map<string, State>)
    requires Present(members, states)
    ensures Scan(members, states).result.active <==> AnyActive(members, states)
    ensures Scan(members, states).result.pending <==> AnyPending(members, states)
  {
    if members != [] {
      var front, last := members[..|members| - 1], members[|members| - 1];
      ScanActivity(front, states);
      assert members == front + [last];
      assert AnyActive(members, states) <==> AnyActive(front, states) || states[last].active;
      assert AnyPending(members, states) <==> AnyPending(front, states) || states[last].pending;
    }
  }

  /**
   What the documentation promises of the dominant member, at position k: it is active if any
   member is, no member like it has a greater priority, and none before it has the same.
   */
  predicate DominantAt(k: nat, members: seq<string>, states: map<string, State>)
    requires Present(members, states) && k < |members|
  {
    var d := states[members[k]];
    && Live(d)
    && forall j | 0 <= j < |members| :: Yields(states[members[j]], d, j < k)
  }

  /** A member yields to the dominant one; an earlier member must lose strictly. */
  predicate Yields(s: State, d: State, earlier: bool) {
    Live(s) ==>
      || (d.active && !s.active)
      || (s.active == d.active && s.presentation.priority <= d.presentation.priority
          && (earlier ==> s.presentation.priority < d.presentation.priority))
  }

  lemma {:induction false} ScanFindsDominant(members: seq<string>, states: map<string, State>) returns (k: nat)
    requires Present(members, states)
    requires Scan(members, states).dominant.Some?
    ensures k < |members| && DominantAt(k, members, states)
    ensures members[k] == Scan(members, states).result.dominant
    ensures states[members[k]] == Scan(members, states).dominant.value
  {
    var n := |members| - 1;
    var front, last := members[..n], members[n];
    var p := Scan(front, states);
    if p.dominant.None? {
      k := n;
      ScanCollects(front, states);
      forall j | 0 <= j < n ensures !Live(states[members[j]]) {
        assert front[j] == members[j] && front[j] !in LiveMembers(front, states);
      }
    } else {
      var h := ScanFindsDominant(front, states);
      k := if Live(states[last]) && Dominates(states[last], p.dominant) then n else h;
      forall j | 0 <= j < n ensures Yields(states[members[j]], states[members[k]], j < k) {
        assert Yields(states[front[j]], states[front[h]], j < h);
      }
    }
  }

  /**
   The documented meaning of a summary: active or pending exactly when some member is, its live
   members listed in configured order, presentation and text taken from the dominant member.
   */
  lemma SummaryMeaning(members: seq<string>, states: map<string, State>)
    requires Present(members, states)
    ensures var e := Summarize(members, states);
      && (e.active <==> AnyActive(members, states))
      && (e.pending <==> AnyPending(members, states))
      && e.acknowledged == !e.pending
      && e.members == LiveMembers(members, states)
      && (e.members == [] ==> e.dominant == "" && e.presentation == NO_PRESENTATION && e.text == "")
      && (e.members != [] ==>
            exists k | 0 <= k < |members| && DominantAt(k, members, states) ::
              && e.dominant == members[k]
              && e.presentation == states[members[k]].presentation
              && e.text == states[members[k]].text)
  {
    ScanCollects(members, states);
    ScanActivity(members, states);
    if Scan(members, states).dominant.Some? {
      var k := ScanFindsDominant(members, states);
    }
  }

  lemma SummaryIsWellFormed(members: seq<string>, states: map<string, State>)
    requires ValidSummary(members) && Present(members, states)
    requires forall m <- members :: ValidState(states[m])
    ensures WellFormed(Summarize(members, states))
  {
    SummaryMeaning(members, states);
    var e := Summarize(members, states);
    if e.members != [] {
      var k :| 0 <= k < |members| && DominantAt(k, members, states) && e.dominant == members[k]
        && e.presentation == states[members[k]].presentation;
      assert ValidState(states[members[k]]);
      assert e.dominant in e.members;
    }
    if !e.active && !e.pending {
      assert e.acknowledged;
    }
  }

  /** A summary depends on nothing but its members' states. */
  lemma {:induction false} SummaryFrame(members: seq<string>, a: map<string, State>, b: map<string, State>)
    requires Present(members, a) && Present(members, b)
    requires forall m <- members :: a[m] == b[m]
    ensures Summarize(members, a) == Summarize(members, b)
    ensures Scan(members, a) == Scan(members, b)
  {
    if members != [] {
      SummaryFrame(members[..|members| - 1], a, b);
    }
  }

  // ---------------------------------------------------------------- lifecycle

  datatype LifecycleError = InvalidState | MissingEpisode | InvalidResult | EpisodeMismatch | NotPending

  const NO_STATE :=
    State(CURRENT_VERSION, false, false, NO_PRESENTATION, "", false, None, None, None, "", NilSlice, "")

  function Checked(s: State): Result<State, LifecycleError> {
    if ValidState(s) then Ok(s) else Err(InvalidResult)
  }

  function Latch(s: State): State {
    if s.pending then s.(acknowledged := false, ackTime := None) else s
  }

  function ApplyEvaluation(previous: Option<State>, e: Evaluation, now: int, episodeId: string)
    : Result<State, LifecycleError>
  {
    var prior := if previous.Some? then previous.value else NO_STATE;
    if previous.Some? && !ValidState(prior) then Err(InvalidState)
    else
      var base := State(
        CURRENT_VERSION, e.active, prior.pending, e.presentation, e.text, prior.acknowledged,
        prior.cameTime, prior.wentTime, prior.ackTime, e.dominant, SliceOf(e.members), prior.episodeId);
      if e.active && !prior.active then
        if episodeId == "" then Err(MissingEpisode)
        else
          var pending := e.pending || (e.presentation.requiresAcknowledgement && !e.acknowledged);
          Checked(base.(
            cameTime := Some(At(now)), wentTime := None, ackTime := None, episodeId := episodeId,
            pending := pending, acknowledged := !pending))
      else if e.active then
        Checked(Latch(base.(pending := prior.pending || e.pending)))
      else
        var gone := base.(
          wentTime := if prior.active then Some(At(now)) else prior.wentTime,
          pending := prior.pending || e.pending);
        Checked(
          if gone.pending then Latch(gone)
          else gone.(acknowledged := e.acknowledged || !e.presentation.requiresAcknowledgement))
  }

  function Acknowledge(s: State, episodeId: string, now: int): Result<State, LifecycleError> {
    if !ValidState(s) then Err(InvalidState)
    else if episodeId == "" || episodeId != s.episodeId then Err(EpisodeMismatch)
    else if !s.pending then Err(NotPending)
    else Ok(s.(pending := false, acknowledged := true, ackTime := Some(At(now))))
  }

  /** On evaluator results and valid states the lifecycle step never fails and keeps states valid. */
  lemma ApplyNeverFails(previous: Option<State>, e: Evaluation, now: int, episodeId: string)
    requires previous.Some? ==> ValidState(previous.value)
    requires WellFormed(e) && episodeId != ""
    ensures ApplyEvaluation(previous, e, now, episodeId).Ok?
    ensures ValidState(ApplyEvaluation(previous, e, now, episodeId).value)
  {
    assert SliceOf(e.members).Items() == e.members;
  }

  /** A state that agrees with an evaluation: applying it again has nothing to do. */
  predicate Agrees(s: State, e: Evaluation) {
    && s.version == CURRENT_VERSION
    && s.active == e.active
    && s.presentation == e.presentation
    && s.text == e.text
    && s.dominant == e.dominant
    && s.members == SliceOf(e.members)
    && (e.pending ==> s.pending)
    && (!s.active && !s.pending ==> s.acknowledged == (e.acknowledged || !e.presentation.requiresAcknowledgement))
  }

  /** Agreement is exactly being a fixed point, at any later time and with any new episode id. */
  lemma AgreementIsFixedPoint(s: State, e: Evaluation, now: int, episodeId: string)
    requires ValidState(s) && episodeId != ""
    ensures Agrees(s, e) <==> ApplyEvaluation(Some(s), e, now, episodeId) == Ok(s)
  {
  }

  /** Applying an evaluation is idempotent: one application reaches the fixed point. */
  lemma ApplyIsIdempotent(previous: Option<State>, e: Evaluation, now: int, episodeId: string, later: int, otherId: string)
    requires otherId != ""
    requires ApplyEvaluation(previous, e, now, episodeId).Ok?
    ensures var s := ApplyEvaluation(previous, e, now, episodeId).value;
      Agrees(s, e) && ApplyEvaluation(Some(s), e, later, otherId) == Ok(s)
  {
    var s := ApplyEvaluation(previous, e, now, episodeId).value;
    AgreementIsFixedPoint(s, e, later, otherId);
  }
}
