/**
 The alert service's state as values: what is configured (Catalog), what is known and
 published (Ledger), and what the clock, the episode-id generator and the stream answer (World).
 Each function is one of the service's internal steps in alert/service.go; the class Service
 is proved against them.
 */
module AlertLedger {
  import opened Wrappers
  import opened Sequences
  import opened AlertModel
  import opened AlertEvaluator
  import AlertIntervals
  import Dependencies

  datatype Definition = Definition(config: Config, output: string, source: string, input: Input) {
    predicate IsSummary() {
      config.kind.SummaryKind? && config.summary.Some?
    }

    function Members(): seq<string> {
      if IsSummary() then config.summary.value else []
    }
  }

  datatype Draw = Draw(now: int, episodeId: string)

  /** Generated episode ids are never empty. */
  type EpisodeDraw = d: Draw | d.episodeId != "" witness Draw(0, "id")

  /** The n-th reading of clock and id generator, and whether the n-th publication succeeds. */
  datatype World = World(draws: nat -> EpisodeDraw, publishes: nat -> bool)

  datatype Attempt = Attempt(subject: string, state: State, ok: bool)

  datatype Ledger = Ledger(states: map<string, State>, dirty: set<string>, log: seq<Attempt>, tick: nat)

  predicate ValidStates(states: map<string, State>) {
    forall n <- states :: ValidState(states[n])
  }

  // ---------------------------------------------------------------- catalog

  function Listed(parents: map<string, seq<string>>, member: string): seq<string> {
    if member in parents then parents[member] else []
  }

  datatype Catalog = Catalog(
    definitions: map<string, Definition>,
    byOutput: map<string, string>,
    parents: map<string, seq<string>>,
    properties: map<string, Properties>)
  {
    predicate IsSummary(subject: string) {
      subject in definitions && definitions[subject].IsSummary()
    }

    function Output(subject: string): string
      requires subject in definitions
    {
      definitions[subject].output
    }

    function Members(subject: string): seq<string>
      requires subject in definitions
    {
      definitions[subject].Members()
    }

    predicate IsParent(subject: string, member: string) {
      IsSummary(subject) && member in Members(subject)
    }

    function Parents(member: string): seq<string> {
      Listed(parents, member)
    }

    /** The dependency graph, read through byOutput as the service reads it. */
    function Graph(): Dependencies.Graph {
      map output | output in byOutput && IsSummary(byOutput[output]) :: Members(byOutput[output])
    }

    ghost predicate ValidDefinition(subject: string)
      requires subject in definitions
    {
      var d := definitions[subject];
      && ValidConfigFor(d.config, subject) && d.config.enabled
      && OutputSubject(subject) == Some(d.output) && InputSubject(subject) == Some(d.source)
    }

    /** byOutput and parents are exact inverses of the definitions, without duplicates or leftovers. */
    ghost predicate Exact() {
      && (forall s <- definitions :: Output(s) in byOutput && byOutput[Output(s)] == s)
      && (forall o <- byOutput :: byOutput[o] in definitions && Output(byOutput[o]) == o)
      && (forall m <- parents :: parents[m] != [])
      && (forall m :: Distinct(Parents(m)))
      && (forall m, s :: s in Parents(m) <==> IsParent(s, m))
      && (forall s | IsSummary(s) :: ValidSummary(Members(s)) && Output(s) !in Members(s))
    }

    ghost predicate Sound() {
      Exact() && !Dependencies.Cyclic(Graph())
    }

    /** Exact, and every definition validated for its subject. */
    ghost predicate Documented() {
      Exact() && forall s <- definitions :: ValidDefinition(s)
    }

    ghost predicate WellConfigured() {
      Documented() && !Dependencies.Cyclic(Graph())
    }

    lemma GraphEdges(subject: string)
      requires Exact() && IsSummary(subject)
      ensures Output(subject) in Graph() && Graph()[Output(subject)] == Members(subject)
      ensures ValidSummary(Members(subject)) && Output(subject) !in Members(subject)
    {
    }

    /** What the walk over the members of an output reads, and that it stays among the graph's nodes. */
    lemma GraphMembers(output: string, members: seq<string>)
      requires members == if output in byOutput && byOutput[output] in definitions then Members(byOutput[output]) else []
      ensures members == Dependencies.Members(Graph(), output)
      ensures forall m <- members :: m in Dependencies.Nodes(Graph())
    {
    }

    lemma OutputsDiffer(a: string, b: string)
      requires Exact() && a in definitions && b in definitions && a != b
      ensures Output(a) != Output(b)
    {
      assert byOutput[Output(a)] == a && byOutput[Output(b)] == b;
    }
  }

  // ---------------------------------------------------------------- evaluation

  predicate AllMembersKnown(members: seq<string>, states: map<string, State>) {
    Present(members, states) && forall m <- members :: ValidState(states[m])
  }

  /** What a summary evaluates to; a missing member makes it inactive. */
  function SummaryEvaluation(members: seq<string>, states: map<string, State>): Evaluation {
    if ValidSummary(members) && AllMembersKnown(members, states) then Summarize(members, states) else INACTIVE
  }

  function OrInactive(r: Result<Evaluation, EvaluationError>): Evaluation {
    match r case Ok(e) => e case Err(_) => INACTIVE
  }

  /** The evaluation to apply to a definition's output; None when there is no usable input yet. */
  function EvaluationOf(d: Definition, properties: map<string, Properties>, states: map<string, State>): Option<Evaluation> {
    match d.config.kind
    case BinaryKind =>
      if d.input.BoolInput? && d.config.binary.Some?
      then Some(OrInactive(EvaluateBinary(d.config.binary.value, d.input.b, properties))) else None
    case ValueKind =>
      if d.input != NoInput && d.config.value.Some?
      then Some(OrInactive(AlertIntervals.InputEvaluation(d.config.value.value, d.input, properties))) else None
    case SummaryKind => Some(SummaryEvaluation(d.Members(), states))
    case UnknownKind => Some(INACTIVE.(acknowledged := false))
  }

  lemma EvaluationIsWellFormed(d: Definition, properties: map<string, Properties>, states: map<string, State>)
    requires ValidStates(states)
    ensures EvaluationOf(d, properties, states).Some? ==> WellFormed(EvaluationOf(d, properties, states).value)
  {
    assert WellFormed(INACTIVE);
    match d.config.kind {
      case BinaryKind =>
        if d.input.BoolInput? && d.config.binary.Some? && ValidBinary(d.config.binary.value) {
          var c := d.config.binary.value;
          var mapping := if d.input.b then c.onTrue else c.onFalse;
          SelectedIsWellFormed(d.input.b == c.badValue, mapping.property, mapping.text, properties);
        }
      case ValueKind =>
        if d.config.value.Some? {
          AlertIntervals.InputEvaluationIsWellFormed(d.config.value.value, d.input, properties);
        }
      case SummaryKind => SummaryEvaluationIsWellFormed(d.Members(), states);
      case UnknownKind =>
    }
  }

  lemma SummaryEvaluationIsWellFormed(members: seq<string>, states: map<string, State>)
    ensures WellFormed(SummaryEvaluation(members, states))
  {
    if ValidSummary(members) && AllMembersKnown(members, states) {
      SummaryIsWellFormed(members, states);
    }
  }

  // ---------------------------------------------------------------- ledger steps

  function Publish(w: World, l: Ledger, subject: string, state: State): Ledger {
    var ok := w.publishes(|l.log|);
    l.(dirty := if ok then l.dirty - {subject} else l.dirty + {subject},
       log := l.log + [Attempt(subject, state, ok)])
  }

  function StoreAndPublish(w: World, l: Ledger, subject: string, state: State): Ledger {
    if Find(l.states, subject) == Some(state) && subject !in l.dirty then l
    else if !ValidState(state) then l
    else Publish(w, l.(states := l.states[subject := state]), subject, state)
  }

  function Republish(w: World, l: Ledger, subject: string): Ledger {
    if subject !in l.states || !ValidState(l.states[subject]) then l
    else Publish(w, l, subject, l.states[subject])
  }

  function Apply(w: World, l: Ledger, output: string, e: Evaluation): Ledger {
    var draw := w.draws(l.tick);
    var drawn := l.(tick := l.tick + 1);
    match ApplyEvaluation(Find(l.states, output), e, draw.now, draw.episodeId)
    case Err(_) => drawn
    case Ok(next) => StoreAndPublish(w, drawn, output, next)
  }

  function Evaluate(w: World, l: Ledger, c: Catalog, subject: string): Ledger {
    if subject !in c.definitions then l
    else
      match EvaluationOf(c.definitions[subject], c.properties, l.states)
      case None => l
      case Some(e) => Apply(w, l, c.Output(subject), e)
  }

  /** The states after applying an evaluation differ at the output only, and stay valid. */
  lemma ApplyChangesOutput(w: World, l: Ledger, output: string, e: Evaluation)
    requires ValidStates(l.states) && WellFormed(e)
    ensures var after := Apply(w, l, output, e).states;
      && ValidStates(after) && output in after && after == l.states[output := after[output]]
      && Agrees(after[output], e)
  {
    var draw := w.draws(l.tick);
    var previous := Find(l.states, output);
    ApplyNeverFails(previous, e, draw.now, draw.episodeId);
    ApplyIsIdempotent(previous, e, draw.now, draw.episodeId, draw.now, draw.episodeId);
  }

  /** What evaluating a summary does to the states: its output agrees, nothing else changes. */
  predicate EvaluationOutcome(c: Catalog, before: map<string, State>, after: map<string, State>, subject: string)
    requires c.IsSummary(subject)
  {
    var output := c.Output(subject);
    && output in after && ValidState(after[output]) && after == before[output := after[output]]
    && Agrees(after[output], SummaryEvaluation(c.Members(subject), before))
  }

  lemma EvaluateSummaryOutcome(w: World, l: Ledger, c: Catalog, subject: string)
    requires ValidStates(l.states) && c.IsSummary(subject)
    ensures EvaluationOutcome(c, l.states, Evaluate(w, l, c, subject).states, subject)
  {
    SummaryEvaluationIsWellFormed(c.Members(subject), l.states);
    ApplyChangesOutput(w, l, c.Output(subject), SummaryEvaluation(c.Members(subject), l.states));
  }

  /** Evaluating any definition keeps states valid and touches its output only. */
  lemma EvaluateChangesOutput(w: World, l: Ledger, c: Catalog, subject: string)
    requires ValidStates(l.states) && subject in c.definitions
    ensures var after := Evaluate(w, l, c, subject).states;
      && ValidStates(after)
      && (after == l.states || (c.Output(subject) in after && after == l.states[c.Output(subject) := after[c.Output(subject)]]))
  {
    EvaluationIsWellFormed(c.definitions[subject], c.properties, l.states);
    match EvaluationOf(c.definitions[subject], c.properties, l.states) {
      case None =>
      case Some(e) => ApplyChangesOutput(w, l, c.Output(subject), e);
    }
  }

  // ---------------------------------------------------------------- walks

  /** Evaluating one subject. */
  type Step = (Ledger, string) -> Ledger

  function Evaluator(w: World, c: Catalog): Step {
    (l, subject) => Evaluate(w, l, c, subject)
  }

  function Walk(step: Step, l: Ledger, order: seq<string>): Ledger
    decreases |order|
  {
    if order == [] then l else Walk(step, step(l, order[0]), order[1..])
  }

  /** A step that evaluates summaries; all that the theory of walks needs to know. */
  ghost predicate Evaluates(c: Catalog, step: Step) {
    forall l: Ledger, s: string | ValidStates(l.states) && c.IsSummary(s) ::
      EvaluationOutcome(c, l.states, step(l, s).states, s)
  }

  lemma EvaluatorEvaluates(w: World, c: Catalog)
    ensures Evaluates(c, Evaluator(w, c))
  {
    forall l: Ledger, s: string | ValidStates(l.states) && c.IsSummary(s)
      ensures EvaluationOutcome(c, l.states, Evaluator(w, c)(l, s).states, s)
    {
      EvaluateSummaryOutcome(w, l, c, s);
    }
  }

  lemma {:induction false} WalkSplits(step: Step, l: Ledger, a: seq<string>, b: seq<string>)
    ensures Walk(step, l, a + b) == Walk(step, Walk(step, l, a), b)
    decreases |a|
  {
    if a == [] {
      assert a + b == b;
    } else {
      assert (a + b)[1..] == a[1..] + b;
      WalkSplits(step, step(l, a[0]), a[1..], b);
    }
  }

  predicate Summaries(c: Catalog, subjects: seq<string>) {
    forall s <- subjects :: c.IsSummary(s)
  }

  /** A walk over summaries keeps every state valid. */
  lemma {:induction false} WalkStaysValid(step: Step, l: Ledger, c: Catalog, order: seq<string>)
    requires Evaluates(c, step) && ValidStates(l.states) && Summaries(c, order)
    ensures ValidStates(Walk(step, l, order).states)
    decreases |order|
  {
    if order != [] {
      assert order[0] in order;
      assert EvaluationOutcome(c, l.states, step(l, order[0]).states, order[0]);
      WalkStaysValid(step, step(l, order[0]), c, order[1..]);
    }
  }

  /** A walk over summaries leaves every other output alone. */
  lemma {:induction false} WalkFrame(step: Step, l: Ledger, c: Catalog, order: seq<string>, n: string)
    requires Evaluates(c, step) && ValidStates(l.states) && Summaries(c, order)
    requires forall s <- order :: c.IsSummary(s) && c.Output(s) != n
    ensures ValidStates(Walk(step, l, order).states)
    ensures Find(Walk(step, l, order).states, n) == Find(l.states, n)
    decreases |order|
  {
    if order != [] {
      assert order[0] in order;
      assert EvaluationOutcome(c, l.states, step(l, order[0]).states, order[0]);
      WalkFrame(step, step(l, order[0]), c, order[1..], n);
    }
  }
}
