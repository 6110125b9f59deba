/**
 Which canonical states the feedback loop can restore, over runs of the whole service: what every
 event does to the two conditions of AlertDelivery, surviving encoding and having an episode while
 pending. The service adopts states from outside as they stand, so both depend on what it adopts.
 */
module AlertReturns {
  import opened Wrappers
  import opened AlertModel
  import opened AlertEvaluator
  import opened AlertLedger
  import opened AlertAncestors
  import opened AlertAcknowledgement
  import opened AlertDelivery
  import opened AlertReconcile
  import opened AlertInputs
  import opened AlertProperties
  import opened AlertCatalogUpdates
  import opened AlertReconfiguration

  /** Unchanged by encoding and decoding. */
  predicate Normal(s: State) {
    Normalized(s) == s
  }

  predicate AllNormal(states: map<string, State>) {
    forall n <- states :: Normal(states[n])
  }

  /** Whoever acknowledges a pending state can name its episode. */
  predicate Answerable(s: State) {
    s.pending ==> s.episodeId != ""
  }

  /** All but the summaries' own states. */
  predicate LeavesAnswerable(c: Catalog, states: map<string, State>) {
    forall n <- states | n !in c.Graph() :: Answerable(states[n])
  }

  predicate Returning(c: Catalog, states: map<string, State>) {
    AllNormal(states) && LeavesAnswerable(c, states)
  }

  /** In such states every owned leaf restores its canonical state after any queue of messages. */
  lemma ReturningLeavesAreRestored(c: Catalog, states: map<string, State>, subject: string, clock: nat -> int)
    requires c.Exact() && ValidStates(states) && Returning(c, states)
    requires IsLeaf(c, subject) && c.Output(subject) in states
    ensures AlwaysRestored(states[c.Output(subject)])
  {
    assert c.Output(subject) !in c.Graph();
    RestoredExactlyWhenReturnable(states[c.Output(subject)], clock);
  }

  // ---------------------------------------------------------------- evaluations and acknowledgements

  lemma ApplyKeepsNormal(w: World, l: Ledger, output: string, e: Evaluation)
    requires AllNormal(l.states)
    ensures AllNormal(Apply(w, l, output, e).states)
  {
    var draw := w.draws(l.tick);
    AppliedIsNormal(Find(l.states, output), e, draw.now, draw.episodeId);
  }

  lemma EvaluateKeepsNormal(w: World, l: Ledger, c: Catalog, subject: string)
    requires AllNormal(l.states)
    ensures AllNormal(Evaluate(w, l, c, subject).states)
  {
    if subject in c.definitions {
      match EvaluationOf(c.definitions[subject], c.properties, l.states) {
        case None =>
        case Some(e) => ApplyKeepsNormal(w, l, c.Output(subject), e);
      }
    }
  }

  lemma {:induction false} WalkKeepsNormal(w: World, l: Ledger, c: Catalog, order: seq<string>)
    requires AllNormal(l.states)
    ensures AllNormal(Walk(Evaluator(w, c), l, order).states)
    decreases |order|
  {
    if order != [] {
      EvaluateKeepsNormal(w, l, c, order[0]);
      WalkKeepsNormal(w, Evaluate(w, l, c, order[0]), c, order[1..]);
    }
  }

  /** What a pending state without an episode becomes under an evaluation. */
  lemma AppliedAnswers(previous: Option<State>, e: Evaluation, now: int, episodeId: string)
    requires (previous.Some? ==> ValidState(previous.value)) && WellFormed(e) && episodeId != "" && !e.pending
    ensures var next := ApplyEvaluation(previous, e, now, episodeId);
      next.Ok? && (Answerable(next.value) <==> e.active || previous.None? || Answerable(previous.value))
  {
    ApplyNeverFails(previous, e, now, episodeId);
  }

  lemma ApplyAnswers(w: World, l: Ledger, output: string, e: Evaluation)
    requires ValidStates(l.states) && WellFormed(e) && !e.pending
    ensures var after := Apply(w, l, output, e).states;
      output in after && (Answerable(after[output]) <==> e.active || output !in l.states || Answerable(l.states[output]))
  {
    var draw := w.draws(l.tick);
    ApplyChangesOutput(w, l, output, e);
    AppliedAnswers(Find(l.states, output), e, draw.now, draw.episodeId);
    AppliedIsStored(w, l, output, e);
  }

  lemma AppliedIsStored(w: World, l: Ledger, output: string, e: Evaluation)
    requires ValidStates(l.states) && WellFormed(e)
    ensures var draw := w.draws(l.tick);
      var next := ApplyEvaluation(Find(l.states, output), e, draw.now, draw.episodeId);
      next.Ok? && Find(Apply(w, l, output, e).states, output) == Some(next.value)
  {
    var draw := w.draws(l.tick);
    ApplyNeverFails(Find(l.states, output), e, draw.now, draw.episodeId);
  }

  /** Leaves never evaluate to pending. */
  lemma LeafResultIsNotPending(c: Catalog, leaf: string)
    requires IsLeaf(c, leaf) && LeafResult(c, leaf).Some?
    ensures WellFormed(LeafResult(c, leaf).value) && !LeafResult(c, leaf).value.pending
  {
    EvaluationIsWellFormed(c.definitions[leaf], c.properties, map[]);
  }

  /** Re-evaluating summaries leaves all other states alone. */
  lemma WalkKeepsAnswers(w: World, l: Ledger, c: Catalog, order: seq<string>)
    requires c.Exact() && ValidStates(l.states) && Summaries(c, order)
    ensures LeavesAnswerable(c, Walk(Evaluator(w, c), l, order).states) <==> LeavesAnswerable(c, l.states)
  {
    var after := Walk(Evaluator(w, c), l, order).states;
    EvaluatorEvaluates(w, c);
    forall n | n !in c.Graph() ensures Find(after, n) == Find(l.states, n) {
      WalkKeepsOthers(Evaluator(w, c), l, c, order, n);
    }
    SameLeavesSameAnswers(c, l.states, after);
  }

  lemma SameLeavesSameAnswers(c: Catalog, a: map<string, State>, b: map<string, State>)
    requires forall n | n !in c.Graph() :: Find(a, n) == Find(b, n)
    ensures LeavesAnswerable(c, a) <==> LeavesAnswerable(c, b)
  {
    forall n | n !in c.Graph() ensures n in a <==> n in b {
      assert Find(a, n) == Find(b, n);
    }
    forall n | n !in c.Graph() && n in a ensures a[n] == b[n] {
      assert Find(a, n) == Find(b, n);
    }
  }

  lemma AscendKeepsAnswers(w: World, l: Ledger, c: Catalog, output: string)
    requires c.Exact() && ValidStates(l.states)
    ensures LeavesAnswerable(c, Ascend(w, l, c, output).states) <==> LeavesAnswerable(c, l.states)
    ensures AllNormal(l.states) ==> AllNormal(Ascend(w, l, c, output).states)
  {
    VisitsAreSummaries(c, output, {});
    WalkKeepsAnswers(w, l, c, VisitOrder(c, output));
    if AllNormal(l.states) {
      WalkKeepsNormal(w, l, c, VisitOrder(c, output));
    }
  }

  /** Acknowledging makes states neither less normal nor less answerable. */
  lemma AcknowledgementKeepsReturning(c: Catalog, before: map<string, State>, after: map<string, State>, done: set<string>)
    requires Returning(c, before) && AcknowledgedIn(before, after, done)
    ensures Returning(c, after)
  {
    forall n | n in after ensures Normal(after[n]) && (n !in c.Graph() ==> Answerable(after[n])) {
      assert n in before;
    }
  }

  lemma AcknowledgeOneKeepsReturning(w: World, l: Ledger, c: Catalog, subject: string)
    requires ValidStates(l.states) && Returning(c, l.states)
    ensures Returning(c, AcknowledgeOne(w, l, subject).states)
  {
    AcknowledgeOneOutcome(w, l, subject);
    AcknowledgementKeepsReturning(c, l.states, AcknowledgeOne(w, l, subject).states, {subject});
  }

  // ---------------------------------------------------------------- messages

  predicate Welcome(c: Catalog, n: string, s: State) {
    Normal(s) && (n !in c.Graph() ==> Answerable(s))
  }

  lemma AscendKeepsOutput(w: World, l: Ledger, c: Catalog, output: string)
    requires c.Sound() && ValidStates(l.states)
    ensures Find(Ascend(w, l, c, output).states, output) == Find(l.states, output)
  {
    if output in c.byOutput && c.IsSummary(c.byOutput[output]) {
      AscendLeavesSummary(w, l, c, c.byOutput[output]);
    } else {
      AscendKeepsLeaf(w, l, c, output);
    }
  }

  lemma AdoptionKeepsReturning(w: World, l: Ledger, c: Catalog, subject: string, incoming: State)
    requires c.Sound() && ValidStates(l.states) && ValidState(incoming) && Returning(c, l.states)
    ensures Returning(c, Observed(w, l, c, subject, incoming).states) <==> Welcome(c, subject, incoming)
  {
    var adopted := l.(states := l.states[subject := incoming]);
    AscendKeepsAnswers(w, adopted, c, subject);
    AscendKeepsOutput(w, adopted, c, subject);
  }

  /** One message keeps the states returning if and only if a state it makes the service adopt is welcome. */
  lemma MessageKeepsReturning(w: World, l: Ledger, c: Catalog, subject: string, message: Wire)
    requires c.Sound() && ValidStates(l.states) && Returning(c, l.states)
    ensures Returning(c, Reconcile(w, l, c, subject, message).states)
      <==> (Adopts(c, l.states, subject, message) ==> Welcome(c, subject, message.state))
  {
    if message.Decoded? {
      if subject !in c.byOutput || subject !in l.states {
        if ValidState(message.state) {
          AdoptionKeepsReturning(w, l, c, subject, message.state);
        }
      } else {
        RequestKeepsReturning(w, l, c, subject);
      }
    }
  }

  lemma RequestKeepsReturning(w: World, l: Ledger, c: Catalog, subject: string)
    requires c.Sound() && ValidStates(l.states) && Returning(c, l.states) && subject in c.byOutput
    ensures Returning(c, Acknowledged(w, l, c, subject).states)
  {
    AcknowledgementStaysValid(w, l, c, subject);
    var tree := TreeIsAcknowledgedOnce(w, l, c.Graph(), subject);
    AcknowledgementKeepsReturning(c, l.states, AcknowledgeTree(w, l, c.Graph(), subject, {}).states, tree);
    AcknowledgeOneKeepsReturning(w, l, c, subject);
    AscendKeepsAnswers(w, AcknowledgeTree(w, l, c.Graph(), subject, {}), c, subject);
    AscendKeepsAnswers(w, AcknowledgeOne(w, l, subject), c, subject);
  }

  // ---------------------------------------------------------------- inputs and properties

  lemma LeafEvaluationKeepsReturning(w: World, l: Ledger, c: Catalog, leaf: string)
    requires c.Exact() && ValidStates(l.states) && Returning(c, l.states) && IsLeaf(c, leaf)
    ensures ValidStates(Evaluate(w, l, c, leaf).states) && Returning(c, Evaluate(w, l, c, leaf).states)
  {
    EvaluateKeepsNormal(w, l, c, leaf);
    EvaluateChangesOutput(w, l, c, leaf);
    LeafResultIsEvaluation(c, leaf, l.states);
    if LeafResult(c, leaf).Some? {
      LeafResultIsNotPending(c, leaf);
      ApplyAnswers(w, l, c.Output(leaf), LeafResult(c, leaf).value);
    }
  }

  lemma {:induction false} PassKeepsReturning(w: World, l: Ledger, c: Catalog, leaves: seq<string>)
    requires c.Exact() && ValidStates(l.states) && Returning(c, l.states) && Leaves(c, leaves)
    ensures var after := PassAfter(w, l, c, leaves).ledger.states; ValidStates(after) && Returning(c, after)
  {
    if leaves != [] {
      var before, x := leaves[..|leaves| - 1], leaves[|leaves| - 1];
      PassKeepsReturning(w, l, c, before);
      var p := PassAfter(w, l, c, before);
      PassStaysValid(w, c, p, x);
      LeafEvaluationKeepsReturning(w, p.ledger, c, x);
      VisitsAreSummaries(c, c.Output(x), p.seen);
      var order := Visits(c, c.Parents(c.Output(x)), p.seen);
      WalkKeepsNormal(w, Evaluate(w, p.ledger, c, x), c, order);
      WalkKeepsAnswers(w, Evaluate(w, p.ledger, c, x), c, order);
    }
  }

  /** Inputs and properties decide nothing about the graph. */
  lemma SameGraphSameReturning(c: Catalog, d: Catalog, states: map<string, State>)
    requires d.Graph() == c.Graph()
    ensures Returning(c, states) <==> Returning(d, states)
  {
  }

  lemma InputKeepsReturning(w: World, l: Ledger, c: Catalog, subject: string, value: Input)
    requires c.WellConfigured() && ValidStates(l.states) && IsLeaf(c, subject) && Returning(c, l.states)
    ensures var d := WithInput(c, subject, value); Returning(d, Evaluated(w, l, d, subject).states)
  {
    var d := WithInput(c, subject, value);
    InputKeepsWellConfigured(c, d, subject, value);
    InputKeepsSound(c, d, subject, value);
    SameGraphSameReturning(c, d, l.states);
    LeafEvaluationKeepsReturning(w, l, d, subject);
    AscendKeepsAnswers(w, Evaluate(w, l, d, subject), d, d.Output(subject));
  }

  lemma PropertiesKeepReturning(w: World, l: Ledger, before: Catalog, c: Catalog, leaves: seq<string>)
    requires c.Exact() && ValidStates(l.states) && Leaves(c, leaves)
    requires c.definitions == before.definitions && c.byOutput == before.byOutput
    ensures Returning(before, l.states) ==> Returning(c, PassAfter(w, l, c, leaves).ledger.states)
  {
    GraphStays(before, c);
    if Returning(before, l.states) {
      SameGraphSameReturning(before, c, l.states);
      PassKeepsReturning(w, l, c, leaves);
    }
  }

  lemma SummariesKeepReturning(w: World, l: Ledger, c: Catalog, order: seq<string>)
    requires c.Exact() && ValidStates(l.states) && Summaries(c, order)
    ensures Returning(c, l.states) ==> Returning(c, Walk(Evaluator(w, c), l, order).states)
  {
    if Returning(c, l.states) {
      WalkKeepsNormal(w, l, c, order);
      WalkKeepsAnswers(w, l, c, order);
    }
  }

  // ---------------------------------------------------------------- configurations

  /** The members a summary catches up with. */
  ghost predicate WelcomeMembers(c: Catalog, states: map<string, State>, subject: string, surroundings: Surroundings)
    requires c.IsSummary(subject)
  {
    var caught := CaughtUp(states, c.Members(subject), surroundings.retained);
    forall m <- caught | m !in states :: Welcome(c, m, caught[m])
  }

  /** A summary that is pending without an episode stops being a summary. */
  predicate Orphans(before: Catalog, c: Catalog, states: map<string, State>, subject: string) {
    && before.IsSummary(subject) && !c.IsSummary(subject)
    && before.Output(subject) in states && !Answerable(states[before.Output(subject)])
  }

  /** The subject is a leaf now, and its current value makes it active. */
  predicate StartsEpisode(c: Catalog, subject: string, surroundings: Surroundings) {
    && subject in c.definitions && !c.IsSummary(subject) && surroundings.current.Some?
    && LeafResult(c, subject).Some? && LeafResult(c, subject).value.active
  }

  lemma GraphsDifferAtOutput(before: Catalog, c: Catalog, subject: string, n: string)
    requires before.Exact() && c.Exact() && SameApartFrom(before.definitions, c.definitions, subject)
    requires n in before.Graph() && !(subject in before.definitions && before.Output(subject) == n)
    ensures n in c.Graph()
  {
    var s := before.byOutput[n];
    assert s != subject && c.definitions[s] == before.definitions[s];
    c.GraphEdges(s);
  }

  /** With the new catalog only an orphaned summary can have no answer. */
  lemma OnlyOrphansHaveNoAnswer(before: Catalog, c: Catalog, states: map<string, State>, subject: string)
    requires before.WellConfigured() && c.WellConfigured() && SameApartFrom(before.definitions, c.definitions, subject)
    requires Returning(before, states)
    ensures LeavesAnswerable(c, states) <==> !Orphans(before, c, states, subject)
    ensures forall n <- states | n !in c.Graph() && !Answerable(states[n]) ::
      Orphans(before, c, states, subject) && n == before.Output(subject)
  {
    forall n | n in states && n !in c.Graph() && !Answerable(states[n])
      ensures Orphans(before, c, states, subject) && n == before.Output(subject)
    {
      assert n in before.Graph();
      if !(subject in before.definitions && before.Output(subject) == n) {
        GraphsDifferAtOutput(before, c, subject, n);
      }
      OwnerIsASummary(before, c, subject, n);
    }
    if Orphans(before, c, states, subject) {
      OrphanLeftTheGraph(before, c, subject);
    }
  }

  lemma OwnerIsASummary(before: Catalog, c: Catalog, subject: string, n: string)
    requires before.Exact() && c.Exact() && n in before.Graph() && n !in c.Graph()
    requires subject in before.definitions && before.Output(subject) == n
    requires subject in c.definitions ==> OutputSubject(subject) == Some(c.Output(subject))
    requires OutputSubject(subject) == Some(n)
    ensures before.IsSummary(subject) && !c.IsSummary(subject)
  {
    assert before.byOutput[n] == subject;
    if c.IsSummary(subject) {
      c.GraphEdges(subject);
    }
  }

  lemma OrphanLeftTheGraph(before: Catalog, c: Catalog, subject: string)
    requires before.WellConfigured() && c.WellConfigured() && SameApartFrom(before.definitions, c.definitions, subject)
    requires before.IsSummary(subject) && !c.IsSummary(subject)
    ensures before.Output(subject) !in c.Graph()
  {
    var n := before.Output(subject);
    if n in c.Graph() {
      var s := c.byOutput[n];
      assert s != subject && before.definitions[s] == c.definitions[s];
      before.OutputsDiffer(s, subject);
    }
  }

  lemma CaughtUpReturns(c: Catalog, states: map<string, State>, subject: string, surroundings: Surroundings)
    requires c.IsSummary(subject) && ValidStates(states) && Returning(c, states)
    ensures Returning(c, CaughtUp(states, c.Members(subject), surroundings.retained))
      <==> WelcomeMembers(c, states, subject, surroundings)
  {
    CaughtUpIsValid(states, c.Members(subject), surroundings.retained);
  }

  lemma EvaluatedSummaryKeepsOthers(w: World, l: Ledger, c: Catalog, subject: string)
    requires c.Exact() && ValidStates(l.states) && c.IsSummary(subject)
    ensures var next := Evaluate(w, l, c, subject).states;
      && ValidStates(next) && (LeavesAnswerable(c, next) <==> LeavesAnswerable(c, l.states))
      && forall n | n != c.Output(subject) :: Find(next, n) == Find(l.states, n)
  {
    c.GraphEdges(subject);
    EvaluateChangesOutput(w, l, c, subject);
    SameLeavesSameAnswers(c, l.states, Evaluate(w, l, c, subject).states);
  }

  lemma StartedSummaryKeepsMembers(w: World, l: Ledger, c: Catalog, subject: string)
    requires c.WellConfigured() && ValidStates(l.states) && c.IsSummary(subject)
    ensures var after := Evaluated(w, l, c, subject).states;
      && (LeavesAnswerable(c, after) <==> LeavesAnswerable(c, l.states))
      && (forall m <- c.Members(subject) :: Find(after, m) == Find(l.states, m))
  {
    c.GraphEdges(subject);
    EvaluatedSummaryKeepsOthers(w, l, c, subject);
    AscendKeepsAnswers(w, Evaluate(w, l, c, subject), c, c.Output(subject));
    AscendLeavesSummary(w, Evaluate(w, l, c, subject), c, subject);
  }

  lemma StartedSummaryStaysNormal(w: World, l: Ledger, c: Catalog, subject: string)
    requires c.Exact() && ValidStates(l.states) && c.IsSummary(subject) && AllNormal(l.states)
    ensures AllNormal(Evaluated(w, l, c, subject).states)
  {
    EvaluateKeepsNormal(w, l, c, subject);
    EvaluatedSummaryKeepsOthers(w, l, c, subject);
    AscendKeepsAnswers(w, Evaluate(w, l, c, subject), c, c.Output(subject));
  }

  lemma NormalBefore(before: map<string, State>, more: map<string, State>, after: map<string, State>, members: seq<string>)
    requires AllNormal(before) && AllNormal(after)
    requires forall n <- more :: (n in before && more[n] == before[n]) || n in members
    requires forall m <- members :: Find(after, m) == Find(more, m)
    ensures AllNormal(more)
  {
    forall n | n in more && n in members ensures Normal(more[n]) {
      assert Find(after, n) == Find(more, n);
    }
  }

  lemma StartedSummaryReturns(w: World, l: Ledger, c: Catalog, subject: string, surroundings: Surroundings)
    requires c.WellConfigured() && ValidStates(l.states) && c.IsSummary(subject) && Returning(c, l.states)
    ensures Returning(c, Reconfigured(w, l, c, subject, surroundings).states) <==> WelcomeMembers(c, l.states, subject, surroundings)
  {
    var members, retained := c.Members(subject), surroundings.retained;
    var caught := l.(states := CaughtUp(l.states, members, retained));
    var after := Evaluated(w, caught, c, subject).states;
    CaughtUpReturns(c, l.states, subject, surroundings);
    CaughtUpIsValid(l.states, members, retained);
    CaughtUpAddsMembers(l.states, members, retained);
    StartedSummaryKeepsMembers(w, caught, c, subject);
    if AllNormal(caught.states) {
      StartedSummaryStaysNormal(w, caught, c, subject);
    } else if AllNormal(after) {
      NormalBefore(l.states, caught.states, after, members);
    }
  }

  lemma StartedLeafReturns(w: World, l: Ledger, c: Catalog, subject: string, missing: bool)
    requires c.WellConfigured() && ValidStates(l.states) && IsLeaf(c, subject) && AllNormal(l.states)
    requires forall n <- l.states | n !in c.Graph() && !Answerable(l.states[n]) :: missing && n == c.Output(subject)
    requires missing ==> c.Output(subject) in l.states && !Answerable(l.states[c.Output(subject)])
    ensures Returning(c, Evaluated(w, l, c, subject).states)
      <==> (missing ==> LeafResult(c, subject).Some? && LeafResult(c, subject).value.active)
  {
    var next, output := Evaluate(w, l, c, subject), c.Output(subject);
    assert output !in c.Graph();
    EvaluateKeepsNormal(w, l, c, subject);
    EvaluateChangesOutput(w, l, c, subject);
    LeafResultIsEvaluation(c, subject, l.states);
    if LeafResult(c, subject).Some? {
      LeafResultIsNotPending(c, subject);
      ApplyAnswers(w, l, output, LeafResult(c, subject).value);
    }
    AscendKeepsAnswers(w, next, c, output);
  }

  lemma DeactivatedReturns(w: World, l: Ledger, c: Catalog, output: string, missing: bool)
    requires c.WellConfigured() && ValidStates(l.states) && output !in c.Graph() && AllNormal(l.states)
    requires forall n <- l.states | n !in c.Graph() && !Answerable(l.states[n]) :: missing && n == output
    requires missing ==> output in l.states && !Answerable(l.states[output])
    ensures Returning(c, Deactivated(w, l, c, output).states) <==> !missing
  {
    InactiveIsWellFormed();
    ApplyKeepsNormal(w, l, output, INACTIVE);
    ApplyChangesOutput(w, l, output, INACTIVE);
    ApplyAnswers(w, l, output, INACTIVE);
    AscendKeepsAnswers(w, Apply(w, l, output, INACTIVE), c, output);
  }

  /**
   A configuration message keeps the states returning if and only if the members caught up with are
   welcome, and a summary pending without an episode either stays a summary or becomes a leaf whose
   current value starts an episode.
   */
  ghost predicate Harmless(before: Catalog, c: Catalog, states: map<string, State>, subject: string, surroundings: Surroundings) {
    && (c.IsSummary(subject) ==> WelcomeMembers(c, states, subject, surroundings))
    && (Orphans(before, c, states, subject) ==> StartsEpisode(c, subject, surroundings))
  }

  lemma ConfigurationKeepsReturning(
    w: World, l: Ledger, before: Catalog, c: Catalog, subject: string, surroundings: Surroundings)
    requires before.WellConfigured() && c.WellConfigured() && SameApartFrom(before.definitions, c.definitions, subject)
    requires ValidStates(l.states) && Returning(before, l.states)
    ensures Returning(c, Reconfigured(w, l, c, subject, surroundings).states)
      <==> Harmless(before, c, l.states, subject, surroundings)
  {
    var missing := Orphans(before, c, l.states, subject);
    OnlyOrphansHaveNoAnswer(before, c, l.states, subject);
    if c.IsSummary(subject) {
      StartedSummaryReturns(w, l, c, subject, surroundings);
    } else if subject in c.definitions {
      OutputStays(before, c, subject);
      if surroundings.current.Some? {
        StartedLeafReturns(w, l, c, subject, missing);
      }
    } else if OutputSubject(subject).Some? {
      OutputStays(before, c, subject);
      DeactivatedReturns(w, l, c, OutputSubject(subject).value, missing);
    }
  }

  lemma OutputStays(before: Catalog, c: Catalog, subject: string)
    requires before.WellConfigured() && c.WellConfigured() && OutputSubject(subject).Some? && !c.IsSummary(subject)
    ensures subject in before.definitions ==> before.Output(subject) == OutputSubject(subject).value
    ensures subject in c.definitions ==> c.Output(subject) == OutputSubject(subject).value && IsLeaf(c, subject)
    ensures OutputSubject(subject).value !in c.Graph()
  {
    var output := OutputSubject(subject).value;
    if subject in before.definitions {
      assert before.ValidDefinition(subject);
    }
    if subject in c.definitions {
      assert c.ValidDefinition(subject);
    }
    if output in c.Graph() {
      var s := c.byOutput[output];
      assert c.ValidDefinition(s) && OutputSubject(s) == OutputSubject(subject);
      DerivedSubjectsAreInjective(s, subject);
    }
  }

  // ---------------------------------------------------------------- runs

  /** One event of the service; configurations and properties say what they found. */
  datatype Event =
    | Delivered(subject: string, message: Wire)
    | Configured(subject: string, surroundings: Surroundings)
    | Entered(subject: string, value: Input)
    | Announced(property: string, leaves: seq<string>)
    | Initialized(order: seq<string>)

  datatype Point = Point(catalog: Catalog, ledger: Ledger)

  ghost predicate SameProperties(a: map<string, Properties>, b: map<string, Properties>, property: string) {
    forall p | p != property :: Find(a, p) == Find(b, p)
  }

  lemma OnePropertyChanged(a: map<string, Properties>, b: map<string, Properties>, property: string)
    requires b == a - {property} || (property in b && b == a[property := b[property]])
    ensures SameProperties(a, b, property)
  {
  }

  /** What each operation of the service does, as its contract says. */
  ghost predicate Happens(w: World, p: Point, e: Event, q: Point) {
    && p.catalog.WellConfigured() && ValidStates(p.ledger.states)
    && q.catalog.WellConfigured() && ValidStates(q.ledger.states)
    && match e {
      case Delivered(subject, message) => q == p.(ledger := Reconcile(w, p.ledger, p.catalog, subject, message))
      case Configured(subject, surroundings) =>
        && SameApartFrom(p.catalog.definitions, q.catalog.definitions, subject) && q.catalog.properties == p.catalog.properties
        && (IsLeaf(q.catalog, subject) && surroundings.current.None? ==> q.catalog.definitions[subject].input == NoInput)
        && q.ledger == Reconfigured(w, p.ledger, q.catalog, subject, surroundings)
      case Entered(subject, value) =>
        && IsLeaf(p.catalog, subject) && q.catalog == WithInput(p.catalog, subject, value)
        && q.ledger == Evaluated(w, p.ledger, q.catalog, subject)
      case Announced(property, leaves) =>
        && q.catalog == p.catalog.(properties := q.catalog.properties)
        && SameProperties(p.catalog.properties, q.catalog.properties, property)
        && Lists(q.catalog, property, leaves) && Leaves(q.catalog, leaves)
        && q.ledger == PassAfter(w, p.ledger, q.catalog, leaves).ledger
      case Initialized(order) =>
        && q.catalog == p.catalog && Summaries(q.catalog, order)
        && q.ledger == Walk(Evaluator(w, q.catalog), p.ledger, order)
    }
  }

  /** What the service takes from outside is welcome, and no summary pending without an episode is orphaned. */
  ghost predicate Permitted(p: Point, e: Event, q: Point) {
    match e
    case Delivered(subject, message) =>
      Adopts(p.catalog, p.ledger.states, subject, message) ==> Welcome(p.catalog, subject, message.state)
    case Configured(subject, surroundings) => Harmless(p.catalog, q.catalog, p.ledger.states, subject, surroundings)
    case _ => true
  }

  lemma EventKeepsReturning(w: World, p: Point, e: Event, q: Point)
    requires Happens(w, p, e, q) && Returning(p.catalog, p.ledger.states)
    ensures Returning(q.catalog, q.ledger.states) <==> Permitted(p, e, q)
  {
    match e {
      case Delivered(subject, message) => MessageKeepsReturning(w, p.ledger, p.catalog, subject, message);
      case Configured(subject, surroundings) =>
        ConfigurationKeepsReturning(w, p.ledger, p.catalog, q.catalog, subject, surroundings);
      case Entered(subject, value) => InputKeepsReturning(w, p.ledger, p.catalog, subject, value);
      case Announced(property, leaves) => PropertiesKeepReturning(w, p.ledger, p.catalog, q.catalog, leaves);
      case Initialized(order) => SummariesKeepReturning(w, p.ledger, q.catalog, order);
    }
  }

  ghost predicate IsRun(w: World, run: seq<Point>, events: seq<Event>) {
    |run| == |events| + 1 && forall i | 0 <= i < |events| :: Happens(w, run[i], events[i], run[i + 1])
  }

  ghost predicate ReturningAt(run: seq<Point>, i: nat)
    requires i < |run|
  {
    Returning(run[i].catalog, run[i].ledger.states)
  }

  ghost predicate PermittedAt(run: seq<Point>, events: seq<Event>, i: nat)
    requires |run| == |events| + 1 && i < |events|
  {
    Permitted(run[i], events[i], run[i + 1])
  }

  lemma NextReturning(w: World, run: seq<Point>, events: seq<Event>, i: nat)
    requires IsRun(w, run, events) && i < |events| && ReturningAt(run, i)
    ensures ReturningAt(run, i + 1) <==> PermittedAt(run, events, i)
  {
    EventKeepsReturning(w, run[i], events[i], run[i + 1]);
  }

  lemma {:induction false} PermittedStaysReturning(w: World, run: seq<Point>, events: seq<Event>, n: nat)
    requires IsRun(w, run, events) && ReturningAt(run, 0) && n <= |events|
    requires forall i | 0 <= i < n :: PermittedAt(run, events, i)
    ensures ReturningAt(run, n)
  {
    if n > 0 {
      PermittedStaysReturning(w, run, events, n - 1);
      NextReturning(w, run, events, n - 1);
    }
  }

  /** Over every run: the states stay returning to the end if and only if every event on the way is permitted. */
  lemma RunKeepsReturning(w: World, run: seq<Point>, events: seq<Event>)
    requires IsRun(w, run, events) && ReturningAt(run, 0)
    ensures (forall i | 0 <= i < |run| :: ReturningAt(run, i)) <==> forall i | 0 <= i < |events| :: PermittedAt(run, events, i)
  {
    if forall i | 0 <= i < |events| :: PermittedAt(run, events, i) {
      forall i | 0 <= i < |run| ensures ReturningAt(run, i) {
        PermittedStaysReturning(w, run, events, i);
      }
    } else if forall i | 0 <= i < |run| :: ReturningAt(run, i) {
      var i :| 0 <= i < |events| && !PermittedAt(run, events, i);
      NextReturning(w, run, events, i);
      assert false;
    }
  }

  /** Then every owned leaf with a state restores it, at every point of the run. */
  lemma PermittedRunsAreRestored(w: World, run: seq<Point>, events: seq<Event>, i: nat, subject: string, clock: nat -> int)
    requires IsRun(w, run, events) && ReturningAt(run, 0) && forall j | 0 <= j < |events| :: PermittedAt(run, events, j)
    requires 0 < i < |run| && IsLeaf(run[i].catalog, subject) && run[i].catalog.Output(subject) in run[i].ledger.states
    ensures AlwaysRestored(run[i].ledger.states[run[i].catalog.Output(subject)])
  {
    RunKeepsReturning(w, run, events);
    assert ReturningAt(run, i) && Happens(w, run[i - 1], events[i - 1], run[i - 1 + 1]);
    ReturningLeavesAreRestored(run[i].catalog, run[i].ledger.states, subject, clock);
  }
}
