/**
 What one message on a state subject does to the ledger (alert/service.go reconcileStateLocked),
 and that for an owned leaf alert this is one step of the delivery loop.
 */
module AlertReconcile {
  import opened Wrappers
  import opened AlertModel
  import opened AlertEvaluator
  import opened AlertLedger
  import opened AlertSummaries
  import opened AlertAncestors
  import opened AlertAcknowledgement
  import opened AlertDelivery
  import Dependencies

  /** Re-evaluation of everything above an output. */
  function Ascend(w: World, l: Ledger, c: Catalog, output: string): Ledger {
    Walk(Evaluator(w, c), l, VisitOrder(c, output))
  }

  /** An acknowledgement request for an owned alert: the alert or its whole tree, then everything above. */
  function Acknowledged(w: World, l: Ledger, c: Catalog, subject: string): Ledger
    requires subject in c.byOutput
  {
    if c.IsSummary(c.byOutput[subject])
    then Ascend(w, AcknowledgeTree(w, l, c.Graph(), subject, {}), c, subject)
    else Ascend(w, AcknowledgeOne(w, l, subject), c, subject)
  }

  /** Someone else's state, or one of ours that is not known yet. */
  function Observed(w: World, l: Ledger, c: Catalog, subject: string, incoming: State): Ledger {
    if !ValidState(incoming) then l
    else Ascend(w, l.(states := l.states[subject := incoming]), c, subject)
  }

  function Reconcile(w: World, l: Ledger, c: Catalog, subject: string, message: Wire): Ledger {
    match message
    case Malformed =>
      if subject in c.byOutput then Republish(w, l, subject) else l
    case Decoded(incoming) =>
      if subject !in c.byOutput || subject !in l.states then Observed(w, l, c, subject, incoming)
      else
        var canonical := l.states[subject];
        if canonical == incoming then l
        else if incoming.acknowledged && canonical.pending && incoming.episodeId == canonical.episodeId
        then Acknowledged(w, l, c, subject)
        else Republish(w, l, subject)
  }

  /** The service takes the message's state as it stands. */
  predicate Adopts(c: Catalog, states: map<string, State>, subject: string, message: Wire) {
    message.Decoded? && ValidState(message.state) && (subject !in c.byOutput || subject !in states)
  }

  /** The message asks to acknowledge the pending episode of an owned alert. */
  predicate Requests(c: Catalog, states: map<string, State>, subject: string, message: Wire) {
    && message.Decoded? && subject in c.byOutput && subject in states && states[subject].pending
    && message.state.acknowledged && message.state.episodeId == states[subject].episodeId
  }

  /** The successful publications on one subject, in order. */
  function Published(log: seq<Attempt>, subject: string): seq<State> {
    if log == [] then []
    else
      var last := log[|log| - 1];
      Published(log[..|log| - 1], subject) + if last.ok && last.subject == subject then [last.state] else []
  }

  lemma PublishedAppends(log: seq<Attempt>, a: Attempt, subject: string)
    ensures Published(log + [a], subject) == Published(log, subject) + if a.ok && a.subject == subject then [a.state] else []
  {
    assert (log + [a])[..|log|] == log;
  }

  /** Evaluating one definition publishes on its own output only. */
  lemma EvaluatePublishesOutput(w: World, l: Ledger, c: Catalog, s: string, subject: string)
    requires s in c.definitions && c.Output(s) != subject
    ensures Published(Evaluate(w, l, c, s).log, subject) == Published(l.log, subject)
  {
    var after := Evaluate(w, l, c, s);
    if after.log != l.log {
      var a := after.log[|l.log|];
      assert after.log == l.log + [a] && a.subject == c.Output(s);
      PublishedAppends(l.log, a, subject);
    }
  }

  lemma {:induction false} WalkPublishesOutputs(w: World, l: Ledger, c: Catalog, order: seq<string>, subject: string)
    requires forall s <- order :: s in c.definitions && c.Output(s) != subject
    ensures Published(Walk(Evaluator(w, c), l, order).log, subject) == Published(l.log, subject)
    decreases |order|
  {
    if order != [] {
      assert order[0] in order;
      EvaluatePublishesOutput(w, l, c, order[0], subject);
      WalkPublishesOutputs(w, Evaluate(w, l, c, order[0]), c, order[1..], subject);
    }
  }

  /** Ascending from a leaf changes neither its state nor its publications. */
  lemma AscendKeepsLeaf(w: World, l: Ledger, c: Catalog, subject: string)
    requires c.Exact() && ValidStates(l.states)
    requires subject in c.byOutput ==> !c.IsSummary(c.byOutput[subject])
    ensures var after := Ascend(w, l, c, subject);
      && ValidStates(after.states)
      && Find(after.states, subject) == Find(l.states, subject)
      && Published(after.log, subject) == Published(l.log, subject)
  {
    VisitOrderIsTheAncestors(c, subject);
    var order := VisitOrder(c, subject);
    forall s | s in order ensures c.IsSummary(s) && c.Output(s) != subject {
      assert Above(c, subject, s);
    }
    EvaluatorEvaluates(w, c);
    WalkFrame(Evaluator(w, c), l, c, order, subject);
    WalkPublishesOutputs(w, l, c, order, subject);
  }

  /**
   For an owned leaf alert, with publishing succeeding, a message has exactly the effect of the
   delivery loop: the same canonical state and the same publication.
   */
  lemma LeafMessageIsDelivery(w: World, l: Ledger, c: Catalog, subject: string, message: Wire)
    requires c.Exact() && ValidStates(l.states) && (forall n :: w.publishes(n))
    requires subject in c.byOutput && !c.IsSummary(c.byOutput[subject]) && subject in l.states
    ensures var r := Deliver(l.states[subject], message, w.draws(l.tick).now);
      var after := Reconcile(w, l, c, subject, message);
      && Find(after.states, subject) == Some(r.canonical)
      && Published(after.log, subject) == Published(l.log, subject) + if r.published.Some? then [r.published.value] else []
  {
    var canonical := l.states[subject];
    RepublishedOnce(w, l, subject);
    if message.Decoded? && message.state != canonical
       && message.state.acknowledged && canonical.pending && message.state.episodeId == canonical.episodeId {
      AcknowledgedLeaf(w, l, c, subject);
    }
  }

  lemma RepublishedOnce(w: World, l: Ledger, subject: string)
    requires ValidStates(l.states) && subject in l.states && forall n :: w.publishes(n)
    ensures var after := Republish(w, l, subject);
      after.states == l.states && Published(after.log, subject) == Published(l.log, subject) + [l.states[subject]]
  {
    PublishedAppends(l.log, Attempt(subject, l.states[subject], true), subject);
  }

  /** Acknowledging a pending leaf stores and publishes the acknowledged state, or refuses. */
  lemma AcknowledgedLeaf(w: World, l: Ledger, c: Catalog, subject: string)
    requires c.Exact() && ValidStates(l.states) && (forall n :: w.publishes(n))
    requires subject in c.byOutput && !c.IsSummary(c.byOutput[subject]) && subject in l.states && l.states[subject].pending
    ensures var canonical, after := l.states[subject], Acknowledged(w, l, c, subject);
      match Acknowledge(canonical, canonical.episodeId, w.draws(l.tick).now)
      case Ok(next) =>
        Find(after.states, subject) == Some(next) && Published(after.log, subject) == Published(l.log, subject) + [next]
      case Err(_) =>
        Find(after.states, subject) == Some(canonical) && Published(after.log, subject) == Published(l.log, subject)
  {
    var l1 := AcknowledgeOne(w, l, subject);
    AcknowledgedOnce(w, l, subject);
    AcknowledgeOneOutcome(w, l, subject);
    AscendKeepsLeaf(w, l1, c, subject);
  }

  lemma AcknowledgedOnce(w: World, l: Ledger, subject: string)
    requires ValidStates(l.states) && (forall n :: w.publishes(n)) && subject in l.states && l.states[subject].pending
    ensures var canonical, after := l.states[subject], AcknowledgeOne(w, l, subject);
      match Acknowledge(canonical, canonical.episodeId, w.draws(l.tick).now)
      case Ok(next) =>
        Find(after.states, subject) == Some(next) && Published(after.log, subject) == Published(l.log, subject) + [next]
      case Err(_) => after.states == l.states && after.log == l.log
  {
    var next := Acknowledge(l.states[subject], l.states[subject].episodeId, w.draws(l.tick).now);
    if next.Ok? {
      PublishedAppends(l.log, Attempt(subject, next.value, true), subject);
    }
  }

  /** Ascending from a summary leaves its own state and its members' states alone. */
  lemma AscendLeavesSummary(w: World, l: Ledger, c: Catalog, subject: string)
    requires c.Sound() && ValidStates(l.states) && c.IsSummary(subject)
    ensures var after := Ascend(w, l, c, c.Output(subject)).states;
      && ValidStates(after) && Find(after, c.Output(subject)) == Find(l.states, c.Output(subject))
      && (forall m <- c.Members(subject) :: Find(after, m) == Find(l.states, m))
      && (Settled(c, after, subject) <==> Settled(c, l.states, subject))
  {
    var output := c.Output(subject);
    var order := VisitOrder(c, output);
    VisitOrderIsTheAncestors(c, output);
    c.GraphEdges(subject);
    NothingIsAboveItself(c, subject);
    forall s | s in order ensures c.IsSummary(s) && c.Output(s) != output && c.Output(s) !in c.Members(subject) {
      assert Above(c, output, s) && s != subject;
      c.OutputsDiffer(s, subject);
      AboveReaches(c, output, s);
    }
    EvaluatorEvaluates(w, c);
    var step := Evaluator(w, c);
    WalkFrame(step, l, c, order, output);
    forall m | m in c.Members(subject) ensures Find(Walk(step, l, order).states, m) == Find(l.states, m) {
      WalkFrame(step, l, c, order, m);
    }
    SettledFrame(c, l.states, Walk(step, l, order).states, subject);
  }

  /** Where dependents follow, ascending settles again what one output's change unsettled. */
  lemma AscendSettles(w: World, before: map<string, State>, l: Ledger, c: Catalog, output: string)
    requires c.Exact() && ValidStates(l.states) && SettledApartFrom(c, before, output)
    requires forall n | n != output :: Find(l.states, n) == Find(before, n)
    requires DependentsFollow(c, VisitOrder(c, output))
    ensures SettledApartFrom(c, Ascend(w, l, c, output).states, output)
  {
    var order := VisitOrder(c, output);
    EvaluatorEvaluates(w, c);
    VisitOrderIsTheAncestors(c, output);
    assert forall s <- order :: Above(c, output, s);
    Dependencies.ReachesItself(c.Graph(), output);
    forall s | s in c.definitions && c.IsSummary(s) && c.Output(s) != output && s !in order ensures Settled(c, l.states, s) {
      assert !Above(c, output, s);
      SettledFrame(c, before, l.states, s);
    }
    WalkSettles(Evaluator(w, c), l, c, output, order);
  }

  /** A leaf definition's state agrees with its latest evaluation. */
  predicate LeafAgrees(c: Catalog, states: map<string, State>, subject: string)
    requires subject in c.definitions
  {
    var e := EvaluationOf(c.definitions[subject], c.properties, states);
    e.Some? ==> c.Output(subject) in states && Agrees(states[c.Output(subject)], e.value)
  }

  predicate IsLeaf(c: Catalog, subject: string) {
    subject in c.definitions && !c.definitions[subject].config.kind.SummaryKind?
  }

  /** A leaf's evaluation does not depend on other states. */
  lemma LeafAgreesFrame(c: Catalog, a: map<string, State>, b: map<string, State>, subject: string)
    requires IsLeaf(c, subject) && Find(a, c.Output(subject)) == Find(b, c.Output(subject))
    ensures LeafAgrees(c, a, subject) <==> LeafAgrees(c, b, subject)
  {
  }

  /** Walks over summaries leave all leaves alone. */
  lemma WalkKeepsLeaves(w: World, l: Ledger, c: Catalog, order: seq<string>)
    requires c.Exact() && ValidStates(l.states) && Summaries(c, order)
    ensures ValidStates(Walk(Evaluator(w, c), l, order).states)
    ensures forall s | IsLeaf(c, s) :: Find(Walk(Evaluator(w, c), l, order).states, c.Output(s)) == Find(l.states, c.Output(s))
  {
    EvaluatorEvaluates(w, c);
    WalkStaysValid(Evaluator(w, c), l, c, order);
    forall s | IsLeaf(c, s) ensures Find(Walk(Evaluator(w, c), l, order).states, c.Output(s)) == Find(l.states, c.Output(s)) {
      WalkKeepsLeaf(Evaluator(w, c), l, c, order, s);
    }
  }

  lemma WalkKeepsLeaf(step: Step, l: Ledger, c: Catalog, order: seq<string>, leaf: string)
    requires c.Exact() && Evaluates(c, step) && ValidStates(l.states) && Summaries(c, order) && IsLeaf(c, leaf)
    ensures Find(Walk(step, l, order).states, c.Output(leaf)) == Find(l.states, c.Output(leaf))
  {
    forall t | t in order ensures c.IsSummary(t) && c.Output(t) != c.Output(leaf) {
      c.OutputsDiffer(leaf, t);
    }
    WalkFrame(step, l, c, order, c.Output(leaf));
  }

  /** Evaluating a leaf and then everything above it: the leaf agrees, other leaves are untouched. */
  lemma LeafEvaluation(w: World, l: Ledger, c: Catalog, subject: string, order: seq<string>)
    requires c.Exact() && ValidStates(l.states) && IsLeaf(c, subject) && Summaries(c, order)
    ensures var after := Walk(Evaluator(w, c), Evaluate(w, l, c, subject), order).states;
      && ValidStates(after) && LeafAgrees(c, after, subject)
      && forall s | IsLeaf(c, s) && s != subject :: Find(after, c.Output(s)) == Find(l.states, c.Output(s))
  {
    var l1 := Evaluate(w, l, c, subject);
    EvaluateChangesOutput(w, l, c, subject);
    EvaluatedLeafAgrees(w, l, c, subject);
    WalkKeepsLeaves(w, l1, c, order);
    LeafAgreesFrame(c, l1.states, Walk(Evaluator(w, c), l1, order).states, subject);
    forall s | IsLeaf(c, s) && s != subject ensures Find(l1.states, c.Output(s)) == Find(l.states, c.Output(s)) {
      c.OutputsDiffer(s, subject);
    }
  }

  lemma EvaluatedLeafAgrees(w: World, l: Ledger, c: Catalog, subject: string)
    requires ValidStates(l.states) && IsLeaf(c, subject)
    ensures LeafAgrees(c, Evaluate(w, l, c, subject).states, subject)
  {
    var d := c.definitions[subject];
    EvaluationIsWellFormed(d, c.properties, l.states);
    var e := EvaluationOf(d, c.properties, l.states);
    if e.Some? {
      ApplyChangesOutput(w, l, d.output, e.value);
    }
  }

  lemma AscendStaysValid(w: World, l: Ledger, c: Catalog, output: string)
    requires c.Exact() && ValidStates(l.states)
    ensures ValidStates(Ascend(w, l, c, output).states)
  {
    EvaluatorEvaluates(w, c);
    VisitOrderIsTheAncestors(c, output);
    forall s | s in VisitOrder(c, output) ensures c.IsSummary(s) {
      assert Above(c, output, s);
    }
    WalkStaysValid(Evaluator(w, c), l, c, VisitOrder(c, output));
  }

  lemma AcknowledgementStaysValid(w: World, l: Ledger, c: Catalog, subject: string)
    requires c.Sound() && ValidStates(l.states)
    ensures ValidStates(AcknowledgeOne(w, l, subject).states)
    ensures ValidStates(AcknowledgeTree(w, l, c.Graph(), subject, {}).states)
  {
    var tree := TreeIsAcknowledgedOnce(w, l, c.Graph(), subject);
    AcknowledgeOneOutcome(w, l, subject);
  }

  /** One message keeps every state valid. */
  lemma ReconcileKeepsValid(w: World, l: Ledger, c: Catalog, subject: string, message: Wire)
    requires c.Sound() && ValidStates(l.states)
    ensures ValidStates(Reconcile(w, l, c, subject, message).states)
  {
    if message.Decoded? {
      if subject !in c.byOutput || subject !in l.states {
        if ValidState(message.state) {
          AscendStaysValid(w, l.(states := l.states[subject := message.state]), c, subject);
        }
      } else {
        AcknowledgementStaysValid(w, l, c, subject);
        AscendStaysValid(w, AcknowledgeTree(w, l, c.Graph(), subject, {}), c, subject);
        AscendStaysValid(w, AcknowledgeOne(w, l, subject), c, subject);
      }
    }
  }
}
