/**
 Every leaf alert agrees with its latest input and properties at every point of every run, whatever
 messages, configurations, inputs and properties arrive (alert/service.go).
 */
module AlertAgreement {
  import opened Wrappers
  import opened AlertModel
  import opened AlertEvaluator
  import opened AlertLedger
  import opened AlertAncestors
  import opened AlertAcknowledgement
  import opened AlertDelivery
  import opened AlertReconcile
  import opened AlertInputs
  import opened AlertCatalogUpdates
  import opened AlertProperties
  import opened AlertReconfiguration
  import opened AlertReturns
  import opened AlertPublications
  import opened AlertSummaries
  import AlertIntervals

  ghost predicate LeavesAgree(c: Catalog, states: map<string, State>) {
    forall s <- c.definitions | IsLeaf(c, s) :: LeafAgrees(c, states, s)
  }

  /** An agreeing leaf without a state has no usable input, so it agrees with any state. */
  lemma UnknownLeafAgrees(c: Catalog, a: map<string, State>, b: map<string, State>, s: string)
    requires IsLeaf(c, s) && LeafAgrees(c, a, s) && c.Output(s) !in a
    ensures LeafAgrees(c, b, s)
  {
    LeafResultIsEvaluation(c, s, a);
    LeafResultIsEvaluation(c, s, b);
  }

  /** Leaves whose states are kept keep agreeing. */
  lemma KeptLeavesAgree(c: Catalog, a: map<string, State>, b: map<string, State>)
    requires LeavesAgree(c, a)
    requires forall s <- c.definitions | IsLeaf(c, s) && c.Output(s) in a :: Find(b, c.Output(s)) == Find(a, c.Output(s))
    ensures LeavesAgree(c, b)
  {
    forall s | s in c.definitions && IsLeaf(c, s) ensures LeafAgrees(c, b, s) {
      if c.Output(s) in a {
        LeafAgreesFrame(c, a, b, s);
      } else {
        UnknownLeafAgrees(c, a, b, s);
      }
    }
  }

  lemma WalkKeepsAgreement(w: World, l: Ledger, c: Catalog, order: seq<string>)
    requires c.Exact() && ValidStates(l.states) && Summaries(c, order) && LeavesAgree(c, l.states)
    ensures LeavesAgree(c, Walk(Evaluator(w, c), l, order).states)
  {
    WalkKeepsLeaves(w, l, c, order);
    KeptLeavesAgree(c, l.states, Walk(Evaluator(w, c), l, order).states);
  }

  lemma AscendKeepsAgreement(w: World, l: Ledger, c: Catalog, output: string)
    requires c.Exact() && ValidStates(l.states) && LeavesAgree(c, l.states)
    ensures LeavesAgree(c, Ascend(w, l, c, output).states)
  {
    VisitsAreSummaries(c, output, {});
    WalkKeepsAgreement(w, l, c, VisitOrder(c, output));
  }

  // ---------------------------------------------------------------- messages

  lemma AcknowledgedStateAgrees(t: State, u: State, e: Evaluation)
    requires Agrees(t, e) && IsAcknowledgement(t, u) && WellFormed(e) && !e.pending
    ensures Agrees(u, e)
  {
  }

  /** Acknowledging any states leaves every leaf in agreement. */
  lemma AcknowledgementKeepsAgreement(c: Catalog, before: map<string, State>, after: map<string, State>, done: set<string>)
    requires LeavesAgree(c, before) && AcknowledgedIn(before, after, done)
    ensures LeavesAgree(c, after)
  {
    forall s | s in c.definitions && IsLeaf(c, s) ensures LeafAgrees(c, after, s) {
      LeafResultIsEvaluation(c, s, before);
      LeafResultIsEvaluation(c, s, after);
      if LeafResult(c, s).Some? {
        LeafResultIsNotPending(c, s);
        var output := c.Output(s);
        if after[output] != before[output] {
          AcknowledgedStateAgrees(before[output], after[output], LeafResult(c, s).value);
        }
      }
    }
  }

  lemma RequestKeepsAgreement(w: World, l: Ledger, c: Catalog, subject: string)
    requires c.Sound() && ValidStates(l.states) && subject in c.byOutput && LeavesAgree(c, l.states)
    ensures LeavesAgree(c, Acknowledged(w, l, c, subject).states)
  {
    AcknowledgementStaysValid(w, l, c, subject);
    if c.IsSummary(c.byOutput[subject]) {
      var l1 := AcknowledgeTree(w, l, c.Graph(), subject, {});
      var tree := TreeIsAcknowledgedOnce(w, l, c.Graph(), subject);
      AcknowledgementKeepsAgreement(c, l.states, l1.states, tree);
      AscendKeepsAgreement(w, l1, c, subject);
    } else {
      var l1 := AcknowledgeOne(w, l, subject);
      AcknowledgeOneOutcome(w, l, subject);
      AcknowledgementKeepsAgreement(c, l.states, l1.states, {subject});
      AscendKeepsAgreement(w, l1, c, subject);
    }
  }

  lemma AdoptionKeepsAgreement(w: World, l: Ledger, c: Catalog, subject: string, incoming: State)
    requires c.Exact() && ValidStates(l.states) && LeavesAgree(c, l.states) && ValidState(incoming)
    requires subject !in c.byOutput || subject !in l.states
    ensures LeavesAgree(c, Observed(w, l, c, subject, incoming).states)
  {
    var adopted := l.(states := l.states[subject := incoming]);
    KeptLeavesAgree(c, l.states, adopted.states);
    AscendKeepsAgreement(w, adopted, c, subject);
  }

  lemma MessageKeepsAgreement(w: World, l: Ledger, c: Catalog, subject: string, message: Wire)
    requires c.Sound() && ValidStates(l.states)
    ensures LeavesAgree(c, l.states) ==> LeavesAgree(c, Reconcile(w, l, c, subject, message).states)
  {
    if LeavesAgree(c, l.states) {
      if Adopts(c, l.states, subject, message) {
        AdoptionKeepsAgreement(w, l, c, subject, message.state);
      } else if Requests(c, l.states, subject, message) && message != Decoded(l.states[subject]) {
        RequestKeepsAgreement(w, l, c, subject);
      }
    }
  }

  // ---------------------------------------------------------------- configurations

  lemma OtherDefinitionsAgree(before: Catalog, c: Catalog, states: map<string, State>, subject: string)
    requires LeavesAgree(before, states) && c.properties == before.properties
    requires SameApartFrom(before.definitions, c.definitions, subject)
    ensures forall s | IsLeaf(c, s) && s != subject :: LeafAgrees(c, states, s)
  {
    forall s | IsLeaf(c, s) && s != subject ensures LeafAgrees(c, states, s) {
      assert IsLeaf(before, s) && LeafAgrees(before, states, s);
    }
  }

  /** A leaf other than the subject keeps its state through the subject's evaluation and the pass above it. */
  lemma EvaluatedKeepsLeaf(w: World, l: Ledger, c: Catalog, subject: string, s: string)
    requires c.Exact() && ValidStates(l.states) && subject in c.definitions && IsLeaf(c, s) && s != subject
    ensures Find(Evaluated(w, l, c, subject).states, c.Output(s)) == Find(l.states, c.Output(s))
  {
    EvaluateChangesOutput(w, l, c, subject);
    c.OutputsDiffer(s, subject);
    VisitsAreSummaries(c, c.Output(subject), {});
    WalkKeepsLeaves(w, Evaluate(w, l, c, subject), c, VisitOrder(c, c.Output(subject)));
  }

  lemma EvaluatedLeafIsCurrent(w: World, l: Ledger, c: Catalog, subject: string)
    requires c.Exact() && ValidStates(l.states) && IsLeaf(c, subject)
    ensures LeafAgrees(c, Evaluated(w, l, c, subject).states, subject)
  {
    VisitsAreSummaries(c, c.Output(subject), {});
    LeafEvaluation(w, l, c, subject, VisitOrder(c, c.Output(subject)));
  }

  lemma DeactivatedKeepsLeaf(w: World, l: Ledger, c: Catalog, output: string, s: string)
    requires c.Exact() && ValidStates(l.states) && IsLeaf(c, s) && c.Output(s) != output
    ensures Find(Deactivated(w, l, c, output).states, c.Output(s)) == Find(l.states, c.Output(s))
  {
    InactiveIsWellFormed();
    ApplyChangesOutput(w, l, output, INACTIVE);
    VisitsAreSummaries(c, output, {});
    WalkKeepsLeaves(w, Apply(w, l, output, INACTIVE), c, VisitOrder(c, output));
  }

  lemma OtherLeafStays(w: World, l: Ledger, c: Catalog, subject: string, surroundings: Surroundings, s: string)
    requires c.WellConfigured() && ValidStates(l.states) && IsLeaf(c, s) && s != subject && LeafAgrees(c, l.states, s)
    ensures LeafAgrees(c, Reconfigured(w, l, c, subject, surroundings).states, s)
  {
    var after := Reconfigured(w, l, c, subject, surroundings).states;
    if c.IsSummary(subject) {
      var caught := l.(states := CaughtUp(l.states, c.Members(subject), surroundings.retained));
      CaughtUpIsValid(l.states, c.Members(subject), surroundings.retained);
      EvaluatedKeepsLeaf(w, caught, c, subject, s);
      if c.Output(s) in l.states {
        LeafAgreesFrame(c, l.states, after, s);
      } else {
        UnknownLeafAgrees(c, l.states, after, s);
      }
    } else {
      if subject in c.definitions {
        EvaluatedKeepsLeaf(w, l, c, subject, s);
      } else if OutputSubject(subject).Some? {
        OutputsFollowSubjects(c);
        OutputIsFree(c, subject);
        DeactivatedKeepsLeaf(w, l, c, OutputSubject(subject).value, s);
      }
      LeafAgreesFrame(c, l.states, after, s);
    }
  }

  /** After a configuration message every leaf agrees, the new one with the current value if there is one. */
  lemma ConfigurationKeepsAgreement(w: World, l: Ledger, before: Catalog, c: Catalog, subject: string, surroundings: Surroundings)
    requires c.WellConfigured() && ValidStates(l.states) && c.properties == before.properties
    requires SameApartFrom(before.definitions, c.definitions, subject)
    requires IsLeaf(c, subject) && surroundings.current.None? ==> c.definitions[subject].input == NoInput
    ensures LeavesAgree(before, l.states) ==> LeavesAgree(c, Reconfigured(w, l, c, subject, surroundings).states)
  {
    if LeavesAgree(before, l.states) {
      OtherDefinitionsAgree(before, c, l.states, subject);
      forall s | s in c.definitions && IsLeaf(c, s) ensures LeafAgrees(c, Reconfigured(w, l, c, subject, surroundings).states, s) {
        if s != subject {
          OtherLeafStays(w, l, c, subject, surroundings, s);
        } else if surroundings.current.Some? {
          EvaluatedLeafIsCurrent(w, l, c, subject);
        } else {
          SilentLeafAgrees(c, Reconfigured(w, l, c, subject, surroundings).states, subject);
        }
      }
    }
  }

  lemma SilentLeafAgrees(c: Catalog, states: map<string, State>, subject: string)
    requires c.Documented() && IsLeaf(c, subject) && c.definitions[subject].input == NoInput
    ensures LeafAgrees(c, states, subject)
  {
    assert c.ValidDefinition(subject);
  }

  // ---------------------------------------------------------------- inputs and properties

  lemma InputKeepsAgreement(w: World, l: Ledger, c: Catalog, subject: string, value: Input)
    requires c.WellConfigured() && ValidStates(l.states) && IsLeaf(c, subject)
    ensures var d := WithInput(c, subject, value);
      LeavesAgree(c, l.states) ==> LeavesAgree(d, Evaluated(w, l, d, subject).states)
  {
    var d := WithInput(c, subject, value);
    InputKeepsWellConfigured(c, d, subject, value);
    if LeavesAgree(c, l.states) {
      OtherDefinitionsAgree(c, d, l.states, subject);
      forall s | s in d.definitions && IsLeaf(d, s) ensures LeafAgrees(d, Evaluated(w, l, d, subject).states, s) {
        if s == subject {
          EvaluatedLeafIsCurrent(w, l, d, subject);
        } else {
          EvaluatedKeepsLeaf(w, l, d, subject, s);
          LeafAgreesFrame(d, l.states, Evaluated(w, l, d, subject).states, s);
        }
      }
    }
  }

  /** A leaf that is not affected by a property evaluates to the same without it. */
  lemma UnaffectedEvaluation(d: Definition, a: map<string, Properties>, b: map<string, Properties>, property: string)
    requires ValidConfig(d.config) && !d.config.kind.SummaryKind? && !Affected(d, property) && SameProperties(a, b, property)
    ensures EvaluationOf(d, a, map[]) == EvaluationOf(d, b, map[])
  {
    if d.config.kind.ValueKind? && d.input != NoInput {
      UnaffectedValue(d.config.value.value, d.input, a, b, property);
    } else if d.input.BoolInput? && d.config.binary.Some? {
      var mapping := if d.input.b then d.config.binary.value.onTrue else d.config.binary.value.onFalse;
      assert Find(a, mapping.property) == Find(b, mapping.property);
    }
  }

  lemma UnaffectedValue(config: ValueConfig, input: Input, a: map<string, Properties>, b: map<string, Properties>, property: string)
    requires ValidValue(config) && (forall interval <- config.intervals :: interval.property != property) && SameProperties(a, b, property)
    ensures AlertIntervals.InputEvaluation(config, input, a) == AlertIntervals.InputEvaluation(config, input, b)
  {
    forall interval | interval in config.intervals ensures Find(a, interval.property) == Find(b, interval.property) {
    }
    if AlertIntervals.NumberIn(config.valueType, input).Some? {
      var k := AlertIntervals.BoundariesPassed(config, AlertIntervals.NumberIn(config.valueType, input).value, |config.intervals|);
      assert config.intervals[k] in config.intervals;
    }
  }

  lemma UnaffectedLeafAgrees(before: Catalog, c: Catalog, states: map<string, State>, property: string, s: string)
    requires c.Documented() && IsLeaf(c, s) && !Affected(c.definitions[s], property)
    requires c == before.(properties := c.properties) && SameProperties(before.properties, c.properties, property)
    ensures LeafAgrees(c, states, s) <==> LeafAgrees(before, states, s)
  {
    assert c.ValidDefinition(s);
    UnaffectedEvaluation(c.definitions[s], before.properties, c.properties, property);
    LeafResultIsEvaluation(c, s, states);
    LeafResultIsEvaluation(before, s, states);
  }

  /** Evaluating the leaves that refer to a property brings every leaf of the service up to date. */
  lemma PropertiesKeepAgreement(w: World, l: Ledger, before: Catalog, c: Catalog, property: string, leaves: seq<string>)
    requires c.Documented() && ValidStates(l.states) && Lists(c, property, leaves) && Leaves(c, leaves)
    requires c == before.(properties := c.properties) && SameProperties(before.properties, c.properties, property)
    ensures LeavesAgree(before, l.states) ==> LeavesAgree(c, PassAfter(w, l, c, leaves).ledger.states)
  {
    PassRefreshes(w, l, c, leaves);
    if LeavesAgree(before, l.states) {
      var after := PassAfter(w, l, c, leaves).ledger.states;
      forall s | s in c.definitions && IsLeaf(c, s) ensures LeafAgrees(c, after, s) {
        if s !in leaves {
          assert IsLeaf(before, s) && LeafAgrees(before, l.states, s);
          UnaffectedLeafAgrees(before, c, l.states, property, s);
          LeafAgreesFrame(c, l.states, after, s);
        }
      }
    }
  }

  /** Everything a property message brings about. */
  lemma PropertiesTakeEffect(w: World, l: Ledger, before: Catalog, c: Catalog, property: string, leaves: seq<string>)
    requires before.WellConfigured() && c.WellConfigured() && ValidStates(l.states)
    requires Lists(c, property, leaves) && Leaves(c, leaves)
    requires c == before.(properties := c.properties) && SameProperties(before.properties, c.properties, property)
    ensures var after := PassAfter(w, l, c, leaves).ledger;
      && ValidStates(after.states) && Refreshed(c, l.states, after.states, leaves) && Tells(l, after, {})
      && (Unshared(c, property) && AllSettled(before, l.states) ==> AllSettled(c, after.states))
      && (Returning(before, l.states) ==> Returning(c, after.states))
      && (LeavesAgree(before, l.states) ==> LeavesAgree(c, after.states))
  {
    PassRefreshes(w, l, c, leaves);
    UnsharedPassKeepsSettled(w, l, before, c, property, leaves);
    PropertiesKeepReturning(w, l, before, c, leaves);
    PassTells(w, l, c, leaves);
    PropertiesKeepAgreement(w, l, before, c, property, leaves);
  }

  // ---------------------------------------------------------------- runs

  lemma EventKeepsAgreement(w: World, p: Point, e: Event, q: Point)
    requires Happens(w, p, e, q) && LeavesAgree(p.catalog, p.ledger.states)
    ensures LeavesAgree(q.catalog, q.ledger.states)
  {
    match e {
      case Delivered(subject, message) => MessageKeepsAgreement(w, p.ledger, p.catalog, subject, message);
      case Configured(subject, surroundings) =>
        ConfigurationKeepsAgreement(w, p.ledger, p.catalog, q.catalog, subject, surroundings);
      case Entered(subject, value) => InputKeepsAgreement(w, p.ledger, p.catalog, subject, value);
      case Announced(property, leaves) => PropertiesKeepAgreement(w, p.ledger, p.catalog, q.catalog, property, leaves);
      case Initialized(order) => WalkKeepsAgreement(w, p.ledger, q.catalog, order);
    }
  }

  ghost predicate AgreeingAt(run: seq<Point>, i: nat)
    requires i < |run|
  {
    LeavesAgree(run[i].catalog, run[i].ledger.states)
  }

  lemma NextAgreeing(w: World, run: seq<Point>, events: seq<Event>, i: nat)
    requires IsRun(w, run, events) && i < |events| && AgreeingAt(run, i)
    ensures AgreeingAt(run, i + 1)
  {
    EventKeepsAgreement(w, run[i], events[i], run[i + 1]);
  }

  /** Over every run from an empty configuration every leaf agrees with its latest input and properties at every point. */
  lemma {:induction false} LeavesAgreeInEveryRun(w: World, run: seq<Point>, events: seq<Event>, i: nat)
    requires IsRun(w, run, events) && i < |run| && run[0].catalog.definitions == map[]
    ensures AgreeingAt(run, i)
  {
    if i > 0 {
      LeavesAgreeInEveryRun(w, run, events, i - 1);
      NextAgreeing(w, run, events, i - 1);
    }
  }
}
