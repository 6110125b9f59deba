/**
 What the service says on the bus (alert/service.go storeAndPublishLocked, republishCanonicalLocked):
 every state it stores itself it also publishes, and a subject is dirty exactly while its last
 publication failed.
 */
module AlertPublications {
  import opened Wrappers
  import opened AlertModel
  import opened AlertEvaluator
  import opened AlertLedger
  import opened AlertAcknowledgement
  import opened AlertAncestors
  import opened AlertDelivery
  import opened AlertReconcile
  import opened AlertProperties
  import opened AlertReconfiguration
  import opened AlertReturns
  import Dependencies
  import AlertLifecycle

  // ---------------------------------------------------------------- one evaluation

  /** One attempt to publish the state now stored, dirty exactly if it failed; nothing else is touched. */
  predicate Announces(w: World, before: Ledger, after: Ledger, output: string) {
    && output in after.states && after.states == before.states[output := after.states[output]]
    && after.log == before.log + [Attempt(output, after.states[output], w.publishes(|before.log|))]
    && after.dirty == if w.publishes(|before.log|) then before.dirty - {output} else before.dirty + {output}
  }

  /** Storing a valid state announces it exactly when it is new or the last publication failed. */
  lemma StoringAnnounces(w: World, l: Ledger, output: string, state: State)
    requires ValidState(state)
    ensures var after := StoreAndPublish(w, l, output, state);
      && Find(after.states, output) == Some(state) && after.tick == l.tick
      && if Find(l.states, output) != Some(state) || output in l.dirty then Announces(w, l, after, output) else after == l
  {
  }

  /** One lawful step of the output's lifecycle, announced exactly when that is due. */
  predicate Applied(w: World, l: Ledger, after: Ledger, output: string, e: Evaluation) {
    var drawn, draw, before := l.(tick := l.tick + 1), w.draws(l.tick), Find(l.states, output);
    && output in after.states
    && AlertLifecycle.Lawful(before, AlertLifecycle.Evaluated(e, draw.now, draw.episodeId), Some(after.states[output]))
    && if before != Some(after.states[output]) || output in l.dirty then Announces(w, drawn, after, output) else after == drawn
  }

  /**
   An evaluation takes one lawful step of the output's lifecycle and announces the result exactly when
   it is a new state or the last publication failed; otherwise nothing is published.
   */
  lemma EvaluationIsAnnounced(w: World, l: Ledger, output: string, e: Evaluation)
    requires ValidStates(l.states) && WellFormed(e)
    ensures Applied(w, l, Apply(w, l, output, e), output, e)
  {
    var drawn, draw, before := l.(tick := l.tick + 1), w.draws(l.tick), Find(l.states, output);
    var next := ApplyEvaluation(before, e, draw.now, draw.episodeId);
    ApplyNeverFails(before, e, draw.now, draw.episodeId);
    AlertLifecycle.StepIsLawful(before, AlertLifecycle.Evaluated(e, draw.now, draw.episodeId));
    assert AlertLifecycle.Step(before, AlertLifecycle.Evaluated(e, draw.now, draw.episodeId)) == Some(next.value);
    StoringAnnounces(w, drawn, output, next.value);
  }

  // ---------------------------------------------------------------- any operation

  /** The last attempt to publish on a subject. */
  function LastAttempt(log: seq<Attempt>, n: string): Option<Attempt> {
    if log == [] then None
    else if log[|log| - 1].subject == n then Some(log[|log| - 1])
    else LastAttempt(log[..|log| - 1], n)
  }

  lemma {:induction false} LastAttemptOf(a: seq<Attempt>, b: seq<Attempt>, n: string)
    ensures LastAttempt(a + b, n) == if LastAttempt(b, n).Some? then LastAttempt(b, n) else LastAttempt(a, n)
  {
    if b == [] {
      assert a + b == a;
    } else {
      assert (a + b)[..|a + b| - 1] == a + b[..|b| - 1];
      LastAttemptOf(a, b[..|b| - 1], n);
    }
  }

  function News(before: Ledger, after: Ledger): seq<Attempt> {
    if |before.log| <= |after.log| then after.log[|before.log|..] else []
  }

  /** A subject spoken of has the state last spoken of, and is dirty exactly if that failed. */
  predicate Told(before: Ledger, after: Ledger, n: string, adopted: set<string>) {
    match LastAttempt(News(before, after), n)
    case Some(a) => (n !in adopted ==> Find(after.states, n) == Some(a.state)) && (n in after.dirty <==> !a.ok)
    case None => (n !in adopted ==> Find(after.states, n) == Find(before.states, n)) && (n in after.dirty <==> n in before.dirty)
  }

  /** All the service did to the states and the dirty set it also said, but for the states adopted from outside. */
  ghost predicate Tells(before: Ledger, after: Ledger, adopted: set<string>) {
    before.log <= after.log && forall n :: Told(before, after, n, adopted)
  }

  lemma NothingTold(l: Ledger, adopted: set<string>)
    ensures Tells(l, l, adopted)
  {
    forall n ensures Told(l, l, n, adopted) {
      assert News(l, l) == [];
    }
  }

  lemma ToldTwice(a: Ledger, b: Ledger, c: Ledger, first: set<string>, second: set<string>)
    requires Tells(a, b, first) && Tells(b, c, second)
    ensures Tells(a, c, first + second)
  {
    assert News(a, c) == News(a, b) + News(b, c);
    forall n ensures Told(a, c, n, first + second) {
      LastAttemptOf(News(a, b), News(b, c), n);
      assert Told(a, b, n, first) && Told(b, c, n, second);
    }
  }

  /** What follows without another adoption. */
  lemma ToldOn(a: Ledger, b: Ledger, c: Ledger, adopted: set<string>)
    requires Tells(a, b, adopted) && Tells(b, c, {})
    ensures Tells(a, c, adopted)
  {
    ToldTwice(a, b, c, adopted, {});
    assert adopted + {} == adopted;
  }

  lemma PublishTells(w: World, l: Ledger, subject: string, state: State)
    ensures Tells(l, Publish(w, l.(states := l.states[subject := state]), subject, state), {})
  {
    var after := Publish(w, l.(states := l.states[subject := state]), subject, state);
    forall n ensures Told(l, after, n, {}) {
      assert News(l, after) == [Attempt(subject, state, w.publishes(|l.log|))];
      assert LastAttempt([Attempt(subject, state, w.publishes(|l.log|))][..0], n) == None;
    }
  }

  lemma StoreAndPublishTells(w: World, l: Ledger, subject: string, state: State)
    ensures Tells(l, StoreAndPublish(w, l, subject, state), {})
  {
    NothingTold(l, {});
    PublishTells(w, l, subject, state);
  }

  lemma RepublishTells(w: World, l: Ledger, subject: string)
    ensures Tells(l, Republish(w, l, subject), {})
  {
    NothingTold(l, {});
    if subject in l.states {
      assert l.states[subject := l.states[subject]] == l.states;
      PublishTells(w, l, subject, l.states[subject]);
    }
  }

  /** Drawing from clock and id generator is not told. */
  lemma DrawnTells(l: Ledger, tick: nat, after: Ledger, adopted: set<string>)
    requires Tells(l.(tick := tick), after, adopted)
    ensures Tells(l, after, adopted)
  {
    forall n ensures Told(l, after, n, adopted) {
      assert Told(l.(tick := tick), after, n, adopted) && News(l.(tick := tick), after) == News(l, after);
    }
  }

  lemma ApplyTells(w: World, l: Ledger, output: string, e: Evaluation)
    ensures Tells(l, Apply(w, l, output, e), {})
  {
    var drawn, draw := l.(tick := l.tick + 1), w.draws(l.tick);
    NothingTold(drawn, {});
    match ApplyEvaluation(Find(l.states, output), e, draw.now, draw.episodeId) {
      case Err(_) =>
      case Ok(next) => StoreAndPublishTells(w, drawn, output, next);
    }
    DrawnTells(l, l.tick + 1, Apply(w, l, output, e), {});
  }

  lemma EvaluateTells(w: World, l: Ledger, c: Catalog, subject: string)
    ensures Tells(l, Evaluate(w, l, c, subject), {})
  {
    NothingTold(l, {});
    if subject in c.definitions {
      match EvaluationOf(c.definitions[subject], c.properties, l.states) {
        case None =>
        case Some(e) => ApplyTells(w, l, c.Output(subject), e);
      }
    }
  }

  lemma {:induction false} WalkTells(w: World, l: Ledger, c: Catalog, order: seq<string>)
    ensures Tells(l, Walk(Evaluator(w, c), l, order), {})
    decreases |order|
  {
    NothingTold(l, {});
    if order != [] {
      EvaluateTells(w, l, c, order[0]);
      WalkTells(w, Evaluate(w, l, c, order[0]), c, order[1..]);
      ToldOn(l, Evaluate(w, l, c, order[0]), Walk(Evaluator(w, c), l, order), {});
    }
  }

  lemma AscendTells(w: World, before: Ledger, l: Ledger, c: Catalog, output: string, adopted: set<string>)
    requires Tells(before, l, adopted)
    ensures Tells(before, Ascend(w, l, c, output), adopted)
  {
    WalkTells(w, l, c, VisitOrder(c, output));
    ToldOn(before, l, Ascend(w, l, c, output), adopted);
  }

  // ---------------------------------------------------------------- messages

  lemma AcknowledgeOneTells(w: World, l: Ledger, subject: string)
    ensures Tells(l, AcknowledgeOne(w, l, subject), {})
  {
    NothingTold(l, {});
    if subject in l.states && l.states[subject].pending {
      var drawn := l.(tick := l.tick + 1);
      NothingTold(drawn, {});
      match Acknowledge(l.states[subject], l.states[subject].episodeId, w.draws(l.tick).now) {
        case Err(_) =>
        case Ok(next) => StoreAndPublishTells(w, drawn, subject, next);
      }
      DrawnTells(l, l.tick + 1, AcknowledgeOne(w, l, subject), {});
    }
  }

  lemma {:induction false} AcknowledgeTreeTells(w: World, l: Ledger, g: Dependencies.Graph, subject: string, visiting: set<string>)
    ensures Tells(l, AcknowledgeTree(w, l, g, subject, visiting), {})
    decreases Dependencies.Nodes(g) + {subject} - visiting, 0
  {
    NothingTold(l, {});
    if subject !in visiting {
      assert subject in Dependencies.Nodes(g) + {subject} - visiting && subject !in Dependencies.Nodes(g) - (visiting + {subject});
      var members := Dependencies.Members(g, subject);
      var below := AcknowledgeMembers(w, l, g, members, visiting + {subject});
      AcknowledgeMembersTell(w, l, g, members, visiting + {subject});
      AcknowledgeOneTells(w, below, subject);
      ToldOn(l, below, AcknowledgeOne(w, below, subject), {});
    }
  }

  lemma {:induction false} AcknowledgeMembersTell(w: World, l: Ledger, g: Dependencies.Graph, members: seq<string>, visiting: set<string>)
    requires forall m <- members :: m in Dependencies.Nodes(g)
    ensures Tells(l, AcknowledgeMembers(w, l, g, members, visiting), {})
    decreases Dependencies.Nodes(g) - visiting, |members|
  {
    NothingTold(l, {});
    if members != [] {
      assert Dependencies.Nodes(g) + {members[0]} == Dependencies.Nodes(g);
      var first := if LiveIn(l.states, members[0]) then AcknowledgeTree(w, l, g, members[0], visiting) else l;
      AcknowledgeTreeTells(w, l, g, members[0], visiting);
      AcknowledgeMembersTell(w, first, g, members[1..], visiting);
      ToldOn(l, first, AcknowledgeMembers(w, first, g, members[1..], visiting), {});
    }
  }

  lemma AdoptedTells(l: Ledger, states: map<string, State>, adopted: set<string>)
    requires forall n | n !in adopted :: Find(states, n) == Find(l.states, n)
    ensures Tells(l, l.(states := states), adopted)
  {
    forall n ensures Told(l, l.(states := states), n, adopted) {
      assert News(l, l.(states := states)) == [];
    }
  }

  /** The subject whose state a message makes the service take over. */
  function AdoptedFrom(c: Catalog, states: map<string, State>, subject: string, message: Wire): set<string> {
    if Adopts(c, states, subject, message) then {subject} else {}
  }

  lemma ReconcileTells(w: World, l: Ledger, c: Catalog, subject: string, message: Wire)
    ensures Tells(l, Reconcile(w, l, c, subject, message), AdoptedFrom(c, l.states, subject, message))
  {
    NothingTold(l, {});
    RepublishTells(w, l, subject);
    if Adopts(c, l.states, subject, message) {
      var states := l.states[subject := message.state];
      AdoptedTells(l, states, {subject});
      AscendTells(w, l, l.(states := states), c, subject, {subject});
    } else if subject in c.byOutput {
      AcknowledgeOneTells(w, l, subject);
      AscendTells(w, l, AcknowledgeOne(w, l, subject), c, subject, {});
      AcknowledgeTreeTells(w, l, c.Graph(), subject, {});
      AscendTells(w, l, AcknowledgeTree(w, l, c.Graph(), subject, {}), c, subject, {});
    }
  }

  // ---------------------------------------------------------------- configurations, inputs, properties

  lemma EvaluatedTells(w: World, l: Ledger, c: Catalog, subject: string)
    requires subject in c.definitions
    ensures Tells(l, Evaluated(w, l, c, subject), {})
  {
    EvaluateTells(w, l, c, subject);
    AscendTells(w, l, Evaluate(w, l, c, subject), c, c.Output(subject), {});
  }

  lemma DeactivatedTells(w: World, l: Ledger, c: Catalog, output: string)
    ensures Tells(l, Deactivated(w, l, c, output), {})
  {
    ApplyTells(w, l, output, INACTIVE);
    AscendTells(w, l, Apply(w, l, output, INACTIVE), c, output, {});
  }

  /** The members whose retained state a configuration takes over. */
  function AdoptedBy(c: Catalog, states: map<string, State>, subject: string, surroundings: Surroundings): set<string> {
    if c.IsSummary(subject) then CaughtUp(states, c.Members(subject), surroundings.retained).Keys - states.Keys else {}
  }

  lemma {:induction false} CaughtUpKeeps(states: map<string, State>, members: seq<string>, retained: map<string, Wire>)
    ensures forall n <- states :: Find(CaughtUp(states, members, retained), n) == Find(states, n)
  {
    if members != [] {
      CaughtUpKeeps(states, members[..|members| - 1], retained);
    }
  }

  lemma ReconfiguredTells(w: World, l: Ledger, c: Catalog, subject: string, surroundings: Surroundings)
    ensures Tells(l, Reconfigured(w, l, c, subject, surroundings), AdoptedBy(c, l.states, subject, surroundings))
  {
    NothingTold(l, {});
    if c.IsSummary(subject) {
      var caught := l.(states := CaughtUp(l.states, c.Members(subject), surroundings.retained));
      var adopted := AdoptedBy(c, l.states, subject, surroundings);
      CaughtUpKeeps(l.states, c.Members(subject), surroundings.retained);
      AdoptedTells(l, caught.states, adopted);
      EvaluatedTells(w, caught, c, subject);
      ToldOn(l, caught, Evaluated(w, caught, c, subject), adopted);
    } else if subject in c.definitions {
      EvaluatedTells(w, l, c, subject);
    } else if OutputSubject(subject).Some? {
      DeactivatedTells(w, l, c, OutputSubject(subject).value);
    }
  }

  lemma NextTells(w: World, before: Ledger, c: Catalog, p: Pass, leaf: string)
    requires leaf in c.definitions && Tells(before, p.ledger, {})
    ensures Tells(before, Next(w, c, p, leaf).ledger, {})
  {
    var next, order := Evaluate(w, p.ledger, c, leaf), Visits(c, c.Parents(c.Output(leaf)), p.seen);
    EvaluateTells(w, p.ledger, c, leaf);
    ToldOn(before, p.ledger, next, {});
    WalkTells(w, next, c, order);
    ToldOn(before, next, Walk(Evaluator(w, c), next, order), {});
  }

  lemma {:induction false} PassTells(w: World, l: Ledger, c: Catalog, leaves: seq<string>)
    requires Leaves(c, leaves)
    ensures Tells(l, PassAfter(w, l, c, leaves).ledger, {})
  {
    if leaves == [] {
      NothingTold(l, {});
    } else {
      PassTells(w, l, c, leaves[..|leaves| - 1]);
      NextTells(w, l, c, PassAfter(w, l, c, leaves[..|leaves| - 1]), leaves[|leaves| - 1]);
    }
  }

  // ---------------------------------------------------------------- runs

  /** The subjects whose states an event takes over from outside. */
  function Adopted(p: Point, e: Event, q: Point): set<string> {
    match e
    case Delivered(subject, message) => AdoptedFrom(p.catalog, p.ledger.states, subject, message)
    case Configured(subject, surroundings) => AdoptedBy(q.catalog, p.ledger.states, subject, surroundings)
    case _ => {}
  }

  lemma EventTells(w: World, p: Point, e: Event, q: Point)
    requires Happens(w, p, e, q)
    ensures Tells(p.ledger, q.ledger, Adopted(p, e, q))
  {
    match e {
      case Delivered(subject, message) => ReconcileTells(w, p.ledger, p.catalog, subject, message);
      case Configured(subject, surroundings) => ReconfiguredTells(w, p.ledger, q.catalog, subject, surroundings);
      case Entered(subject, value) => EvaluatedTells(w, p.ledger, q.catalog, subject);
      case Announced(_, leaves) => PassTells(w, p.ledger, q.catalog, leaves);
      case Initialized(order) => WalkTells(w, p.ledger, q.catalog, order);
    }
  }

  /** Taken over from outside and not spoken of since. */
  predicate Foreign(run: seq<Point>, events: seq<Event>, i: nat, n: string)
    requires |run| == |events| + 1 && i < |run|
  {
    && i > 0
    && (n in Adopted(run[i - 1], events[i - 1], run[i])
        || (Foreign(run, events, i - 1, n) && LastAttempt(News(run[i - 1].ledger, run[i].ledger), n).None?))
  }

  /** What the log says of a subject is what the ledger holds, unless its state is foreign. */
  predicate Truthful(l: Ledger, n: string, foreign: bool) {
    match LastAttempt(l.log, n)
    case None => n !in l.dirty && (foreign || n !in l.states)
    case Some(a) => (n in l.dirty <==> !a.ok) && (foreign || Find(l.states, n) == Some(a.state))
  }

  lemma TruthGoesOn(before: Ledger, after: Ledger, n: string, adopted: set<string>, foreign: bool)
    requires Tells(before, after, adopted) && Truthful(before, n, foreign)
    ensures Truthful(after, n, n in adopted || (foreign && LastAttempt(News(before, after), n).None?))
  {
    assert after.log == before.log + News(before, after);
    LastAttemptOf(before.log, News(before, after), n);
    assert Told(before, after, n, adopted);
  }

  /**
   Over every run from nothing: a subject is dirty exactly while the last attempt to publish on it has
   failed, and the state of a subject that is not foreign is the one last attempted.
   */
  lemma {:induction false} RunsAreTruthful(w: World, run: seq<Point>, events: seq<Event>, i: nat, n: string)
    requires IsRun(w, run, events) && i < |run|
    requires run[0].ledger.states == map[] && run[0].ledger.dirty == {} && run[0].ledger.log == []
    ensures Truthful(run[i].ledger, n, Foreign(run, events, i, n))
    decreases i
  {
    if i > 0 {
      RunsAreTruthful(w, run, events, i - 1, n);
      assert Happens(w, run[i - 1], events[i - 1], run[i - 1 + 1]);
      EventTells(w, run[i - 1], events[i - 1], run[i]);
      TruthGoesOn(run[i - 1].ledger, run[i].ledger, n, Adopted(run[i - 1], events[i - 1], run[i]), Foreign(run, events, i - 1, n));
    }
  }

  lemma {:induction false} LastSuccessIsPublished(log: seq<Attempt>, n: string)
    requires LastAttempt(log, n).Some? && LastAttempt(log, n).value.ok
    ensures var published := Published(log, n); published != [] && published[|published| - 1] == LastAttempt(log, n).value.state
  {
    if log[|log| - 1].subject != n {
      LastSuccessIsPublished(log[..|log| - 1], n);
    }
  }

  /** So whoever listens to a clean subject has heard the state the service holds. */
  lemma CleanSubjectsAreHeard(w: World, run: seq<Point>, events: seq<Event>, i: nat, n: string)
    requires IsRun(w, run, events) && i < |run|
    requires run[0].ledger.states == map[] && run[0].ledger.dirty == {} && run[0].ledger.log == []
    requires n in run[i].ledger.states && n !in run[i].ledger.dirty && !Foreign(run, events, i, n)
    ensures var published := Published(run[i].ledger.log, n);
      published != [] && published[|published| - 1] == run[i].ledger.states[n]
  {
    RunsAreTruthful(w, run, events, i, n);
    LastSuccessIsPublished(run[i].ledger.log, n);
  }
}
