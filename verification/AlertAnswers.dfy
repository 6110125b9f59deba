/**
 How the service answers a message on a state subject (alert/service.go reconcileStateLocked): what is
 published, and which summaries agree with their members afterwards.
 */
module AlertAnswers {
  import opened Wrappers
  import opened AlertModel
  import opened AlertEvaluator
  import opened AlertLedger
  import opened AlertSummaries
  import opened AlertAncestors
  import opened AlertAcknowledgement
  import opened AlertDelivery
  import opened AlertReconcile
  import opened AlertStaleness
  import opened AlertPublications
  import Dependencies

  // ---------------------------------------------------------------- what is published

  /** An acknowledgement is one lawful step of the lifecycle, announced once; without an episode it is refused. */
  lemma AcknowledgementIsAnnounced(w: World, l: Ledger, subject: string)
    requires ValidStates(l.states)
    ensures var drawn, after := l.(tick := l.tick + 1), AcknowledgeOne(w, l, subject);
      if Acknowledgeable(l.states, subject) then
        && Announces(w, drawn, after, subject) && IsAcknowledgement(l.states[subject], after.states[subject])
        && after.states[subject].ackTime == Some(At(w.draws(l.tick).now))
      else after == l || after == drawn
  {
    if Acknowledgeable(l.states, subject) {
      var next := Acknowledge(l.states[subject], l.states[subject].episodeId, w.draws(l.tick).now);
      StoringAnnounces(w, l.(tick := l.tick + 1), subject, next.value);
    }
  }

  /**
   The answer to a message for an owned alert that is known: nothing if it is the canonical state; else
   the canonical state once more, unless it asks to acknowledge the pending episode.
   */
  lemma MessageIsAnswered(w: World, l: Ledger, c: Catalog, subject: string, message: Wire)
    requires ValidStates(l.states) && subject in c.byOutput && subject in l.states && !Requests(c, l.states, subject, message)
    ensures var after := Reconcile(w, l, c, subject, message);
      if message == Decoded(l.states[subject]) then after == l
      else Announces(w, l, after, subject) && after.states == l.states
  {
    assert l.states[subject := l.states[subject]] == l.states;
  }

  /** A state the service does not own is adopted if it is valid, and nothing is published on its subject. */
  lemma OthersAreBelieved(w: World, l: Ledger, c: Catalog, subject: string, message: Wire)
    requires c.Exact() && ValidStates(l.states) && subject !in c.byOutput
    ensures var after := Reconcile(w, l, c, subject, message);
      && Published(after.log, subject) == Published(l.log, subject)
      && Find(after.states, subject) == if message.Decoded? && ValidState(message.state) then Some(message.state) else Find(l.states, subject)
  {
    if message.Decoded? && ValidState(message.state) {
      AscendKeepsLeaf(w, l.(states := l.states[subject := message.state]), c, subject);
    }
  }

  // ---------------------------------------------------------------- which summaries agree afterwards

  lemma AdoptionSettles(w: World, l: Ledger, c: Catalog, subject: string, incoming: State)
    requires c.Exact() && ValidStates(l.states) && ValidState(incoming)
    requires AllSettled(c, l.states) && DependentsFollow(c, VisitOrder(c, subject))
    ensures SettledApartFrom(c, Observed(w, l, c, subject, incoming).states, subject)
  {
    AscendSettles(w, l.states, l.(states := l.states[subject := incoming]), c, subject);
  }

  /** Unless a summary owns the output, all of them are settled. */
  lemma ApartFromLeaf(c: Catalog, states: map<string, State>, output: string)
    requires c.Exact() && SettledApartFrom(c, states, output) && (output in c.byOutput ==> !c.IsSummary(c.byOutput[output]))
    ensures AllSettled(c, states)
  {
  }

  lemma LeafAcknowledgementSettles(w: World, l: Ledger, c: Catalog, subject: string)
    requires c.Exact() && ValidStates(l.states) && subject in c.byOutput && !c.IsSummary(c.byOutput[subject])
    requires AllSettled(c, l.states) && DependentsFollow(c, VisitOrder(c, subject))
    ensures AllSettled(c, Acknowledged(w, l, c, subject).states)
  {
    AcknowledgeOneOutcome(w, l, subject);
    AscendSettles(w, l.states, AcknowledgeOne(w, l, subject), c, subject);
    ApartFromLeaf(c, Acknowledged(w, l, c, subject).states, subject);
  }

  /** The acknowledgement reaches the member's state. */
  ghost predicate Reached(c: Catalog, states: map<string, State>, subject: string, n: string) {
    LiveReaches(c.Graph(), states, subject, n) && Acknowledgeable(states, n)
  }

  /**
   Acknowledging the tree below `subject` leaves the summary s listing a member that is gone: the member
   has been acknowledged, or s has and the member could not be.
   */
  ghost predicate Forgets(c: Catalog, states: map<string, State>, subject: string, s: string)
    requires c.IsSummary(s)
  {
    && Present(c.Members(s), states)
    && exists m <- c.Members(s) :: Lingering(states[m]) && (Reached(c, states, subject, m) || Reached(c, states, subject, c.Output(s)))
  }

  lemma UnknownMemberStaysSettled(c: Catalog, before: map<string, State>, after: map<string, State>, done: set<string>, s: string)
    requires c.Exact() && c.IsSummary(s) && Settled(c, before, s) && AcknowledgedIn(before, after, done)
    requires !Present(c.Members(s), before)
    ensures Settled(c, after, s)
  {
    assert !Present(c.Members(s), after);
    assert SummaryEvaluation(c.Members(s), before) == INACTIVE && SummaryEvaluation(c.Members(s), after) == INACTIVE;
  }

  lemma GoneMemberUnsettles(members: seq<string>, a: map<string, State>, b: map<string, State>, t: State, m: string)
    requires Present(members, a) && Present(members, b) && Agrees(t, Summarize(members, a))
    requires m in members && Live(a[m]) && !Live(b[m])
    ensures !Agrees(t, Summarize(members, b))
  {
    ScanCollects(members, a);
    ScanCollects(members, b);
    assert m in LiveMembers(members, a) && m !in LiveMembers(members, b);
  }

  lemma LosingPendingKeepsAgreement(members: seq<string>, a: map<string, State>, b: map<string, State>, t: State)
    requires Present(members, a) && Present(members, b) && Agrees(t, Summarize(members, a))
    requires forall m <- members :: SameButPending(a[m], b[m]) && (b[m].pending ==> a[m].pending)
    ensures Agrees(t, Summarize(members, b))
  {
    ScanIgnoresPending(members, a, b);
    ScanActivity(members, a);
    ScanActivity(members, b);
  }

  lemma OnlyPendingIsLost(a: map<string, State>, b: map<string, State>, done: set<string>, m: string)
    requires ValidStates(a) && m in a && AcknowledgedIn(a, b, done)
    ensures m in b && (if m in done && Acknowledgeable(a, m) && Lingering(a[m]) then Live(a[m]) && !Live(b[m])
      else SameButPending(a[m], b[m]) && (b[m].pending ==> a[m].pending))
  {
    assert ValidState(a[m]);
  }

  /** A summary that is not itself acknowledged is unsettled exactly by an acknowledged member that is gone. */
  lemma KeptSummarySettlesExactly(members: seq<string>, a: map<string, State>, b: map<string, State>, done: set<string>, t: State)
    requires Present(members, a) && Present(members, b) && ValidStates(a) && AcknowledgedIn(a, b, done)
    requires Agrees(t, Summarize(members, a))
    ensures Agrees(t, Summarize(members, b)) <==> forall m <- members :: m in done && Acknowledgeable(a, m) ==> !Lingering(a[m])
  {
    if m :| m in members && m in done && Acknowledgeable(a, m) && Lingering(a[m]) {
      OnlyPendingIsLost(a, b, done, m);
      GoneMemberUnsettles(members, a, b, t, m);
    } else {
      forall m | m in members ensures SameButPending(a[m], b[m]) && (b[m].pending ==> a[m].pending) {
        OnlyPendingIsLost(a, b, done, m);
      }
      LosingPendingKeepsAgreement(members, a, b, t);
    }
  }

  /** Which summaries the walk itself leaves in agreement, before anything is evaluated. */
  lemma TreeSettlesExactly(
    c: Catalog, before: map<string, State>, after: map<string, State>, subject: string, tree: set<string>, s: string)
    requires c.Exact() && c.IsSummary(s) && Settled(c, before, s) && ValidStates(before) && ValidStates(after)
    requires AcknowledgedIn(before, after, tree) && forall n :: n in tree <==> LiveReaches(c.Graph(), before, subject, n)
    ensures Settled(c, after, s) <==> !Forgets(c, before, subject, s)
  {
    var members, output := c.Members(s), c.Output(s);
    c.GraphEdges(s);
    if !Present(members, before) {
      UnknownMemberStaysSettled(c, before, after, tree, s);
    } else if Reached(c, before, subject, output) {
      forall m | m in members && LiveIn(before, m) ensures m in tree {
        LiveReachesOneMore(c.Graph(), before, subject, output, m);
      }
      AcknowledgedTreeSettlesExactly(c, before, after, tree, s);
    } else {
      KnownMembersAreSummarized(members, before);
      KnownMembersAreSummarized(members, after);
      KeptSummarySettlesExactly(members, before, after, tree, before[output]);
    }
  }

  lemma LiveReachesOneMore(g: Dependencies.Graph, states: map<string, State>, a: string, n: string, m: string)
    requires LiveReaches(g, states, a, n) && Dependencies.Edge(g, n, m) && LiveIn(states, m)
    ensures LiveReaches(g, states, a, m)
  {
    var p :| LivePath(g, states, p, a, n);
    var q := p + [m];
    forall k | 0 <= k < |q| - 1 ensures Dependencies.Edge(g, q[k], q[k + 1]) {
      if k < |p| - 1 {
        assert Dependencies.Edge(g, p[k], p[k + 1]);
      }
    }
    assert LivePath(g, states, q, a, m);
  }

  /** What is neither visited nor changed by the pass above an output keeps or lacks its agreement. */
  lemma AscendKeepsOthers(w: World, l: Ledger, c: Catalog, output: string, s: string)
    requires c.Exact() && ValidStates(l.states) && c.IsSummary(s) && !Above(c, output, s)
    ensures Settled(c, Ascend(w, l, c, output).states, s) <==> Settled(c, l.states, s)
  {
    var order, step := VisitOrder(c, output), Evaluator(w, c);
    VisitOrderIsTheAncestors(c, output);
    EvaluatorEvaluates(w, c);
    c.GraphEdges(s);
    forall t | t in order ensures c.IsSummary(t) && c.Output(t) != c.Output(s) && c.Output(t) !in c.Members(s) {
      assert Above(c, output, t);
      c.OutputsDiffer(t, s);
      if c.Output(t) in c.Members(s) {
        AboveReaches(c, output, t);
      }
    }
    WalkFrame(step, l, c, order, c.Output(s));
    forall m | m in c.Members(s) ensures Find(Walk(step, l, order).states, m) == Find(l.states, m) {
      WalkFrame(step, l, c, order, m);
    }
    SettledFrame(c, l.states, Walk(step, l, order).states, s);
  }

  /** No summary that the pass above the output does not visit forgets a member. */
  ghost predicate NothingForgotten(c: Catalog, states: map<string, State>, subject: string) {
    forall s | c.IsSummary(s) && !Above(c, subject, s) :: !Forgets(c, states, subject, s)
  }

  /**
   An accepted acknowledgement of a summary leaves every summary of the whole service settled if and
   only if none that is not visited afterwards is left listing a member that is gone.
   */
  lemma AcknowledgementSettlesExactly(w: World, l: Ledger, c: Catalog, subject: string)
    requires c.Sound() && ValidStates(l.states) && subject in c.byOutput && c.IsSummary(c.byOutput[subject])
    requires AllSettled(c, l.states) && DependentsFollow(c, VisitOrder(c, subject))
    ensures AllSettled(c, Acknowledged(w, l, c, subject).states) <==> NothingForgotten(c, l.states, subject)
  {
    var l1 := AcknowledgeTree(w, l, c.Graph(), subject, {});
    var after := Ascend(w, l1, c, subject).states;
    var tree := TreeIsAcknowledgedOnce(w, l, c.Graph(), subject);
    forall s | c.IsSummary(s) && !Above(c, subject, s) ensures Settled(c, after, s) <==> !Forgets(c, l.states, subject, s) {
      TreeSettlesExactly(c, l.states, l1.states, subject, tree, s);
      AscendKeepsOthers(w, l1, c, subject, s);
    }
    if NothingForgotten(c, l.states, subject) {
      VisitedSettle(w, l1, c, subject);
    }
  }

  lemma VisitedSettle(w: World, l: Ledger, c: Catalog, output: string)
    requires c.Sound() && ValidStates(l.states) && DependentsFollow(c, VisitOrder(c, output))
    requires forall s | c.IsSummary(s) && !Above(c, output, s) :: Settled(c, Ascend(w, l, c, output).states, s)
    ensures AllSettled(c, Ascend(w, l, c, output).states)
  {
    EvaluatorEvaluates(w, c);
    VisitOrderIsTheAncestors(c, output);
    forall s | s in c.definitions && c.IsSummary(s) && s !in VisitOrder(c, output) ensures Settled(c, l.states, s) {
      AscendKeepsOthers(w, l, c, output, s);
    }
    assert forall s <- VisitOrder(c, output) :: Above(c, output, s);
    WalkSettles(Evaluator(w, c), l, c, output, VisitOrder(c, output));
    if output in c.byOutput && c.IsSummary(c.byOutput[output]) {
      NothingIsAboveItself(c, c.byOutput[output]);
    }
  }

  // ---------------------------------------------------------------- any message

  /** Which summaries are settled after a message to a settled service. */
  ghost predicate AgreesAfter(c: Catalog, before: map<string, State>, after: map<string, State>, subject: string, message: Wire) {
    if Adopts(c, before, subject, message) then SettledApartFrom(c, after, subject)
    else if Requests(c, before, subject, message) && message != Decoded(before[subject]) && c.IsSummary(c.byOutput[subject])
    then AllSettled(c, after) <==> NothingForgotten(c, before, subject)
    else AllSettled(c, after)
  }

  lemma MessageSettles(w: World, l: Ledger, c: Catalog, subject: string, message: Wire)
    requires c.Sound() && ValidStates(l.states)
    ensures AllSettled(c, l.states) && DependentsFollow(c, VisitOrder(c, subject)) ==>
      AgreesAfter(c, l.states, Reconcile(w, l, c, subject, message).states, subject, message)
  {
    if AllSettled(c, l.states) && DependentsFollow(c, VisitOrder(c, subject)) {
      if Adopts(c, l.states, subject, message) {
        AdoptionSettles(w, l, c, subject, message.state);
      } else if Requests(c, l.states, subject, message) && message != Decoded(l.states[subject]) {
        if c.IsSummary(c.byOutput[subject]) {
          AcknowledgementSettlesExactly(w, l, c, subject);
        } else {
          LeafAcknowledgementSettles(w, l, c, subject);
        }
      } else {
        SilentMessage(w, l, c, subject, message);
      }
    }
  }

  /** Neither adopted nor accepted, a message changes no state. */
  lemma SilentMessage(w: World, l: Ledger, c: Catalog, subject: string, message: Wire)
    requires !Adopts(c, l.states, subject, message)
    requires Requests(c, l.states, subject, message) ==> message == Decoded(l.states[subject])
    ensures Reconcile(w, l, c, subject, message).states == l.states
  {
  }
}
