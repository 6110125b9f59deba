/**
 When summaries agree with their members: the fixed point of summary evaluation
 (alert/service.go evaluateDefinitionLocked on summaries, alert/evaluator.go ApplyEvaluation).
 */
module AlertSummaries {
  import opened Wrappers
  import opened AlertModel
  import opened AlertEvaluator
  import opened AlertLedger
  import Dependencies

  /** The summary's state agrees with what its members' states evaluate to. */
  predicate Settled(c: Catalog, states: map<string, State>, subject: string)
    requires c.IsSummary(subject)
  {
    c.Output(subject) in states &&
    Agrees(states[c.Output(subject)], SummaryEvaluation(c.Members(subject), states))
  }

  predicate AllSettled(c: Catalog, states: map<string, State>) {
    forall s <- c.definitions | c.IsSummary(s) :: Settled(c, states, s)
  }

  /** Settled is exactly: evaluating again, at any time and with any new id, changes no state. */
  lemma SettledIsFixedPoint(w: World, l: Ledger, c: Catalog, subject: string)
    requires ValidStates(l.states) && c.IsSummary(subject)
    ensures Settled(c, l.states, subject) <==> Evaluate(w, l, c, subject).states == l.states
  {
    var output := c.Output(subject);
    EvaluateSummaryOutcome(w, l, c, subject);
    if output in l.states {
      var draw := w.draws(l.tick);
      AgreementIsFixedPoint(l.states[output], SummaryEvaluation(c.Members(subject), l.states), draw.now, draw.episodeId);
    }
  }

  lemma SummaryEvaluationFrame(members: seq<string>, a: map<string, State>, b: map<string, State>)
    requires forall m <- members :: Find(a, m) == Find(b, m)
    ensures SummaryEvaluation(members, a) == SummaryEvaluation(members, b)
  {
    forall m <- members ensures m in a <==> m in b {
      assert Find(a, m) == Find(b, m);
    }
    if ValidSummary(members) && AllMembersKnown(members, a) {
      forall m <- members ensures a[m] == b[m] {
        assert Find(a, m) == Find(b, m);
      }
      SummaryFrame(members, a, b);
    }
  }

  /** Settledness looks at the output and the members only. */
  lemma SettledFrame(c: Catalog, a: map<string, State>, b: map<string, State>, subject: string)
    requires c.IsSummary(subject)
    requires Find(a, c.Output(subject)) == Find(b, c.Output(subject))
    requires forall m <- c.Members(subject) :: Find(a, m) == Find(b, m)
    ensures Settled(c, a, subject) <==> Settled(c, b, subject)
  {
    SummaryEvaluationFrame(c.Members(subject), a, b);
  }

  /** Evaluating a summary settles it. */
  lemma EvaluationSettles(c: Catalog, before: map<string, State>, after: map<string, State>, subject: string)
    requires c.Exact() && c.IsSummary(subject) && EvaluationOutcome(c, before, after, subject)
    ensures Settled(c, after, subject)
  {
    c.GraphEdges(subject);
    SummaryEvaluationFrame(c.Members(subject), before, after);
  }

  /** Evaluating a summary leaves others settled unless they have it as a member. */
  lemma EvaluationKeepsSettled(c: Catalog, before: map<string, State>, after: map<string, State>, subject: string, other: string)
    requires c.Exact() && c.IsSummary(subject) && EvaluationOutcome(c, before, after, subject)
    requires c.IsSummary(other) && subject != other && c.Output(subject) !in c.Members(other)
    requires Settled(c, before, other)
    ensures Settled(c, after, other)
  {
    c.OutputsDiffer(subject, other);
    SettledFrame(c, before, after, other);
  }

  // ------------------------------------------------------ nested summaries are flat

  /** A leaf of the dependency graph below a node. */
  ghost predicate LeafBelow(g: Dependencies.Graph, n: string, leaf: string) {
    leaf !in g && Dependencies.Reaches(g, n, leaf)
  }

  ghost predicate ActiveLeafBelow(c: Catalog, states: map<string, State>, n: string, leaf: string) {
    LeafBelow(c.Graph(), n, leaf) && leaf in states && states[leaf].active
  }

  ghost predicate Flat(c: Catalog, states: map<string, State>, n: string)
    requires n in states
  {
    && (states[n].active <==> exists leaf :: ActiveLeafBelow(c, states, n, leaf))
    && (states[n].active ==>
          && (forall leaf :: ActiveLeafBelow(c, states, n, leaf) ==>
                states[leaf].presentation.priority <= states[n].presentation.priority)
          && (exists leaf :: ActiveLeafBelow(c, states, n, leaf)
                && states[leaf].presentation.priority == states[n].presentation.priority))
  }

  lemma LeavesAreFlat(c: Catalog, states: map<string, State>, n: string)
    requires n in states && n !in c.Graph()
    ensures Flat(c, states, n)
  {
    Dependencies.ReachesItself(c.Graph(), n);
    forall leaf | ActiveLeafBelow(c, states, n, leaf) ensures leaf == n {
      if leaf != n {
        var m := Dependencies.ReachesSplits(c.Graph(), n, leaf);
      }
    }
    if states[n].active {
      assert ActiveLeafBelow(c, states, n, n);
    }
  }

  lemma LeavesOfMember(c: Catalog, states: map<string, State>, n: string, m: string)
    requires Dependencies.Edge(c.Graph(), n, m)
    ensures forall leaf :: ActiveLeafBelow(c, states, m, leaf) ==> ActiveLeafBelow(c, states, n, leaf)
  {
    forall leaf | ActiveLeafBelow(c, states, m, leaf) ensures ActiveLeafBelow(c, states, n, leaf) {
      Dependencies.ReachesThroughMember(c.Graph(), n, m, leaf);
    }
  }

  /** The dominant member of an active summary is active and of the greatest priority among active members. */
  lemma ActiveSummaryHasDominant(members: seq<string>, states: map<string, State>) returns (d: string)
    requires Present(members, states) && Summarize(members, states).active
    ensures d in members && states[d].active && states[d].presentation == Summarize(members, states).presentation
    ensures forall m <- members :: states[m].active ==> states[m].presentation.priority <= states[d].presentation.priority
  {
    SummaryMeaning(members, states);
    var a :| a in members && states[a].active;
    assert a in LiveMembers(members, states);
    var k :| 0 <= k < |members| && DominantAt(k, members, states)
      && Summarize(members, states).presentation == states[members[k]].presentation;
    d := members[k];
    forall m | m in members && states[m].active
      ensures states[d].active && states[m].presentation.priority <= states[d].presentation.priority
    {
      var j :| 0 <= j < |members| && members[j] == m;
      assert Yields(states[members[j]], states[d], j < k);
    }
  }

  /** One level of the flattening: a settled summary over flat members is flat. */
  lemma SummaryOfFlatIsFlat(c: Catalog, states: map<string, State>, subject: string)
    requires c.Exact() && c.IsSummary(subject) && ValidStates(states)
    requires Settled(c, states, subject) && Present(c.Members(subject), states)
    requires forall m <- c.Members(subject) :: Flat(c, states, m)
    ensures Flat(c, states, c.Output(subject))
  {
    var n, members := c.Output(subject), c.Members(subject);
    c.GraphEdges(subject);
    assert states[n].active <==> AnyActive(members, states) by {
      SummaryMeaning(members, states);
    }
    forall leaf | ActiveLeafBelow(c, states, n, leaf)
      ensures exists m <- members :: states[m].active && ActiveLeafBelow(c, states, m, leaf)
    {
      var m := Dependencies.ReachesSplits(c.Graph(), n, leaf);
      assert ActiveLeafBelow(c, states, m, leaf) && Flat(c, states, m);
    }
    if states[n].active {
      var d := ActiveSummaryHasDominant(members, states);
      assert Flat(c, states, d);
      LeavesOfMember(c, states, n, d);
      var leaf :| ActiveLeafBelow(c, states, d, leaf)
        && states[leaf].presentation.priority == states[d].presentation.priority;
      assert ActiveLeafBelow(c, states, n, leaf);
    }
  }

  /**
   Nested summaries equal flat ones: once settled with every member known, a summary at any depth is
   active exactly when some leaf below it is, with the greatest priority among those leaves.
   */
  lemma {:induction false} NestedSummariesAreFlat(c: Catalog, states: map<string, State>, order: seq<string>, i: nat)
    requires c.Exact() && ValidStates(states) && AllSettled(c, states)
    requires forall s | c.IsSummary(s) :: Present(c.Members(s), states)
    requires Dependencies.Topological(c.Graph(), order) && i < |order| && order[i] in c.Graph()
    ensures order[i] in states && Flat(c, states, order[i])
  {
    var g := c.Graph();
    var subject := c.byOutput[order[i]];
    assert Settled(c, states, subject);
    assert Present(c.Members(subject), states);
    forall m | m in c.Members(subject) ensures Flat(c, states, m) {
      if m in g {
        assert Dependencies.MembersBefore(g, order, i);
        var j :| 0 <= j < i && order[j] == m;
        NestedSummariesAreFlat(c, states, order, j);
      } else {
        LeavesAreFlat(c, states, m);
      }
    }
    SummaryOfFlatIsFlat(c, states, subject);
  }

  lemma SettledSummariesAreFlat(c: Catalog, states: map<string, State>, subject: string)
    requires c.Sound() && ValidStates(states) && AllSettled(c, states) && c.IsSummary(subject)
    requires forall s | c.IsSummary(s) :: Present(c.Members(s), states)
    ensures c.Output(subject) in states && Flat(c, states, c.Output(subject))
  {
    var order := Dependencies.AcyclicOrder(c.Graph());
    c.GraphEdges(subject);
    var i :| 0 <= i < |order| && order[i] == c.Output(subject);
    NestedSummariesAreFlat(c, states, order, i);
  }

  lemma PendingMemberMakesPending(c: Catalog, states: map<string, State>, subject: string, m: string)
    requires c.Exact() && c.IsSummary(subject) && Settled(c, states, subject)
    requires ValidStates(states) && Present(c.Members(subject), states) && m in c.Members(subject) && states[m].pending
    ensures states[c.Output(subject)].pending
  {
    c.GraphEdges(subject);
    SummaryMeaning(c.Members(subject), states);
  }

  /** Pending rises: once settled, everything above a pending alert is pending. */
  lemma {:induction false} PendingRises(c: Catalog, states: map<string, State>, p: seq<string>)
    requires c.Exact() && ValidStates(states) && AllSettled(c, states)
    requires forall s | c.IsSummary(s) :: Present(c.Members(s), states)
    requires Dependencies.IsPath(c.Graph(), p) && p[|p| - 1] in states && states[p[|p| - 1]].pending
    ensures p[0] in states && states[p[0]].pending
    decreases |p|
  {
    if |p| > 1 {
      assert Dependencies.Edge(c.Graph(), p[0], p[0 + 1]);
      Dependencies.DropPath(c.Graph(), p, 1);
      PendingRises(c, states, p[1..]);
      PendingMemberMakesPending(c, states, c.byOutput[p[0]], p[1]);
    }
  }
}
