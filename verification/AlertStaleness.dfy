/**
 Acknowledging a summary can leave it out of step with its members (alert/service.go
 reconcileStateLocked acknowledges the tree and then re-evaluates only what is above it). When exactly.
 */
module AlertStaleness {
  import opened AlertModel
  import opened AlertEvaluator
  import opened AlertLedger
  import opened AlertSummaries
  import opened AlertAcknowledgement
  import opened AlertReconcile
  import Dependencies

  /** As far as the summary scan can tell, only the pending flag may differ. */
  predicate SameButPending(a: State, b: State) {
    && a.active == b.active && Live(a) == Live(b)
    && a.presentation == b.presentation && a.text == b.text
  }

  lemma {:induction false} ScanIgnoresPending(members: seq<string>, a: map<string, State>, b: map<string, State>)
    requires Present(members, a) && Present(members, b)
    requires forall m <- members :: SameButPending(a[m], b[m])
    ensures var p, q := Scan(members, a), Scan(members, b);
      && q.result == p.result.(pending := q.result.pending)
      && (p.dominant.None? <==> q.dominant.None?)
      && (p.dominant.Some? ==> SameButPending(p.dominant.value, q.dominant.value))
  {
    if members != [] {
      ScanIgnoresPending(members[..|members| - 1], a, b);
    }
  }

  /** A member that was pending but no longer active. */
  predicate Lingering(s: State) {
    s.pending && !s.active
  }

  lemma NoLingeringKeepsAgreement(members: seq<string>, a: map<string, State>, b: map<string, State>, s: State, t: State)
    requires Present(members, a) && Present(members, b)
    requires forall m <- members :: SameButPending(a[m], b[m]) && !b[m].pending
    requires Agrees(s, Summarize(members, a)) && IsAcknowledgement(s, t)
    ensures Agrees(t, Summarize(members, b))
  {
    ScanIgnoresPending(members, a, b);
    ScanActivity(members, b);
  }

  lemma LingeringBreaksAgreement(members: seq<string>, a: map<string, State>, b: map<string, State>, s: State, t: State, m: string)
    requires Present(members, a) && Present(members, b) && m in members && Lingering(a[m])
    requires b[m].pending || !Live(b[m])
    requires Agrees(s, Summarize(members, a)) && IsAcknowledgement(s, t)
    ensures !Agrees(t, Summarize(members, b))
  {
    SummaryMeaning(members, a);
    SummaryMeaning(members, b);
    assert m in LiveMembers(members, a);
    assert b[m].pending ==> AnyPending(members, b);
  }

  /** Acknowledging the tree leaves the summary itself settled if and only if no member lingers. */
  lemma AcknowledgedTreeSettlesExactly(c: Catalog, before: map<string, State>, after: map<string, State>, done: set<string>, subject: string)
    requires c.Exact() && c.IsSummary(subject) && Settled(c, before, subject)
    requires ValidStates(before) && ValidStates(after) && Present(c.Members(subject), before)
    requires Acknowledgeable(before, c.Output(subject)) && c.Output(subject) in done
    requires AcknowledgedIn(before, after, done) && forall m <- c.Members(subject) :: LiveIn(before, m) ==> m in done
    ensures Settled(c, after, subject) <==> forall m <- c.Members(subject) :: !Lingering(before[m])
  {
    var members, output := c.Members(subject), c.Output(subject);
    c.GraphEdges(subject);
    KnownMembersAreSummarized(members, before);
    KnownMembersAreSummarized(members, after);
    if m :| m in members && Lingering(before[m]) {
      LingeringMember(before, after, done, m);
      LingeringBreaksAgreement(members, before, after, before[output], after[output], m);
    } else {
      MembersOnlyLosePending(before, after, done, members);
      NoLingeringKeepsAgreement(members, before, after, before[output], after[output]);
    }
  }

  lemma KnownMembersAreSummarized(members: seq<string>, states: map<string, State>)
    requires ValidSummary(members) && Present(members, states) && ValidStates(states)
    ensures SummaryEvaluation(members, states) == Summarize(members, states)
  {
  }

  lemma LingeringMember(before: map<string, State>, after: map<string, State>, done: set<string>, m: string)
    requires AcknowledgedIn(before, after, done) && m in done && m in before && Lingering(before[m])
    ensures m in after && (after[m].pending || !Live(after[m]))
  {
  }

  lemma MembersOnlyLosePending(before: map<string, State>, after: map<string, State>, done: set<string>, members: seq<string>)
    requires ValidStates(before) && Present(members, before) && AcknowledgedIn(before, after, done)
    requires forall m <- members :: (LiveIn(before, m) ==> m in done) && !Lingering(before[m])
    ensures forall m <- members :: m in after && SameButPending(before[m], after[m]) && !after[m].pending
  {
    forall m | m in members ensures m in after && SameButPending(before[m], after[m]) && !after[m].pending {
      assert ValidState(before[m]);
    }
  }

  /** The whole tree of a summary, seen from the summary: itself and its live members are in it. */
  lemma TreeHoldsLiveMembers(g: Dependencies.Graph, states: map<string, State>, tree: set<string>, n: string)
    requires forall x :: x in tree <==> LiveReaches(g, states, n, x)
    ensures n in tree && forall m <- Dependencies.Members(g, n) :: LiveIn(states, m) ==> m in tree
  {
    assert LivePath(g, states, [n], n, n);
    forall m | m in Dependencies.Members(g, n) && LiveIn(states, m) ensures m in tree {
      assert LivePath(g, states, [n, m], n, m);
    }
  }

  /**
   An accepted acknowledgement of a settled summary leaves it settled if and only if none of its
   members was pending and no longer active: such a member stays listed until the next evaluation.
   */
  lemma AcknowledgedSummarySettlesExactly(w: World, l: Ledger, c: Catalog, subject: string)
    requires c.Sound() && ValidStates(l.states) && c.IsSummary(subject) && Settled(c, l.states, subject)
    requires Present(c.Members(subject), l.states) && Acknowledgeable(l.states, c.Output(subject))
    ensures Settled(c, Acknowledged(w, l, c, c.Output(subject)).states, subject)
      <==> forall m <- c.Members(subject) :: !Lingering(l.states[m])
  {
    var output := c.Output(subject);
    c.GraphEdges(subject);
    var tree := TreeIsAcknowledgedOnce(w, l, c.Graph(), output);
    TreeHoldsLiveMembers(c.Graph(), l.states, tree, output);
    AcknowledgedTreeSettlesExactly(c, l.states, AcknowledgeTree(w, l, c.Graph(), output, {}).states, tree, subject);
    AscendLeavesSummary(w, AcknowledgeTree(w, l, c.Graph(), output, {}), c, subject);
  }
}
