/**
 The breadth-first re-evaluation of the summaries above a changed output
 (alert/service.go evaluateAncestorsLocked): which summaries it visits, in which order, and
 exactly when one pass in that order leaves every summary settled.
 */
module AlertAncestors {
  import opened Wrappers
  import opened Sequences
  import opened AlertModel
  import opened AlertEvaluator
  import opened AlertLedger
  import opened AlertSummaries
  import opened Dependencies

  /** The subjects the queue loop evaluates, in order; it terminates for any parents map. */
  function Visits(c: Catalog, queue: seq<string>, seen: set<string>): seq<string>
    decreases c.definitions.Keys - seen, |queue|
  {
    if queue == [] then []
    else
      var subject, rest := queue[0], queue[1..];
      if subject in seen then Visits(c, rest, seen)
      else if subject !in c.definitions then
        assert c.definitions.Keys - (seen + {subject}) == c.definitions.Keys - seen;
        [subject] + Visits(c, rest, seen + {subject})
      else
        assert subject in c.definitions.Keys - seen;
        [subject] + Visits(c, rest + c.Parents(c.Output(subject)), seen + {subject})
  }

  function VisitOrder(c: Catalog, output: string): seq<string> {
    Visits(c, c.Parents(output), {})
  }

  // ------------------------------------------------------ what is visited

  lemma QueueGrows(c: Catalog, queue: seq<string>)
    requires c.Exact() && Summaries(c, queue) && queue != []
    ensures c.IsSummary(queue[0]) && Summaries(c, queue[1..])
    ensures Summaries(c, queue[1..] + c.Parents(c.Output(queue[0])))
  {
    assert queue[0] in queue;
    forall s | s in c.Parents(c.Output(queue[0])) ensures c.IsSummary(s) {
      assert c.IsParent(s, c.Output(queue[0]));
    }
  }

  /** Nothing is visited twice and nothing already seen is visited. */
  lemma {:induction false} VisitsOnce(c: Catalog, queue: seq<string>, seen: set<string>)
    requires c.Exact() && Summaries(c, queue)
    ensures var order := Visits(c, queue, seen);
      Distinct(order) && Summaries(c, order) && forall a <- order :: a !in seen
    decreases c.definitions.Keys - seen, |queue|
  {
    if queue != [] {
      QueueGrows(c, queue);
      var subject, rest := queue[0], queue[1..];
      if subject in seen {
        VisitsOnce(c, rest, seen);
      } else {
        assert subject in c.definitions.Keys - seen;
        VisitsOnce(c, rest + c.Parents(c.Output(subject)), seen + {subject});
      }
    }
  }

  /** Everything queued is visited, unless it was seen. */
  lemma {:induction false} QueueIsVisited(c: Catalog, queue: seq<string>, seen: set<string>)
    requires c.Exact() && Summaries(c, queue)
    ensures forall a <- queue :: a in seen || a in Visits(c, queue, seen)
    decreases c.definitions.Keys - seen, |queue|
  {
    if queue != [] {
      QueueGrows(c, queue);
      var subject, rest := queue[0], queue[1..];
      assert forall a | a in queue :: a == subject || a in rest;
      if subject in seen {
        QueueIsVisited(c, rest, seen);
      } else {
        assert subject in c.definitions.Keys - seen;
        QueueIsVisited(c, rest + c.Parents(c.Output(subject)), seen + {subject});
      }
    }
  }

  /** So are the parents of everything visited. */
  lemma {:induction false} VisitsAreClosed(c: Catalog, queue: seq<string>, seen: set<string>, a: string, s: string)
    requires c.Exact() && Summaries(c, queue)
    requires a in Visits(c, queue, seen) && c.IsSummary(a) && c.IsParent(s, c.Output(a))
    ensures s in seen || s in Visits(c, queue, seen)
    decreases c.definitions.Keys - seen, |queue|
  {
    QueueGrows(c, queue);
    var subject, rest := queue[0], queue[1..];
    if subject in seen {
      VisitsAreClosed(c, rest, seen, a, s);
    } else {
      assert subject in c.definitions.Keys - seen;
      var next := rest + c.Parents(c.Output(subject));
      if a == subject {
        assert s in c.Parents(c.Output(subject));
        QueueIsVisited(c, next, seen + {subject});
      } else {
        VisitsAreClosed(c, next, seen + {subject}, a, s);
      }
    }
  }

  /** A subject whose summary lists something that reaches the changed output. */
  ghost predicate Above(c: Catalog, output: string, s: string) {
    c.IsSummary(s) && exists m <- c.Members(s) :: Reaches(c.Graph(), m, output)
  }

  lemma ParentIsAbove(c: Catalog, output: string, n: string, s: string)
    requires c.Exact() && s in c.Parents(n) && Reaches(c.Graph(), n, output)
    ensures Above(c, output, s) && Reaches(c.Graph(), c.Output(s), output)
  {
    assert c.IsParent(s, n);
    c.GraphEdges(s);
    ReachesThroughMember(c.Graph(), c.Output(s), n, output);
  }

  /** Only summaries above the changed output are visited. */
  lemma {:induction false} VisitsAreAbove(c: Catalog, output: string, queue: seq<string>, seen: set<string>)
    requires c.Exact() && forall s <- queue :: Above(c, output, s)
    ensures forall s <- Visits(c, queue, seen) :: Above(c, output, s)
    decreases c.definitions.Keys - seen, |queue|
  {
    if queue != [] {
      var subject, rest := queue[0], queue[1..];
      if subject in seen {
        VisitsAreAbove(c, output, rest, seen);
      } else {
        assert Above(c, output, subject);
        var n := c.Output(subject);
        assert subject in c.definitions.Keys - seen;
        AboveReaches(c, output, subject);
        forall s | s in c.Parents(n) ensures Above(c, output, s) {
          ParentIsAbove(c, output, n, s);
        }
        VisitsAreAbove(c, output, rest + c.Parents(n), seen + {subject});
      }
    }
  }

  lemma AboveReaches(c: Catalog, output: string, s: string)
    requires c.Exact() && Above(c, output, s)
    ensures Reaches(c.Graph(), c.Output(s), output)
  {
    c.GraphEdges(s);
    var m :| m in c.Members(s) && Reaches(c.Graph(), m, output);
    ReachesThroughMember(c.Graph(), c.Output(s), m, output);
  }

  lemma FirstParentsAreAbove(c: Catalog, output: string)
    requires c.Exact()
    ensures forall s <- c.Parents(output) :: Above(c, output, s)
  {
    ReachesItself(c.Graph(), output);
    forall s | s in c.Parents(output) ensures Above(c, output, s) {
      ParentIsAbove(c, output, output, s);
    }
  }

  lemma NothingIsAboveItself(c: Catalog, s: string)
    requires c.Sound() && c.IsSummary(s)
    ensures !Above(c, c.Output(s), s)
  {
    var g, n := c.Graph(), c.Output(s);
    c.GraphEdges(s);
    if m :| m in c.Members(s) && Reaches(g, m, n) {
      var p :| Connects(g, p, m, n);
      JoinPaths(g, [n], p);
      assert IsCycle(g, [n] + p);
    }
  }

  /** The set visited is exactly the set of summaries above the output, each visited once. */
  lemma VisitOrderIsTheAncestors(c: Catalog, output: string)
    requires c.Exact()
    ensures var order := VisitOrder(c, output);
      Distinct(order) && forall s :: s in order <==> Above(c, output, s)
  {
    var order := VisitOrder(c, output);
    FirstParentsAreAbove(c, output);
    VisitsOnce(c, c.Parents(output), {});
    VisitsAreAbove(c, output, c.Parents(output), {});
    forall s | Above(c, output, s) ensures s in order {
      var m :| m in c.Members(s) && Reaches(c.Graph(), m, output);
      var p :| Connects(c.Graph(), p, m, output);
      AncestorIsVisited(c, output, s, p);
    }
  }

  lemma {:induction false} AncestorIsVisited(c: Catalog, output: string, s: string, p: seq<string>)
    requires c.Exact() && IsPath(c.Graph(), p) && c.IsParent(s, p[0]) && p[|p| - 1] == output
    ensures s in VisitOrder(c, output)
    decreases |p|
  {
    FirstParentsAreAbove(c, output);
    assert s in c.Parents(p[0]);
    if |p| == 1 {
      QueueIsVisited(c, c.Parents(output), {});
    } else {
      assert Edge(c.Graph(), p[0], p[0 + 1]);
      DropPath(c.Graph(), p, 1);
      var a := c.byOutput[p[0]];
      AncestorIsVisited(c, output, a, p[1..]);
      VisitsAreClosed(c, c.Parents(output), {}, a, s);
    }
  }

  // ------------------------------------------------------ when one pass is enough

  /** Every summary that lists a visited one is visited after it. */
  ghost predicate DependentsFollow(c: Catalog, order: seq<string>) {
    forall i, s | 0 <= i < |order| && order[i] in c.definitions && c.IsParent(s, c.Output(order[i])) :: s in order[i + 1..]
  }

  /** Every summary is settled, except that nothing is asked of the one owning the changed output. */
  predicate SettledApartFrom(c: Catalog, states: map<string, State>, output: string) {
    forall s <- c.definitions | c.IsSummary(s) && c.Output(s) != output :: Settled(c, states, s)
  }

  /** The ledger after the state of an output was replaced. */
  function Changed(l: Ledger, output: string, state: State): Ledger {
    l.(states := l.states[output := state])
  }

  lemma {:induction false} WalkSettles(step: Step, l: Ledger, c: Catalog, output: string, order: seq<string>)
    requires c.Exact() && Evaluates(c, step) && ValidStates(l.states)
    requires DependentsFollow(c, order) && Distinct(order) && Summaries(c, order)
    requires forall s <- c.definitions | c.IsSummary(s) && c.Output(s) != output && s !in order :: Settled(c, l.states, s)
    ensures SettledApartFrom(c, Walk(step, l, order).states, output)
    decreases |order|
  {
    if order != [] {
      var a, rest, next := order[0], order[1..], step(l, order[0]);
      assert a in order;
      assert EvaluationOutcome(c, l.states, next.states, a);
      forall s | c.IsParent(s, c.Output(order[0])) ensures s in rest {
        assert order[0 + 1..] == rest;
      }
      forall s | s in c.definitions && c.IsSummary(s) && c.Output(s) != output && s !in rest ensures Settled(c, next.states, s) {
        if s == a {
          EvaluationSettles(c, l.states, next.states, a);
        } else {
          assert s !in order;
          EvaluationKeepsSettled(c, l.states, next.states, a, s);
        }
      }
      assert DependentsFollow(c, rest) by {
        forall i, s | 0 <= i < |rest| && rest[i] in c.definitions && c.IsParent(s, c.Output(rest[i])) ensures s in rest[i + 1..] {
          assert order[i + 1] == rest[i] && order[i + 2..] == rest[i + 1..];
        }
      }
      WalkSettles(step, next, c, output, rest);
    }
  }

  lemma FollowingDependentsSettle(step: Step, l: Ledger, c: Catalog, output: string, changed: State)
    requires c.Exact() && Evaluates(c, step) && ValidStates(l.states) && ValidState(changed)
    requires SettledApartFrom(c, l.states, output) && DependentsFollow(c, VisitOrder(c, output))
    ensures SettledApartFrom(c, Walk(step, Changed(l, output, changed), VisitOrder(c, output)).states, output)
  {
    var order := VisitOrder(c, output);
    VisitOrderIsTheAncestors(c, output);
    ReachesItself(c.Graph(), output);
    forall s | s in c.definitions && c.IsSummary(s) && c.Output(s) != output && s !in order
      ensures Settled(c, l.states[output := changed], s)
    {
      assert !Above(c, output, s);
      SettledFrame(c, l.states, l.states[output := changed], s);
    }
    assert forall s <- order :: Above(c, output, s);
    WalkSettles(step, Changed(l, output, changed), c, output, order);
  }

  // ------------------------------------------------------ and when it is not

  const QUIET := NO_STATE.(acknowledged := true)
  const ALARM := QUIET.(active := true, cameTime := Some(At(0)), episodeId := "episode")

  /** Every subject of the catalog inactive. */
  function QuietStates(c: Catalog): map<string, State> {
    map n | n in Nodes(c.Graph()) :: QUIET
  }

  lemma QuietMembersEvaluateQuiet(members: seq<string>, states: map<string, State>)
    requires ValidSummary(members) && forall m <- members :: m in states && states[m] == QUIET
    ensures Agrees(QUIET, SummaryEvaluation(members, states))
  {
    SummaryMeaning(members, states);
    NoLiveMembers(members, states);
  }

  lemma QuietIsSettled(c: Catalog)
    requires c.Exact()
    ensures Complete(c, QuietStates(c)) && AllSettled(c, QuietStates(c))
  {
    forall s | s in c.definitions && c.IsSummary(s)
      ensures Settled(c, QuietStates(c), s) && Present(c.Members(s), QuietStates(c))
    {
      c.GraphEdges(s);
      QuietMembersEvaluateQuiet(c.Members(s), QuietStates(c));
    }
  }

  ghost predicate HasActiveMember(c: Catalog, states: map<string, State>, s: string) {
    c.IsSummary(s) && exists m <- c.Members(s) :: m in states && states[m].active
  }

  /** Every summary and every member has a state. */
  ghost predicate Complete(c: Catalog, states: map<string, State>) {
    && ValidStates(states)
    && forall s <- c.definitions | c.IsSummary(s) :: c.Output(s) in states && Present(c.Members(s), states)
  }

  ghost predicate KeepsActive(before: map<string, State>, after: map<string, State>) {
    forall n <- before :: n in after && (before[n].active ==> after[n].active)
  }

  /** Evaluating a summary with an active member makes it active. */
  lemma ActiveMemberActivates(c: Catalog, before: map<string, State>, after: map<string, State>, s: string)
    requires c.Exact() && Complete(c, before) && HasActiveMember(c, before, s) && EvaluationOutcome(c, before, after, s)
    ensures after[c.Output(s)].active
  {
    c.GraphEdges(s);
    SummaryMeaning(c.Members(s), before);
  }

  lemma ActivityIsKept(c: Catalog, before: map<string, State>, after: map<string, State>, s: string)
    requires Complete(c, before) && c.IsSummary(s) && EvaluationOutcome(c, before, after, s) && after[c.Output(s)].active
    ensures Complete(c, after) && KeepsActive(before, after)
  {
    forall t | t in c.definitions && c.IsSummary(t) ensures c.Output(t) in after && Present(c.Members(t), after) {
      assert Present(c.Members(t), before);
    }
  }

  lemma QueueKeepsActiveMembers(c: Catalog, before: map<string, State>, after: map<string, State>, s: string, rest: seq<string>)
    requires c.Exact() && c.IsSummary(s) && KeepsActive(before, after)
    requires c.Output(s) in after && after[c.Output(s)].active
    requires forall q <- rest :: HasActiveMember(c, before, q)
    ensures forall q <- rest + c.Parents(c.Output(s)) :: HasActiveMember(c, after, q)
  {
    forall q | q in rest + c.Parents(c.Output(s)) ensures HasActiveMember(c, after, q) {
      if q in rest {
        var m :| m in c.Members(q) && m in before && before[m].active;
      } else {
        assert c.IsParent(q, c.Output(s));
      }
    }
  }

  /** Along the walk activity spreads: every visited summary becomes active and nothing active is lost. */
  lemma {:induction false} WalkActivates(step: Step, l: Ledger, c: Catalog, queue: seq<string>, seen: set<string>)
    requires c.Exact() && Evaluates(c, step) && Complete(c, l.states)
    requires forall s <- queue :: HasActiveMember(c, l.states, s)
    ensures var order := Visits(c, queue, seen); var after := Walk(step, l, order).states;
      && Complete(c, after) && KeepsActive(l.states, after)
      && (forall s <- order :: c.IsSummary(s) && c.Output(s) in after && after[c.Output(s)].active)
    decreases c.definitions.Keys - seen, |queue|
  {
    if queue != [] {
      var s, rest := queue[0], queue[1..];
      assert HasActiveMember(c, l.states, s);
      if s in seen {
        WalkActivates(step, l, c, rest, seen);
      } else {
        var n, next := c.Output(s), step(l, s);
        ActiveMemberActivates(c, l.states, next.states, s);
        ActivityIsKept(c, l.states, next.states, s);
        QueueKeepsActiveMembers(c, l.states, next.states, s, rest);
        assert s in c.definitions.Keys - seen;
        WalkActivates(step, next, c, rest + c.Parents(n), seen + {s});
      }
    }
  }

  lemma OtherOutputs(c: Catalog, order: seq<string>, a: string, k: nat)
    requires c.Exact() && Summaries(c, order) && k < |order| && c.IsSummary(a) && a != order[k]
    ensures c.IsSummary(order[k]) && c.Output(a) != c.Output(order[k])
  {
    assert order[k] in order;
    c.OutputsDiffer(a, order[k]);
  }

  /** The walk leaves an output alone before the visit of its definition. */
  lemma OutputBefore(step: Step, l: Ledger, c: Catalog, order: seq<string>, i: nat, k: nat)
    requires c.Exact() && Evaluates(c, step) && ValidStates(l.states) && Distinct(order) && Summaries(c, order)
    requires i < k < |order| && c.IsSummary(order[k])
    ensures var before := Walk(step, l, order[..i]).states;
      ValidStates(before) && Find(before, c.Output(order[k])) == Find(l.states, c.Output(order[k]))
  {
    forall s | s in order[..i] ensures c.IsSummary(s) && c.Output(s) != c.Output(order[k]) {
      OtherOutputs(c, order, s, k);
    }
    WalkFrame(step, l, c, order[..i], c.Output(order[k]));
  }

  /** And after it. */
  lemma OutputAfter(step: Step, l: Ledger, c: Catalog, order: seq<string>, i: nat)
    requires c.Exact() && Evaluates(c, step) && Distinct(order) && Summaries(c, order)
    requires i < |order| && c.IsSummary(order[i]) && ValidStates(Walk(step, l, order[..i]).states)
    ensures Find(Walk(step, l, order).states, c.Output(order[i]))
         == Find(step(Walk(step, l, order[..i]), order[i]).states, c.Output(order[i]))
  {
    var before := Walk(step, l, order[..i]);
    assert EvaluationOutcome(c, before.states, step(before, order[i]).states, order[i]);
    forall s | s in order[i + 1..] ensures c.IsSummary(s) && c.Output(s) != c.Output(order[i]) {
      OtherOutputs(c, order, s, i);
    }
    WalkFrame(step, step(before, order[i]), c, order[i + 1..], c.Output(order[i]));
    WalkResumes(step, l, order, i);
  }

  lemma WalkResumes(step: Step, l: Ledger, order: seq<string>, i: nat)
    requires i < |order|
    ensures Walk(step, l, order) == Walk(step, step(Walk(step, l, order[..i]), order[i]), order[i + 1..])
  {
    assert order == order[..i] + order[i..];
    WalkSplits(step, l, order[..i], order[i..]);
    assert order[i..][1..] == order[i + 1..];
  }

  lemma QuietIsNotListed(members: seq<string>, states: map<string, State>, m: string)
    requires m in states && !Live(states[m])
    ensures m !in SummaryEvaluation(members, states).members
  {
    if AllMembersKnown(members, states) {
      SummaryMeaning(members, states);
    }
  }

  lemma ActiveIsListed(members: seq<string>, states: map<string, State>, m: string)
    requires ValidSummary(members) && ValidStates(states) && Present(members, states)
    requires m in members && states[m].active
    ensures m in SummaryEvaluation(members, states).members
  {
    SummaryMeaning(members, states);
  }

  /** A summary visited before one of its members became active does not list that member. */
  lemma LateMemberUnsettles(step: Step, l: Ledger, c: Catalog, order: seq<string>, i: nat, k: nat)
    requires c.Exact() && Evaluates(c, step) && ValidStates(l.states) && Distinct(order) && Summaries(c, order)
    requires i < k < |order| && c.IsSummary(order[i]) && c.IsSummary(order[k])
    requires c.Output(order[k]) in c.Members(order[i])
    requires Find(l.states, c.Output(order[k])) == Some(QUIET)
    requires var after := Walk(step, l, order).states;
      Complete(c, after) && c.Output(order[k]) in after && after[c.Output(order[k])].active
    ensures !Settled(c, Walk(step, l, order).states, order[i])
  {
    var s, late := order[i], c.Output(order[k]);
    var before := Walk(step, l, order[..i]);
    OutputBefore(step, l, c, order, i, k);
    OutputAfter(step, l, c, order, i);
    assert EvaluationOutcome(c, before.states, step(before, s).states, s);
    QuietIsNotListed(c.Members(s), before.states, late);
    c.GraphEdges(s);
    ActiveIsListed(c.Members(s), Walk(step, l, order).states, late);
  }

  lemma LaterElements(order: seq<string>, k: nat)
    requires k < |order|
    ensures forall i | k < i < |order| :: order[i] in order[k + 1..]
  {
    forall i | k < i < |order| ensures order[i] in order[k + 1..] {
      assert order[k + 1..][i - k - 1] == order[i];
    }
  }

  /** A stray dependent is an earlier visit that lists a later one. */
  lemma StrayDependent(c: Catalog, output: string) returns (i: nat, k: nat)
    requires c.Sound() && !DependentsFollow(c, VisitOrder(c, output))
    ensures var order := VisitOrder(c, output);
      && i < k < |order| && c.IsSummary(order[i]) && c.IsSummary(order[k])
      && c.Output(order[k]) in c.Members(order[i])
      && c.Output(order[i]) != output && c.Output(order[k]) != output
  {
    var order := VisitOrder(c, output);
    VisitOrderIsTheAncestors(c, output);
    var s;
    k, s :| 0 <= k < |order| && order[k] in c.definitions && c.IsParent(s, c.Output(order[k])) && s !in order[k + 1..];
    assert order[k] in order && Above(c, output, order[k]);
    AboveReaches(c, output, order[k]);
    assert Above(c, output, s);
    i :| 0 <= i < |order| && order[i] == s;
    c.GraphEdges(s);
    LaterElements(order, k);
    NothingIsAboveItself(c, order[k]);
    NothingIsAboveItself(c, s);
  }

  lemma AlarmReachesParents(c: Catalog, output: string)
    requires c.Exact()
    ensures var states := QuietStates(c)[output := ALARM];
      Complete(c, states) && forall q <- c.Parents(output) :: HasActiveMember(c, states, q)
  {
    QuietIsSettled(c);
    forall q | q in c.Parents(output) ensures HasActiveMember(c, QuietStates(c)[output := ALARM], q) {
      assert c.IsParent(q, output);
    }
  }

  predicate RestoresFrom(step: Step, l: Ledger, c: Catalog, output: string, changed: State) {
    ValidStates(l.states) && SettledApartFrom(c, l.states, output) && ValidState(changed) ==>
      SettledApartFrom(c, Walk(step, Changed(l, output, changed), VisitOrder(c, output)).states, output)
  }

  /** One breadth-first pass after any change of the output, from any settled start, settles everything again. */
  ghost predicate OnePassRestores(c: Catalog, output: string) {
    forall w: World, l: Ledger, changed: State :: RestoresFrom(Evaluator(w, c), l, c, output, changed)
  }

  /** From a quiet plant, raising an alarm on the output leaves some summary stale if dependents do not follow. */
  lemma StrayDependentIsStale(step: Step, l: Ledger, c: Catalog, output: string)
    requires c.Sound() && Evaluates(c, step) && !DependentsFollow(c, VisitOrder(c, output))
    requires l.states == QuietStates(c)
    ensures ValidStates(l.states) && SettledApartFrom(c, l.states, output)
    ensures !SettledApartFrom(c, Walk(step, Changed(l, output, ALARM), VisitOrder(c, output)).states, output)
  {
    var order, start := VisitOrder(c, output), Changed(l, output, ALARM);
    var i, k := StrayDependent(c, output);
    QuietIsSettled(c);
    AlarmReachesParents(c, output);
    FirstParentsAreAbove(c, output);
    VisitsOnce(c, c.Parents(output), {});
    WalkActivates(step, start, c, c.Parents(output), {});
    c.GraphEdges(order[i]);
    assert c.Output(order[k]) in Nodes(c.Graph());
    assert order[k] in order;
    LateMemberUnsettles(step, start, c, order, i, k);
  }

  lemma StrayDependentIsNotRestored(step: Step, l: Ledger, c: Catalog, output: string)
    requires c.Sound() && Evaluates(c, step) && !DependentsFollow(c, VisitOrder(c, output))
    requires l.states == QuietStates(c)
    ensures !RestoresFrom(step, l, c, output, ALARM)
  {
    StrayDependentIsStale(step, l, c, output);
    AlarmIsValid();
  }

  lemma AlarmIsValid()
    ensures ValidState(ALARM)
  {
  }

  /**
   One pass restores agreement if and only if, in the visit order, every summary comes after all
   visited summaries it lists.
   */
  lemma OnePassRestoresExactly(c: Catalog, output: string)
    requires c.Sound()
    ensures OnePassRestores(c, output) <==> DependentsFollow(c, VisitOrder(c, output))
  {
    if DependentsFollow(c, VisitOrder(c, output)) {
      FollowingDependentsRestore(c, output);
    } else {
      StrayDependentsDoNotRestore(c, output);
    }
  }

  lemma FollowingDependentsRestore(c: Catalog, output: string)
    requires c.Exact() && DependentsFollow(c, VisitOrder(c, output))
    ensures OnePassRestores(c, output)
  {
    forall w: World, l: Ledger, changed: State ensures RestoresFrom(Evaluator(w, c), l, c, output, changed) {
      EvaluatorEvaluates(w, c);
      if ValidStates(l.states) && SettledApartFrom(c, l.states, output) && ValidState(changed) {
        FollowingDependentsSettle(Evaluator(w, c), l, c, output, changed);
      }
    }
  }

  lemma StrayDependentsDoNotRestore(c: Catalog, output: string)
    requires c.Sound() && !DependentsFollow(c, VisitOrder(c, output))
    ensures !OnePassRestores(c, output)
  {
    var d: EpisodeDraw := Draw(0, "id");
    var w := World(_ => d, _ => true);
    var l := Ledger(QuietStates(c), {}, [], 0);
    EvaluatorEvaluates(w, c);
    StrayDependentIsNotRestored(Evaluator(w, c), l, c, output);
    OneFailureIsEnough(w, l, c, output, ALARM);
  }

  lemma OneFailureIsEnough(w: World, l: Ledger, c: Catalog, output: string, changed: State)
    requires !RestoresFrom(Evaluator(w, c), l, c, output, changed)
    ensures !OnePassRestores(c, output)
  {
  }

  // ------------------------------------------------------ equal path lengths

  /** All dependency paths from one summary down to the output have the same length. */
  ghost predicate EqualPaths(g: Graph, output: string) {
    forall n, p, q | Connects(g, p, n, output) && Connects(g, q, n, output) :: |p| == |q|
  }

  ghost function Level(g: Graph, output: string, n: string): nat {
    if Reaches(g, n, output) then var p :| Connects(g, p, n, output); |p| else 0
  }

  lemma MembersAreOneLevelDown(g: Graph, output: string, n: string, m: string)
    requires EqualPaths(g, output) && Edge(g, n, m) && Reaches(g, m, output)
    ensures Level(g, output, n) == Level(g, output, m) + 1
  {
    var p :| Connects(g, p, m, output) && Level(g, output, m) == |p|;
    JoinPaths(g, [n], p);
    assert Connects(g, [n] + p, n, output);
  }

  /** The levels of a queue are sorted and span at most one level, as in any breadth-first search. */
  ghost predicate Levelled(c: Catalog, output: string, queue: seq<string>) {
    && (forall s <- queue :: Above(c, output, s))
    && (forall i, j | 0 <= i < j < |queue| :: LevelOf(c, output, queue[i]) <= LevelOf(c, output, queue[j]))
    && (queue != [] ==> forall s <- queue :: LevelOf(c, output, s) <= LevelOf(c, output, queue[0]) + 1)
  }

  ghost function LevelOf(c: Catalog, output: string, s: string): nat {
    if c.IsSummary(s) then Level(c.Graph(), output, c.Output(s)) else 0
  }

  /** The parents of a summary are one level above it. */
  lemma ParentsAreOneLevelUp(c: Catalog, output: string, s: string)
    requires c.Exact() && EqualPaths(c.Graph(), output) && Above(c, output, s)
    ensures OneLevelUp(c, output, c.Parents(c.Output(s)), LevelOf(c, output, s))
  {
    var n := c.Output(s);
    AboveReaches(c, output, s);
    forall t | t in c.Parents(n) ensures Above(c, output, t) && LevelOf(c, output, t) == LevelOf(c, output, s) + 1 {
      ParentIsAbove(c, output, n, t);
      c.GraphEdges(t);
      assert c.IsParent(t, n);
      MembersAreOneLevelDown(c.Graph(), output, c.Output(t), n);
    }
  }

  ghost predicate OneLevelUp(c: Catalog, output: string, parents: seq<string>, level: nat) {
    forall t <- parents :: Above(c, output, t) && LevelOf(c, output, t) == level + 1
  }

  lemma NextQueueIsLevelled(c: Catalog, output: string, queue: seq<string>, parents: seq<string>)
    requires queue != [] && Levelled(c, output, queue) && OneLevelUp(c, output, parents, LevelOf(c, output, queue[0]))
    ensures var next := queue[1..] + parents;
      Levelled(c, output, next) && (next != [] ==> LevelOf(c, output, queue[0]) <= LevelOf(c, output, next[0]))
  {
    var rest, level := queue[1..], LevelOf(c, output, queue[0]);
    var next := rest + parents;
    forall j | 0 <= j < |next|
      ensures Above(c, output, next[j]) && level <= LevelOf(c, output, next[j]) <= level + 1
      ensures j >= |rest| ==> LevelOf(c, output, next[j]) == level + 1
    {
      if j < |rest| {
        assert next[j] == queue[j + 1] && queue[j + 1] in queue;
        assert LevelOf(c, output, queue[0]) <= LevelOf(c, output, queue[j + 1]);
      } else {
        assert next[j] in parents;
      }
    }
    forall i, j | 0 <= i < j < |next| ensures LevelOf(c, output, next[i]) <= LevelOf(c, output, next[j]) {
      if j < |rest| {
        assert LevelOf(c, output, queue[i + 1]) <= LevelOf(c, output, queue[j + 1]);
      }
    }
  }

  ghost predicate ByLevel(c: Catalog, output: string, order: seq<string>) {
    forall i, j | 0 <= i < j < |order| :: LevelOf(c, output, order[i]) <= LevelOf(c, output, order[j])
  }

  ghost predicate FromLevel(c: Catalog, output: string, order: seq<string>, level: nat) {
    forall i | 0 <= i < |order| :: level <= LevelOf(c, output, order[i])
  }

  lemma PrependByLevel(c: Catalog, output: string, s: string, tail: seq<string>)
    requires ByLevel(c, output, tail) && FromLevel(c, output, tail, LevelOf(c, output, s))
    ensures ByLevel(c, output, [s] + tail) && FromLevel(c, output, [s] + tail, LevelOf(c, output, s))
  {
    var order := [s] + tail;
    forall i, j | 0 <= i < j < |order| ensures LevelOf(c, output, order[i]) <= LevelOf(c, output, order[j]) {
      if i > 0 {
        assert LevelOf(c, output, tail[i - 1]) <= LevelOf(c, output, tail[j - 1]);
      }
    }
  }

  /** Breadth-first order is by level. */
  lemma {:induction false} VisitsByLevel(c: Catalog, output: string, queue: seq<string>, seen: set<string>)
    requires c.Exact() && EqualPaths(c.Graph(), output) && Levelled(c, output, queue)
    ensures ByLevel(c, output, Visits(c, queue, seen))
    ensures queue != [] ==> FromLevel(c, output, Visits(c, queue, seen), LevelOf(c, output, queue[0]))
    decreases c.definitions.Keys - seen, |queue|
  {
    if queue != [] {
      var s, rest := queue[0], queue[1..];
      assert Above(c, output, s);
      if s in seen {
        VisitsByLevel(c, output, rest, seen);
      } else {
        ParentsAreOneLevelUp(c, output, s);
        NextQueueIsLevelled(c, output, queue, c.Parents(c.Output(s)));
        assert s in c.definitions.Keys - seen;
        var next := rest + c.Parents(c.Output(s));
        VisitsByLevel(c, output, next, seen + {s});
        PrependByLevel(c, output, s, Visits(c, next, seen + {s}));
      }
    }
  }

  lemma FirstQueueIsLevelled(c: Catalog, output: string)
    requires c.Exact() && EqualPaths(c.Graph(), output)
    ensures Levelled(c, output, c.Parents(output))
  {
    FirstParentsAreAbove(c, output);
    ReachesItself(c.Graph(), output);
    forall s | s in c.Parents(output) ensures LevelOf(c, output, s) == Level(c.Graph(), output, output) + 1 {
      assert c.IsParent(s, output);
      c.GraphEdges(s);
      MembersAreOneLevelDown(c.Graph(), output, c.Output(s), output);
    }
    assert forall i | 0 <= i < |c.Parents(output)| :: c.Parents(output)[i] in c.Parents(output);
  }

  /** In an order by level what is on a higher level comes later. */
  lemma HigherLevelIsLater(c: Catalog, output: string, order: seq<string>, k: nat, s: string)
    requires ByLevel(c, output, order) && k < |order| && s in order
    requires LevelOf(c, output, order[k]) < LevelOf(c, output, s)
    ensures s in order[k + 1..]
  {
    forall i | 0 <= i <= k ensures order[i] != s {
      if i < k {
        assert LevelOf(c, output, order[i]) <= LevelOf(c, output, order[k]);
      }
    }
    var i :| 0 <= i < |order| && order[i] == s;
    LaterElements(order, k);
  }

  /** Equal path lengths are enough for one pass. */
  lemma EqualPathsLetDependentsFollow(c: Catalog, output: string)
    requires c.Exact() && EqualPaths(c.Graph(), output)
    ensures DependentsFollow(c, VisitOrder(c, output))
  {
    var order := VisitOrder(c, output);
    FirstQueueIsLevelled(c, output);
    VisitsByLevel(c, output, c.Parents(output), {});
    VisitOrderIsTheAncestors(c, output);
    forall k, s | 0 <= k < |order| && order[k] in c.definitions && c.IsParent(s, c.Output(order[k])) ensures s in order[k + 1..] {
      assert order[k] in order && s in c.Parents(c.Output(order[k]));
      ParentsAreOneLevelUp(c, output, order[k]);
      HigherLevelIsLater(c, output, order, k, s);
    }
  }

  lemma EqualPathsRestore(c: Catalog, output: string)
    requires c.Sound() && EqualPaths(c.Graph(), output)
    ensures OnePassRestores(c, output)
  {
    EqualPathsLetDependentsFollow(c, output);
    OnePassRestoresExactly(c, output);
  }
}
