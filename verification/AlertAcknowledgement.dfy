/**
 Acknowledging an alert and the tree below a summary
 (alert/service.go acknowledgeOneLocked and acknowledgeTreeLocked).
 */
module AlertAcknowledgement {
  import opened Sequences
  import opened AlertModel
  import opened AlertEvaluator
  import opened AlertLedger
  import opened Dependencies

  function AcknowledgeOne(w: World, l: Ledger, subject: string): Ledger {
    if subject !in l.states || !l.states[subject].pending then l
    else
      var drawn := l.(tick := l.tick + 1);
      match Acknowledge(l.states[subject], l.states[subject].episodeId, w.draws(l.tick).now)
      case Err(_) => drawn
      case Ok(next) => StoreAndPublish(w, drawn, subject, next)
  }

  predicate LiveIn(states: map<string, State>, n: string) {
    n in states && Live(states[n])
  }

  /** The recursive walk: live members first, then the subject itself. */
  function AcknowledgeTree(w: World, l: Ledger, g: Graph, subject: string, visiting: set<string>): Ledger
    decreases Nodes(g) + {subject} - visiting, 0
  {
    if subject in visiting then l
    else
      assert subject in Nodes(g) + {subject} - visiting && subject !in Nodes(g) - (visiting + {subject});
      assert forall m <- Members(g, subject) :: m in Nodes(g);
      AcknowledgeOne(w, AcknowledgeMembers(w, l, g, Members(g, subject), visiting + {subject}), subject)
  }

  function AcknowledgeMembers(w: World, l: Ledger, g: Graph, members: seq<string>, visiting: set<string>): Ledger
    requires forall m <- members :: m in Nodes(g)
    decreases Nodes(g) - visiting, |members|
  {
    if members == [] then l
    else
      assert Nodes(g) + {members[0]} == Nodes(g);
      var first := if LiveIn(l.states, members[0]) then AcknowledgeTree(w, l, g, members[0], visiting) else l;
      AcknowledgeMembers(w, first, g, members[1..], visiting)
  }

  // ------------------------------------------------------ what the walk should do

  /** A pending state whose episode can be acknowledged. */
  predicate Acknowledgeable(states: map<string, State>, n: string) {
    n in states && states[n].pending && states[n].episodeId != ""
  }

  /** Acknowledgement changes the two flags and the acknowledgement time, nothing else. */
  predicate IsAcknowledgement(before: State, after: State) {
    && after.ackTime.Some? && after.ackTime.value.zone.Utc?
    && after == before.(pending := false, acknowledged := true, ackTime := after.ackTime)
  }

  /** Exactly the acknowledgeable states of the set have been acknowledged. */
  predicate AcknowledgedIn(before: map<string, State>, after: map<string, State>, done: set<string>) {
    && after.Keys == before.Keys
    && forall n <- before ::
         if n in done && Acknowledgeable(before, n) then IsAcknowledgement(before[n], after[n]) else after[n] == before[n]
  }

  predicate ClosedUnderLiveMembers(g: Graph, states: map<string, State>, done: set<string>) {
    forall n, m | n in done && m in Members(g, n) && LiveIn(states, m) :: m in done
  }

  /** Reachable through members that are active or pending. */
  ghost predicate LivePath(g: Graph, states: map<string, State>, p: seq<string>, a: string, b: string) {
    Connects(g, p, a, b) && forall k | 1 <= k < |p| :: LiveIn(states, p[k])
  }

  ghost predicate LiveReaches(g: Graph, states: map<string, State>, a: string, b: string) {
    exists p :: LivePath(g, states, p, a, b)
  }

  lemma LiveReachesThroughMember(g: Graph, states: map<string, State>, a: string, m: string, b: string)
    requires Edge(g, a, m) && LiveIn(states, m) && LiveReaches(g, states, m, b)
    ensures LiveReaches(g, states, a, b)
  {
    var p :| LivePath(g, states, p, m, b);
    JoinPaths(g, [a], p);
    assert LivePath(g, states, [a] + p, a, b);
  }

  lemma {:induction false} ClosedContainsLivePath(g: Graph, states: map<string, State>, done: set<string>, p: seq<string>, a: string, b: string)
    requires ClosedUnderLiveMembers(g, states, done) && a in done && LivePath(g, states, p, a, b)
    ensures b in done
    decreases |p|
  {
    if |p| > 1 {
      assert Edge(g, p[0], p[0 + 1]);
      DropPath(g, p, 1);
      assert LivePath(g, states, p[1..], p[1], b);
      ClosedContainsLivePath(g, states, done, p[1..], p[1], b);
    }
  }

  function Subjects(attempts: seq<Attempt>): (subjects: seq<string>)
    ensures |subjects| == |attempts|
    ensures forall i | 0 <= i < |attempts| :: subjects[i] == attempts[i].subject
  {
    seq(|attempts|, i requires 0 <= i < |attempts| => attempts[i].subject)
  }

  /** The publications after a point name each newly acknowledged state once. */
  ghost predicate PublishedOnce(states: map<string, State>, log: seq<Attempt>, since: nat, newly: set<string>) {
    && since <= |log|
    && Distinct(Subjects(log[since..]))
    && forall n :: n in Subjects(log[since..]) <==> n in newly && Acknowledgeable(states, n)
  }

  // ------------------------------------------------------ and that it does it

  /** How far the walk has come: the set of finished subjects explains the states and the publications. */
  ghost predicate Progressed(g: Graph, start: map<string, State>, l: Ledger, done: set<string>) {
    && ValidStates(start) && ValidStates(l.states)
    && AcknowledgedIn(start, l.states, done)
    && ClosedUnderLiveMembers(g, start, done)
  }

  ghost predicate Extends(start: map<string, State>, l: Ledger, after: Ledger, done: set<string>, more: set<string>) {
    && done <= more && l.log <= after.log
    && PublishedOnce(start, after.log, |l.log|, more - done)
  }

  lemma ExtendsTwice(start: map<string, State>, a: Ledger, b: Ledger, c: Ledger, d0: set<string>, d1: set<string>, d2: set<string>)
    requires Extends(start, a, b, d0, d1) && Extends(start, b, c, d1, d2)
    ensures Extends(start, a, c, d0, d2)
  {
    var n, m := |a.log|, |b.log|;
    assert c.log[n..] == b.log[n..] + c.log[m..];
    var x, y := Subjects(b.log[n..]), Subjects(c.log[m..]);
    assert Subjects(c.log[n..]) == x + y;
    forall i, j | 0 <= i < j < |x + y| ensures (x + y)[i] != (x + y)[j] {
      if i < |x| <= j {
        assert x[i] in x && y[j - |x|] in y;
      }
    }
  }

  /** What one acknowledgement does, as a relation between the ledgers before and after. */
  predicate OneOutcome(l: Ledger, after: Ledger, subject: string) {
    if Acknowledgeable(l.states, subject) then
      && subject in after.states && IsAcknowledgement(l.states[subject], after.states[subject])
      && after.states == l.states[subject := after.states[subject]]
      && ValidState(after.states[subject])
      && |after.log| == |l.log| + 1 && after.log[..|l.log|] == l.log && after.log[|l.log|].subject == subject
    else after.states == l.states && after.log == l.log
  }

  /** One acknowledgement: refused without an episode, otherwise stored and published once. */
  lemma AcknowledgeOneOutcome(w: World, l: Ledger, subject: string)
    requires ValidStates(l.states)
    ensures OneOutcome(l, AcknowledgeOne(w, l, subject), subject)
  {
  }

  lemma OneOutcomeProgresses(l: Ledger, after: Ledger, g: Graph, start: map<string, State>, done: set<string>, subject: string)
    requires Progressed(g, start, l, done) && OneOutcome(l, after, subject)
    requires forall m | m in Members(g, subject) && LiveIn(start, m) :: m in done
    ensures Progressed(g, start, after, done + {subject})
  {
    OneMoreAcknowledged(l, after, start, done, subject);
  }

  lemma OneMoreAcknowledged(l: Ledger, after: Ledger, start: map<string, State>, done: set<string>, subject: string)
    requires AcknowledgedIn(start, l.states, done) && OneOutcome(l, after, subject)
    ensures AcknowledgedIn(start, after.states, done + {subject})
  {
    forall n | n in start
      ensures if (n in done || n == subject) && Acknowledgeable(start, n) then IsAcknowledgement(start[n], after.states[n])
              else after.states[n] == start[n]
    {
      assert n != subject ==> after.states[n] == l.states[n];
    }
  }

  lemma OneOutcomeExtends(l: Ledger, after: Ledger, start: map<string, State>, done: set<string>, subject: string)
    requires AcknowledgedIn(start, l.states, done) && OneOutcome(l, after, subject)
    ensures Extends(start, l, after, done, done + {subject})
  {
    if Acknowledgeable(l.states, subject) {
      assert after.log[|l.log|..] == [after.log[|l.log|]];
      assert Subjects(after.log[|l.log|..]) == [subject];
    } else {
      assert Subjects(after.log[|l.log|..]) == [];
    }
  }

  lemma AcknowledgeOneStep(w: World, l: Ledger, g: Graph, start: map<string, State>, done: set<string>, subject: string)
    requires Progressed(g, start, l, done)
    requires forall m | m in Members(g, subject) && LiveIn(start, m) :: m in done
    ensures var after := AcknowledgeOne(w, l, subject);
      Progressed(g, start, after, done + {subject}) && Extends(start, l, after, done, done + {subject})
  {
    AcknowledgeOneOutcome(w, l, subject);
    OneOutcomeProgresses(l, AcknowledgeOne(w, l, subject), g, start, done, subject);
    OneOutcomeExtends(l, AcknowledgeOne(w, l, subject), start, done, subject);
  }

  lemma {:induction false} AcknowledgeTreeWalk(
    w: World, l: Ledger, g: Graph, subject: string, stack: seq<string>, start: map<string, State>, done: set<string>)
    returns (more: set<string>)
    requires !Cyclic(g) && StackTo(g, stack, subject) && Progressed(g, start, l, done)
    ensures var after := AcknowledgeTree(w, l, g, subject, Elements(stack));
      Progressed(g, start, after, more) && Extends(start, l, after, done, more)
    ensures subject in more && forall n <- more - done :: LiveReaches(g, start, subject, n)
    decreases Nodes(g) + {subject} - Elements(stack), 0
  {
    if subject in stack {
      StackClosesCycle(g, stack, subject);
    }
    var members := Members(g, subject);
    assert Elements(stack + [subject]) == Elements(stack) + {subject};
    assert subject in Nodes(g) + {subject} - Elements(stack) && subject !in Nodes(g) - Elements(stack + [subject]);
    var below := AcknowledgeMembersWalk(w, l, g, subject, members, stack, start, done);
    var l1 := AcknowledgeMembers(w, l, g, members, Elements(stack + [subject]));
    AcknowledgeOneStep(w, l1, g, start, below, subject);
    more := below + {subject};
    ExtendsTwice(start, l, l1, AcknowledgeOne(w, l1, subject), done, below, more);
    assert LivePath(g, start, [subject], subject, subject);
  }

  lemma {:induction false} AcknowledgeMembersWalk(
    w: World, l: Ledger, g: Graph, subject: string, members: seq<string>, stack: seq<string>, start: map<string, State>, done: set<string>)
    returns (more: set<string>)
    requires !Cyclic(g) && StackTo(g, stack, subject) && subject !in stack && Progressed(g, start, l, done)
    requires forall m <- members :: Edge(g, subject, m) && m in Nodes(g)
    ensures var after := AcknowledgeMembers(w, l, g, members, Elements(stack + [subject]));
      Progressed(g, start, after, more) && Extends(start, l, after, done, more)
    ensures forall m <- members :: LiveIn(start, m) ==> m in more
    ensures forall n <- more - done :: LiveReaches(g, start, subject, n)
    decreases Nodes(g) - Elements(stack + [subject]), |members|
  {
    if members == [] {
      more := done;
      assert Subjects(l.log[|l.log|..]) == [];
    } else {
      var m := members[0];
      var l1 := if LiveIn(l.states, m) then AcknowledgeTree(w, l, g, m, Elements(stack + [subject])) else l;
      var done1 := done;
      assert Subjects(l.log[|l.log|..]) == [];
      if LiveIn(l.states, m) {
        PushStack(g, stack, subject, m);
        assert Nodes(g) + {m} == Nodes(g);
        done1 := AcknowledgeTreeWalk(w, l, g, m, stack + [subject], start, done);
        forall n | n in done1 - done ensures LiveReaches(g, start, subject, n) {
          LiveReachesThroughMember(g, start, subject, m, n);
        }
      }
      more := AcknowledgeMembersWalk(w, l1, g, subject, members[1..], stack, start, done1);
      ExtendsTwice(start, l, l1, AcknowledgeMembers(w, l1, g, members[1..], Elements(stack + [subject])), done, done1, more);
    }
  }

  /**
   Acknowledging a tree of an acyclic graph, diamonds included: every pending state with an episode
   reachable through live members ends acknowledged, each published exactly once; no other state changes.
   */
  lemma TreeIsAcknowledgedOnce(w: World, l: Ledger, g: Graph, subject: string) returns (tree: set<string>)
    requires !Cyclic(g) && ValidStates(l.states)
    ensures var after := AcknowledgeTree(w, l, g, subject, {});
      && (forall n :: n in tree <==> LiveReaches(g, l.states, subject, n))
      && AcknowledgedIn(l.states, after.states, tree)
      && l.log <= after.log && PublishedOnce(l.states, after.log, |l.log|, tree)
      && ValidStates(after.states)
  {
    tree := AcknowledgeTreeWalk(w, l, g, subject, [], l.states, {});
    assert Elements<string>([]) == {};
    assert tree - {} == tree;
    forall n | LiveReaches(g, l.states, subject, n) ensures n in tree {
      var p :| LivePath(g, l.states, p, subject, n);
      ClosedContainsLivePath(g, l.states, tree, p, subject, n);
    }
  }
}
