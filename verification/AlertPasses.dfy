/**
 The initial fixed point (alert/service.go evaluateAllSummariesLocked): why passes over the
 definitions in any order settle one more level of the acyclic graph each.
 */
module AlertPasses {
  import opened Wrappers
  import opened Sequences
  import opened AlertModel
  import opened AlertLedger
  import opened AlertSummaries
  import Dependencies

  /** A definition is a summary by its kind. */
  predicate KindsMatch(c: Catalog) {
    forall s <- c.definitions :: c.IsSummary(s) <==> c.definitions[s].config.kind.SummaryKind?
  }

  lemma SummaryKindIsSummary(c: Catalog, subject: string)
    requires subject in c.definitions && c.ValidDefinition(subject)
    ensures c.IsSummary(subject) <==> c.definitions[subject].config.kind.SummaryKind?
  {
  }

  /** The first n summaries of a topological order are settled. */
  ghost predicate SettledBelow(c: Catalog, states: map<string, State>, order: seq<string>, n: nat) {
    forall i | 0 <= i < n && i < |order| ::
      order[i] in c.byOutput && c.IsSummary(c.byOutput[order[i]]) && Settled(c, states, c.byOutput[order[i]])
  }

  /** A topological order of exactly the summaries' outputs. */
  ghost predicate OrdersSummaries(c: Catalog, order: seq<string>) {
    && Dependencies.Topological(c.Graph(), order)
    && (forall n :: n in order <==> n in c.Graph())
    && (forall i | 0 <= i < |order| :: order[i] in c.byOutput && c.IsSummary(c.byOutput[order[i]]))
  }

  lemma {:induction false} SubsetIsSmaller<T>(a: set<T>, b: set<T>)
    requires a <= b
    ensures |a| <= |b|
  {
    if a != {} {
      var x :| x in a;
      SubsetIsSmaller(a - {x}, b - {x});
    }
  }

  lemma OrderIsShort(c: Catalog, order: seq<string>)
    requires c.Exact() && Dependencies.Topological(c.Graph(), order) && forall n :: n in order <==> n in c.Graph()
    ensures OrdersSummaries(c, order) && |order| <= |c.definitions|
  {
    forall i | 0 <= i < |order| ensures order[i] in c.byOutput && c.IsSummary(c.byOutput[order[i]]) {
      assert order[i] in order;
    }
    var subjects := seq(|order|, i requires 0 <= i < |order| => c.byOutput[order[i]]);
    forall i, j | 0 <= i < j < |subjects| ensures subjects[i] != subjects[j] {
      assert c.Output(subjects[i]) == order[i] && c.Output(subjects[j]) == order[j];
    }
    DistinctLength(subjects, Elements(subjects));
    SubsetIsSmaller(Elements(subjects), c.definitions.Keys);
  }

  lemma SummaryOrder(c: Catalog) returns (order: seq<string>)
    requires c.WellConfigured()
    ensures OrdersSummaries(c, order) && |order| <= |c.definitions| && KindsMatch(c)
  {
    order := Dependencies.AcyclicOrder(c.Graph());
    OrderIsShort(c, order);
    forall s | s in c.definitions ensures c.IsSummary(s) <==> c.definitions[s].config.kind.SummaryKind? {
      SummaryKindIsSummary(c, s);
    }
  }

  /** No summary of a topological order lists the output of a later one. */
  lemma LaterIsNotAMember(c: Catalog, order: seq<string>, i: nat, j: nat)
    requires c.Exact() && OrdersSummaries(c, order) && i < j < |order|
    ensures c.byOutput[order[i]] != c.byOutput[order[j]]
    ensures order[j] !in c.Members(c.byOutput[order[i]])
  {
    assert Dependencies.MembersBefore(c.Graph(), order, i);
    assert order[j] in order;
  }

  ghost predicate OnlySummariesChanged(c: Catalog, before: map<string, State>, after: map<string, State>) {
    forall n :: (forall s | c.IsSummary(s) :: c.Output(s) != n) ==> Find(after, n) == Find(before, n)
  }

  /** The state of a pass: todo is still to be evaluated. */
  ghost predicate InPass(
    c: Catalog, start: map<string, State>, states: map<string, State>, order: seq<string>, n: nat, todo: set<string>, changed: bool)
    requires OrdersSummaries(c, order)
  {
    && SettledBelow(c, states, order, n)
    && (n < |order| && c.byOutput[order[n]] !in todo ==> SettledBelow(c, states, order, n + 1))
    && (!changed ==> states == start && forall s <- c.definitions.Keys - todo | c.IsSummary(s) :: Settled(c, states, s))
    && OnlySummariesChanged(c, start, states)
  }

  /** An evaluation that changes something changes a summary that is not settled, so no earlier one lists it. */
  lemma PassKeepsBelow(c: Catalog, before: map<string, State>, after: map<string, State>, order: seq<string>, n: nat, subject: string)
    requires c.Exact() && OrdersSummaries(c, order) && c.IsSummary(subject)
    requires EvaluationOutcome(c, before, after, subject) && (Settled(c, before, subject) ==> after == before)
    requires SettledBelow(c, before, order, n)
    ensures SettledBelow(c, after, order, n)
  {
    if after != before {
      c.GraphEdges(subject);
      var j :| 0 <= j < |order| && order[j] == c.Output(subject);
      assert j >= n;
      forall i | 0 <= i < n && i < |order| ensures Settled(c, after, c.byOutput[order[i]]) {
        LaterIsNotAMember(c, order, i, j);
        EvaluationKeepsSettled(c, before, after, subject, c.byOutput[order[i]]);
      }
    }
  }

  /** One evaluation in pass n keeps the first n summaries settled, and the next one once it was evaluated. */
  lemma PassSettles(c: Catalog, before: map<string, State>, after: map<string, State>, order: seq<string>, n: nat, subject: string)
    requires c.Exact() && OrdersSummaries(c, order) && c.IsSummary(subject)
    requires EvaluationOutcome(c, before, after, subject) && (Settled(c, before, subject) ==> after == before)
    requires SettledBelow(c, before, order, n)
    ensures SettledBelow(c, after, order, n)
    ensures n < |order| && (subject == c.byOutput[order[n]] || SettledBelow(c, before, order, n + 1)) ==>
      SettledBelow(c, after, order, n + 1)
  {
    PassKeepsBelow(c, before, after, order, n, subject);
    if SettledBelow(c, before, order, n + 1) {
      PassKeepsBelow(c, before, after, order, n + 1, subject);
    }
    EvaluationSettles(c, before, after, subject);
  }

  lemma PassStep(
    c: Catalog, start: map<string, State>, before: map<string, State>, after: map<string, State>,
    order: seq<string>, n: nat, todo: set<string>, changed: bool, subject: string)
    requires c.Exact() && OrdersSummaries(c, order) && c.IsSummary(subject)
    requires EvaluationOutcome(c, before, after, subject) && (Settled(c, before, subject) ==> after == before)
    requires InPass(c, start, before, order, n, todo, changed)
    ensures InPass(c, start, after, order, n, todo - {subject}, changed || Find(before, c.Output(subject)) != Find(after, c.Output(subject)))
  {
    PassSettles(c, before, after, order, n, subject);
    EvaluationSettles(c, before, after, subject);
    assert Find(before, c.Output(subject)) == Find(after, c.Output(subject)) ==> before == after;
  }

  lemma PassSkip(
    c: Catalog, start: map<string, State>, states: map<string, State>,
    order: seq<string>, n: nat, todo: set<string>, changed: bool, subject: string)
    requires OrdersSummaries(c, order) && !c.IsSummary(subject) && InPass(c, start, states, order, n, todo, changed)
    ensures InPass(c, start, states, order, n, todo - {subject}, changed)
  {
  }

  lemma PassDone(
    c: Catalog, first: map<string, State>, start: map<string, State>, states: map<string, State>,
    order: seq<string>, n: nat, changed: bool)
    requires OrdersSummaries(c, order) && InPass(c, start, states, order, n, {}, changed)
    requires OnlySummariesChanged(c, first, start)
    ensures SettledBelow(c, states, order, n + 1) && OnlySummariesChanged(c, first, states)
    ensures !changed ==> AllSettled(c, states)
  {
  }

  lemma AllBelow(c: Catalog, states: map<string, State>, order: seq<string>)
    requires c.Exact() && OrdersSummaries(c, order) && SettledBelow(c, states, order, |order|)
    ensures AllSettled(c, states)
  {
    forall s | s in c.definitions && c.IsSummary(s) ensures Settled(c, states, s) {
      c.GraphEdges(s);
      assert c.Output(s) in order;
    }
  }

  /** All that was done is the evaluation of these summaries, in this order. */
  ghost predicate Walked(w: World, c: Catalog, before: Ledger, after: Ledger, order: seq<string>) {
    Summaries(c, order) && after == Walk(Evaluator(w, c), before, order)
  }

  lemma WalkedOne(w: World, c: Catalog, l: Ledger, subject: string)
    requires c.IsSummary(subject)
    ensures Walked(w, c, l, Evaluate(w, l, c, subject), [subject])
  {
    assert [subject][1..] == [];
    assert Walk(Evaluator(w, c), Evaluate(w, l, c, subject), []) == Evaluate(w, l, c, subject);
  }

  lemma WalkedOn(w: World, c: Catalog, a: Ledger, b: Ledger, d: Ledger, first: seq<string>, second: seq<string>)
    requires Walked(w, c, a, b, first) && Walked(w, c, b, d, second)
    ensures Walked(w, c, a, d, first + second)
  {
    WalkSplits(Evaluator(w, c), a, first, second);
  }
}
