/**
 New alert properties (alert/service.go reconcilePropertyLocked): the leaves that refer to them are
 evaluated one after the other, and the set of summaries seen is shared between their ancestor passes.
 When that leaves every summary settled, for every order of the leaves.
 */
module AlertProperties {
  import opened Wrappers
  import opened Sequences
  import opened AlertModel
  import opened AlertEvaluator
  import opened AlertLedger
  import opened AlertSummaries
  import opened AlertAncestors
  import opened AlertReconcile
  import opened AlertInputs
  import D = Dependencies

  datatype Pass = Pass(ledger: Ledger, seen: set<string>)

  /** One leaf evaluated, and what is above it unless it was seen. */
  function Next(w: World, c: Catalog, p: Pass, leaf: string): Pass
    requires leaf in c.definitions
  {
    var order := Visits(c, c.Parents(c.Output(leaf)), p.seen);
    Pass(Walk(Evaluator(w, c), Evaluate(w, p.ledger, c, leaf), order), p.seen + Elements(order))
  }

  function PassAfter(w: World, l: Ledger, c: Catalog, leaves: seq<string>): Pass
    requires forall s <- leaves :: s in c.definitions
  {
    if leaves == [] then Pass(l, {})
    else Next(w, c, PassAfter(w, l, c, leaves[..|leaves| - 1]), leaves[|leaves| - 1])
  }

  /** A leaf that a property message makes the service evaluate. */
  predicate Refers(c: Catalog, property: string, s: string) {
    s in c.definitions && Affected(c.definitions[s], property)
  }

  predicate Leaves(c: Catalog, leaves: seq<string>) {
    forall s <- leaves :: s in c.definitions && IsLeaf(c, s)
  }

  /** Any order of exactly those leaves. */
  ghost predicate Lists(c: Catalog, property: string, leaves: seq<string>) {
    Distinct(leaves) && forall s :: s in leaves <==> Refers(c, property, s)
  }

  /** What a leaf evaluates to, from its input alone. */
  function LeafResult(c: Catalog, leaf: string): Option<Evaluation>
    requires leaf in c.definitions
  {
    EvaluationOf(c.definitions[leaf], c.properties, map[])
  }

  lemma LeafResultIsEvaluation(c: Catalog, leaf: string, states: map<string, State>)
    requires IsLeaf(c, leaf)
    ensures EvaluationOf(c.definitions[leaf], c.properties, states) == LeafResult(c, leaf)
  {
  }

  /** From any settled start the property message leaves every summary settled, whatever the order of the leaves. */
  ghost predicate PassesSettle(c: Catalog, property: string) {
    forall w: World, l: Ledger, leaves: seq<string> |
      ValidStates(l.states) && AllSettled(c, l.states) && Lists(c, property, leaves) ::
      AllSettled(c, PassAfter(w, l, c, leaves).ledger.states)
  }

  ghost predicate Shared(c: Catalog, x: string, y: string, s: string)
    requires x in c.definitions && y in c.definitions
  {
    Above(c, c.Output(x), s) && Above(c, c.Output(y), s)
  }

  /** No summary above a leaf with a result is above another leaf of the list, and dependents follow in its pass. */
  ghost predicate Separate(c: Catalog, leaves: seq<string>)
    requires forall s <- leaves :: s in c.definitions
  {
    forall x <- leaves | LeafResult(c, x).Some? ::
      DependentsFollow(c, VisitOrder(c, c.Output(x))) && forall y, s | y in leaves && y != x :: !Shared(c, x, y, s)
  }

  lemma PassExtends(w: World, l: Ledger, c: Catalog, leaves: seq<string>, x: string)
    requires Leaves(c, leaves) && x in c.definitions
    ensures PassAfter(w, l, c, leaves + [x]) == Next(w, c, PassAfter(w, l, c, leaves), x)
  {
    assert (leaves + [x])[..|leaves|] == leaves;
  }

  /** The leaves of the list agree with the properties, all other leaves have their old state. */
  ghost predicate Refreshed(c: Catalog, before: map<string, State>, after: map<string, State>, leaves: seq<string>) {
    forall s | IsLeaf(c, s) ::
      if s in leaves then LeafAgrees(c, after, s) else Find(after, c.Output(s)) == Find(before, c.Output(s))
  }

  lemma {:induction false} PassRefreshes(w: World, l: Ledger, c: Catalog, leaves: seq<string>)
    requires c.Exact() && ValidStates(l.states) && Leaves(c, leaves) && Distinct(leaves)
    ensures var after := PassAfter(w, l, c, leaves).ledger.states; ValidStates(after) && Refreshed(c, l.states, after, leaves)
  {
    if leaves != [] {
      var before, x := leaves[..|leaves| - 1], leaves[|leaves| - 1];
      assert leaves == before + [x] && x in leaves;
      PassRefreshes(w, l, c, before);
      NextRefreshes(w, l.states, c, PassAfter(w, l, c, before), before, x);
    }
  }

  lemma NextRefreshes(w: World, start: map<string, State>, c: Catalog, p: Pass, leaves: seq<string>, x: string)
    requires c.Exact() && ValidStates(p.ledger.states) && IsLeaf(c, x) && Refreshed(c, start, p.ledger.states, leaves)
    ensures ValidStates(Next(w, c, p, x).ledger.states) && Refreshed(c, start, Next(w, c, p, x).ledger.states, leaves + [x])
  {
    var after := Next(w, c, p, x).ledger.states;
    VisitsAreSummaries(c, c.Output(x), p.seen);
    LeafEvaluation(w, p.ledger, c, x, Visits(c, c.Parents(c.Output(x)), p.seen));
    forall s | IsLeaf(c, s) && s in leaves && s != x ensures LeafAgrees(c, after, s) {
      LeafAgreesFrame(c, p.ledger.states, after, s);
    }
  }

  /** How far a loop over the definitions has come: the leaves done, in order. */
  ghost predicate Progress(c: Catalog, property: string, done: seq<string>, todo: set<string>) {
    && Distinct(done) && todo <= c.definitions.Keys
    && forall s :: s in done <==> s !in todo && Refers(c, property, s)
  }

  // ---------------------------------------------------------------- separate leaves settle

  lemma {:induction false} VisitsIgnoreOthers(c: Catalog, output: string, queue: seq<string>, seen: set<string>, others: set<string>)
    requires c.Exact() && (forall s <- queue :: Above(c, output, s)) && forall s <- others :: !Above(c, output, s)
    ensures Visits(c, queue, seen + others) == Visits(c, queue, seen)
    decreases c.definitions.Keys - seen, |queue|
  {
    if queue != [] {
      var subject, rest := queue[0], queue[1..];
      assert Above(c, output, subject);
      if subject in seen {
        VisitsIgnoreOthers(c, output, rest, seen, others);
      } else {
        assert subject in c.definitions.Keys - seen;
        AboveReaches(c, output, subject);
        var parents := c.Parents(c.Output(subject));
        forall s | s in parents ensures Above(c, output, s) {
          ParentIsAbove(c, output, c.Output(subject), s);
        }
        VisitsIgnoreOthers(c, output, rest + parents, seen + {subject}, others);
        assert seen + others + {subject} == seen + {subject} + others;
      }
    }
  }

  /** Everything seen is above some leaf of the list. */
  lemma {:induction false} SeenIsAbove(w: World, l: Ledger, c: Catalog, leaves: seq<string>)
    requires c.Exact() && forall x <- leaves :: x in c.definitions
    ensures forall s <- PassAfter(w, l, c, leaves).seen :: exists x <- leaves :: Above(c, c.Output(x), s)
  {
    if leaves != [] {
      var before, last := leaves[..|leaves| - 1], leaves[|leaves| - 1];
      SeenIsAbove(w, l, c, before);
      FirstParentsAreAbove(c, c.Output(last));
      VisitsAreAbove(c, c.Output(last), c.Parents(c.Output(last)), PassAfter(w, l, c, before).seen);
      forall s | s in PassAfter(w, l, c, leaves).seen ensures exists x <- leaves :: Above(c, c.Output(x), s) {
        if s in PassAfter(w, l, c, before).seen {
          var x :| x in before && Above(c, c.Output(x), s);
          assert x in leaves;
        } else {
          assert last in leaves && Above(c, c.Output(last), s);
        }
      }
    }
  }

  /** Where everything is settled a walk has nothing to do. */
  lemma {:induction false} SettledWalkIsStill(w: World, l: Ledger, c: Catalog, order: seq<string>)
    requires ValidStates(l.states) && AllSettled(c, l.states) && Summaries(c, order)
    ensures Walk(Evaluator(w, c), l, order).states == l.states
    decreases |order|
  {
    if order != [] {
      assert order[0] in order;
      SettledIsFixedPoint(w, l, c, order[0]);
      SettledWalkIsStill(w, Evaluate(w, l, c, order[0]), c, order[1..]);
    }
  }

  /** A pass over all of its ancestors after the evaluation of one leaf. */
  lemma LeafPassSettles(w: World, l: Ledger, c: Catalog, leaf: string)
    requires c.Exact() && ValidStates(l.states) && AllSettled(c, l.states) && IsLeaf(c, leaf)
    requires DependentsFollow(c, VisitOrder(c, c.Output(leaf)))
    ensures AllSettled(c, Ascend(w, Evaluate(w, l, c, leaf), c, c.Output(leaf)).states)
  {
    EvaluateChangesOutput(w, l, c, leaf);
    AscendSettles(w, l.states, Evaluate(w, l, c, leaf), c, c.Output(leaf));
    forall s | s in c.definitions && c.IsSummary(s) ensures c.Output(s) != c.Output(leaf) {
      c.OutputsDiffer(s, leaf);
    }
  }

  lemma InputKeepsSettled(w: World, l: Ledger, before: Catalog, subject: string, value: Input)
    requires before.Exact() && ValidStates(l.states) && IsLeaf(before, subject) && WithInput(before, subject, value).Exact()
    ensures var c := WithInput(before, subject, value);
      AllSettled(before, l.states) && DependentsFollow(c, VisitOrder(c, c.Output(subject))) ==>
        AllSettled(c, Ascend(w, Evaluate(w, l, c, subject), c, c.Output(subject)).states)
  {
    var c := WithInput(before, subject, value);
    if AllSettled(before, l.states) && DependentsFollow(c, VisitOrder(c, c.Output(subject))) {
      SettledWhateverTheInput(before, subject, value, l.states);
      LeafPassSettles(w, l, c, subject);
    }
  }

  /** The leaves evaluated so far and everything not above them are no obstacle to the next leaf. */
  lemma UnsharedPassIsWhole(w: World, l: Ledger, c: Catalog, before: seq<string>, x: string)
    requires c.Exact() && x in c.definitions && (forall y <- before :: y in c.definitions)
    requires forall y, s | y in before :: !Shared(c, x, y, s)
    ensures Visits(c, c.Parents(c.Output(x)), PassAfter(w, l, c, before).seen) == VisitOrder(c, c.Output(x))
  {
    var seen := PassAfter(w, l, c, before).seen;
    SeenIsAbove(w, l, c, before);
    forall s | s in seen ensures !Above(c, c.Output(x), s) {
      var y :| y in before && Above(c, c.Output(y), s);
      assert !Shared(c, x, y, s);
    }
    FirstParentsAreAbove(c, c.Output(x));
    VisitsIgnoreOthers(c, c.Output(x), c.Parents(c.Output(x)), {}, seen);
    assert {} + seen == seen;
  }

  lemma {:induction false} SeparateLeavesSettle(w: World, l: Ledger, c: Catalog, leaves: seq<string>)
    requires c.Exact() && ValidStates(l.states) && AllSettled(c, l.states)
    requires Distinct(leaves) && Leaves(c, leaves) && Separate(c, leaves)
    ensures ValidStates(PassAfter(w, l, c, leaves).ledger.states) && AllSettled(c, PassAfter(w, l, c, leaves).ledger.states)
  {
    if leaves != [] {
      var before, x := leaves[..|leaves| - 1], leaves[|leaves| - 1];
      assert leaves == before + [x] && x !in before;
      assert forall y <- before :: y in leaves;
      SeparateLeavesSettle(w, l, c, before);
      var p := PassAfter(w, l, c, before);
      PassStaysValid(w, c, p, x);
      LeafResultIsEvaluation(c, x, p.ledger.states);
      if LeafResult(c, x).Some? {
        forall y, s | y in before ensures !Shared(c, x, y, s) {
          assert y in leaves && y != x;
        }
        UnsharedPassIsWhole(w, l, c, before, x);
        LeafPassSettles(w, p.ledger, c, x);
      } else {
        VisitsAreSummaries(c, c.Output(x), p.seen);
        SettledWalkIsStill(w, p.ledger, c, Visits(c, c.Parents(c.Output(x)), p.seen));
      }
    }
  }

  lemma PassStaysValid(w: World, c: Catalog, p: Pass, x: string)
    requires c.Exact() && x in c.definitions && ValidStates(p.ledger.states)
    ensures ValidStates(Next(w, c, p, x).ledger.states)
  {
    EvaluatorEvaluates(w, c);
    EvaluateChangesOutput(w, p.ledger, c, x);
    VisitsAreSummaries(c, c.Output(x), p.seen);
    WalkStaysValid(Evaluator(w, c), Evaluate(w, p.ledger, c, x), c, Visits(c, c.Parents(c.Output(x)), p.seen));
  }

  // ---------------------------------------------------------------- and others do not

  /** Active with at least the given priority. */
  predicate Loud(states: map<string, State>, n: string, priority: int) {
    n in states && states[n].active && states[n].presentation.priority >= priority
  }

  /** A summary evaluated with a loud member is loud. */
  lemma LoudMemberMakesLoud(c: Catalog, before: map<string, State>, after: map<string, State>, s: string, m: string, priority: int)
    requires c.Exact() && Complete(c, before) && c.IsSummary(s) && EvaluationOutcome(c, before, after, s)
    requires m in c.Members(s) && Loud(before, m, priority)
    ensures Loud(after, c.Output(s), priority)
  {
    var members := c.Members(s);
    c.GraphEdges(s);
    SummaryMeaning(members, before);
    var d := ActiveSummaryHasDominant(members, before);
  }

  lemma CompleteStays(c: Catalog, before: map<string, State>, after: map<string, State>)
    requires Complete(c, before) && ValidStates(after) && before.Keys <= after.Keys
    ensures Complete(c, after)
  {
    forall s | s in c.definitions && c.IsSummary(s) ensures c.Output(s) in after && Present(c.Members(s), after) {
      assert Present(c.Members(s), before);
    }
  }

  /** A walk keeps every state known. */
  lemma {:induction false} WalkKeepsComplete(step: Step, l: Ledger, c: Catalog, order: seq<string>)
    requires Evaluates(c, step) && Complete(c, l.states) && Summaries(c, order)
    ensures Complete(c, Walk(step, l, order).states) && l.states.Keys <= Walk(step, l, order).states.Keys
    decreases |order|
  {
    if order != [] {
      var next := step(l, order[0]);
      assert order[0] in order;
      assert EvaluationOutcome(c, l.states, next.states, order[0]);
      assert ValidStates(next.states);
      CompleteStays(c, l.states, next.states);
      WalkKeepsComplete(step, next, c, order[1..]);
    }
  }

  /** The output and everything above it is loud. */
  ghost predicate LoudAbove(c: Catalog, states: map<string, State>, output: string, priority: int) {
    Loud(states, output, priority) && forall s | Above(c, output, s) :: Loud(states, c.Output(s), priority)
  }

  lemma LoudMember(c: Catalog, states: map<string, State>, output: string, priority: int, s: string) returns (m: string)
    requires c.Exact() && LoudAbove(c, states, output, priority) && Above(c, output, s)
    ensures m in c.Members(s) && Loud(states, m, priority)
  {
    m :| m in c.Members(s) && D.Reaches(c.Graph(), m, output);
    if m != output {
      var n := D.ReachesSplits(c.Graph(), m, output);
      assert Above(c, output, c.byOutput[m]);
    }
  }

  lemma LoudStays(c: Catalog, before: map<string, State>, after: map<string, State>, t: string, output: string, s: string, priority: int)
    requires c.Exact() && Complete(c, before) && c.IsSummary(t) && EvaluationOutcome(c, before, after, t)
    requires output !in c.Graph() && LoudAbove(c, before, output, priority) && Above(c, output, s)
    ensures Loud(after, c.Output(s), priority)
  {
    if s == t {
      c.GraphEdges(t);
      var m := LoudMember(c, before, output, priority, s);
      LoudMemberMakesLoud(c, before, after, s, m, priority);
    } else {
      c.OutputsDiffer(s, t);
    }
  }

  lemma EvaluationStaysLoud(
    c: Catalog, before: map<string, State>, after: map<string, State>, t: string, output: string, priority: int)
    requires c.Exact() && Complete(c, before) && c.IsSummary(t) && EvaluationOutcome(c, before, after, t)
    requires output !in c.Graph() && LoudAbove(c, before, output, priority)
    ensures LoudAbove(c, after, output, priority)
  {
    forall s | Above(c, output, s) ensures Loud(after, c.Output(s), priority) {
      LoudStays(c, before, after, t, output, s, priority);
    }
  }

  /** Evaluating summaries cannot quieten what is above an output that stays loud. */
  lemma {:induction false} WalkStaysLoud(step: Step, l: Ledger, c: Catalog, order: seq<string>, output: string, priority: int)
    requires c.Exact() && Evaluates(c, step) && Complete(c, l.states) && Summaries(c, order)
    requires output !in c.Graph() && LoudAbove(c, l.states, output, priority)
    ensures LoudAbove(c, Walk(step, l, order).states, output, priority)
    decreases |order|
  {
    if order != [] {
      var t, next := order[0], step(l, order[0]);
      assert t in order;
      assert EvaluationOutcome(c, l.states, next.states, t);
      assert ValidStates(next.states);
      CompleteStays(c, l.states, next.states);
      EvaluationStaysLoud(c, l.states, next.states, t, output, priority);
      WalkStaysLoud(step, next, c, order[1..], output, priority);
    }
  }

  /** A summary the first leaf's pass evaluated is never evaluated again. */
  lemma {:induction false} SeenStays(w: World, l: Ledger, c: Catalog, leaves: seq<string>, s: string)
    requires c.Exact() && Complete(c, l.states) && leaves != [] && Leaves(c, leaves)
    requires c.IsSummary(s) && s in PassAfter(w, l, c, leaves[..1]).seen
    ensures var first, last := PassAfter(w, l, c, leaves[..1]), PassAfter(w, l, c, leaves);
      && Complete(c, last.ledger.states) && s in last.seen
      && Find(last.ledger.states, c.Output(s)) == Find(first.ledger.states, c.Output(s))
  {
    var before, x := leaves[..|leaves| - 1], leaves[|leaves| - 1];
    if |leaves| == 1 {
      assert leaves[..1] == leaves && PassAfter(w, l, c, []).ledger == l;
      NextStaysComplete(w, c, Pass(l, {}), x);
    } else {
      assert before[..1] == leaves[..1];
      SeenStays(w, l, c, before, s);
      NextStaysComplete(w, c, PassAfter(w, l, c, before), x);
      NextSkipsSeen(w, c, PassAfter(w, l, c, before), x, s);
    }
  }

  lemma NextStaysComplete(w: World, c: Catalog, p: Pass, x: string)
    requires c.Exact() && Complete(c, p.ledger.states) && IsLeaf(c, x)
    ensures Complete(c, Next(w, c, p, x).ledger.states)
  {
    var next := Evaluate(w, p.ledger, c, x);
    EvaluateChangesOutput(w, p.ledger, c, x);
    CompleteStays(c, p.ledger.states, next.states);
    EvaluatorEvaluates(w, c);
    VisitsAreSummaries(c, c.Output(x), p.seen);
    WalkKeepsComplete(Evaluator(w, c), next, c, Visits(c, c.Parents(c.Output(x)), p.seen));
  }

  lemma NextSkipsSeen(w: World, c: Catalog, p: Pass, x: string, s: string)
    requires c.Exact() && ValidStates(p.ledger.states) && IsLeaf(c, x) && c.IsSummary(s) && s in p.seen
    ensures Find(Next(w, c, p, x).ledger.states, c.Output(s)) == Find(p.ledger.states, c.Output(s))
  {
    var next := Evaluate(w, p.ledger, c, x);
    var order := Visits(c, c.Parents(c.Output(x)), p.seen);
    EvaluateChangesOutput(w, p.ledger, c, x);
    c.OutputsDiffer(s, x);
    FirstParentsAreAbove(c, c.Output(x));
    VisitsOnce(c, c.Parents(c.Output(x)), p.seen);
    EvaluatorEvaluates(w, c);
    forall t | t in order ensures c.IsSummary(t) && c.Output(t) != c.Output(s) {
      c.OutputsDiffer(s, t);
    }
    WalkFrame(Evaluator(w, c), next, c, order, c.Output(s));
  }

  /** All results of the leaves are quieter than the priority. */
  ghost predicate ResultsBelow(c: Catalog, leaves: seq<string>, priority: int)
    requires forall x <- leaves :: x in c.definitions
  {
    forall x <- leaves | LeafResult(c, x).Some? :: LeafResult(c, x).value.presentation.priority < priority
  }

  /** Outside the summaries nothing is loud, except one output while its leaf is still to come. */
  ghost predicate QuietBut(c: Catalog, states: map<string, State>, output: string, done: bool, priority: int) {
    forall n | n !in c.Graph() && Loud(states, n, priority) :: n == output && !done
  }

  lemma EvaluatedLeafIsQuiet(w: World, l: Ledger, c: Catalog, x: string, output: string, done: bool, priority: int)
    requires c.Exact() && ValidStates(l.states) && IsLeaf(c, x) && QuietBut(c, l.states, output, done, priority)
    requires LeafResult(c, x).Some? ==> LeafResult(c, x).value.presentation.priority < priority
    ensures QuietBut(c, Evaluate(w, l, c, x).states, output, done || (c.Output(x) == output && LeafResult(c, x).Some?), priority)
  {
    EvaluateChangesOutput(w, l, c, x);
    EvaluatedLeafAgrees(w, l, c, x);
    LeafResultIsEvaluation(c, x, Evaluate(w, l, c, x).states);
    LeafResultIsEvaluation(c, x, l.states);
  }

  lemma NextIsQuiet(w: World, c: Catalog, p: Pass, x: string, output: string, done: bool, priority: int)
    requires c.Exact() && ValidStates(p.ledger.states) && IsLeaf(c, x)
    requires QuietBut(c, p.ledger.states, output, done, priority)
    requires LeafResult(c, x).Some? ==> LeafResult(c, x).value.presentation.priority < priority
    ensures QuietBut(c, Next(w, c, p, x).ledger.states, output, done || (c.Output(x) == output && LeafResult(c, x).Some?), priority)
  {
    var next := Evaluate(w, p.ledger, c, x);
    var order := Visits(c, c.Parents(c.Output(x)), p.seen);
    EvaluateChangesOutput(w, p.ledger, c, x);
    EvaluatedLeafIsQuiet(w, p.ledger, c, x, output, done, priority);
    EvaluatorEvaluates(w, c);
    VisitsAreSummaries(c, c.Output(x), p.seen);
    forall n | n !in c.Graph() ensures Find(Walk(Evaluator(w, c), next, order).states, n) == Find(next.states, n) {
      WalkKeepsOthers(Evaluator(w, c), next, c, order, n);
    }
  }

  lemma {:induction false} PassIsQuiet(w: World, l: Ledger, c: Catalog, leaves: seq<string>, x: string, priority: int)
    requires c.Exact() && ValidStates(l.states) && Leaves(c, leaves) && ResultsBelow(c, leaves, priority)
    requires IsLeaf(c, x) && LeafResult(c, x).Some? && QuietBut(c, l.states, c.Output(x), false, priority)
    ensures ValidStates(PassAfter(w, l, c, leaves).ledger.states)
    ensures QuietBut(c, PassAfter(w, l, c, leaves).ledger.states, c.Output(x), x in leaves, priority)
  {
    if leaves != [] {
      var before, last := leaves[..|leaves| - 1], leaves[|leaves| - 1];
      assert leaves == before + [last] && last in leaves;
      assert forall y <- before :: y in leaves;
      PassIsQuiet(w, l, c, before, x, priority);
      PassStaysValid(w, c, PassAfter(w, l, c, before), last);
      NextIsQuiet(w, c, PassAfter(w, l, c, before), last, c.Output(x), x in before, priority);
      if last != x {
        c.OutputsDiffer(last, x);
      }
    }
  }

  lemma LoudSummaryHasLoudLeaf(c: Catalog, states: map<string, State>, s: string, priority: int)
    requires c.Sound() && Complete(c, states) && c.IsSummary(s) && Loud(states, c.Output(s), priority)
    ensures AllSettled(c, states) ==> exists leaf :: leaf !in c.Graph() && Loud(states, leaf, priority)
  {
    if AllSettled(c, states) {
      SettledSummariesAreFlat(c, states, s);
      var leaf :| ActiveLeafBelow(c, states, c.Output(s), leaf)
        && states[leaf].presentation.priority == states[c.Output(s)].presentation.priority;
      assert Loud(states, leaf, priority);
    }
  }

  // ---------------------------------------------------------------- a loud start

  function Shouting(priority: int): State {
    ALARM.(presentation := Presentation("AlertProperties.p", "c", "a", "s", priority, false))
  }

  lemma ReferenceIsValid()
    ensures ValidPropertyReference("AlertProperties.p")
  {
    ReferenceIsSubject();
    assert |PROPERTIES_PREFIX| == 16;
    assert "AlertProperties.p" == PROPERTIES_PREFIX + "p";
  }

  lemma ReferenceIsSubject()
    ensures ValidSubject("AlertProperties.p")
  {
    var s := "AlertProperties.p";
    assert |s| == 17;
    assert forall i | 0 <= i < 17 :: s[i] !in " \t\r\n*>";
    assert forall i | 0 <= i < 17 && i != 15 :: s[i] != '.';
  }

  lemma WordIsNotBlank(word: string)
    requires word != "" && !IsSpace(word[0])
    ensures !Blank(word)
  {
    assert word[0] in word;
  }

  lemma ShoutingIsValid(priority: int)
    ensures ValidState(Shouting(priority))
  {
    ReferenceIsValid();
    WordIsNotBlank("c");
    WordIsNotBlank("a");
    WordIsNotBlank("s");
  }

  /** The owners of some outputs, in their order. */
  ghost predicate Own(c: Catalog, order: seq<string>, outputs: seq<string>) {
    |order| == |outputs| && forall k | 0 <= k < |order| :: c.IsSummary(order[k]) && c.Output(order[k]) == outputs[k]
  }

  lemma Owners(c: Catalog, outputs: seq<string>) returns (order: seq<string>)
    requires c.Exact() && forall n <- outputs :: n in c.Graph()
    ensures Own(c, order, outputs)
  {
    forall k | 0 <= k < |outputs| ensures outputs[k] in c.byOutput && c.IsSummary(c.byOutput[outputs[k]]) {
      assert outputs[k] in outputs;
    }
    order := seq(|outputs|, k requires 0 <= k < |outputs| => c.byOutput[outputs[k]]);
  }

  lemma OwnersAreDistinct(c: Catalog, order: seq<string>, outputs: seq<string>)
    requires Own(c, order, outputs) && Distinct(outputs)
    ensures Distinct(order) && Summaries(c, order)
  {
    forall i, j | 0 <= i < j < |order| ensures order[i] != order[j] {
      assert c.Output(order[i]) == outputs[i] && c.Output(order[j]) == outputs[j];
    }
  }

  lemma OwnerIsIn(c: Catalog, order: seq<string>, outputs: seq<string>, s: string)
    requires c.Exact() && Own(c, order, outputs) && c.IsSummary(s) && c.Output(s) in outputs
    ensures s in order
  {
    var i :| 0 <= i < |outputs| && outputs[i] == c.Output(s);
    assert c.byOutput[c.Output(order[i])] == order[i] && c.byOutput[c.Output(s)] == s;
  }

  /** All summaries in an order that visits members first. */
  lemma MembersFirst(c: Catalog) returns (order: seq<string>)
    requires c.Sound()
    ensures Distinct(order) && Summaries(c, order) && (forall s | c.IsSummary(s) :: s in order) && DependentsFollow(c, order)
  {
    var outputs := D.AcyclicOrder(c.Graph());
    order := Owners(c, outputs);
    OwnersAreDistinct(c, order, outputs);
    forall s | c.IsSummary(s) ensures s in order {
      c.GraphEdges(s);
      OwnerIsIn(c, order, outputs, s);
    }
    forall i, s | 0 <= i < |order| && order[i] in c.definitions && c.IsParent(s, c.Output(order[i])) ensures s in order[i + 1..] {
      assert outputs[i] in outputs;
      MembersComeEarlier(c, outputs, order, i, s);
    }
  }

  lemma MembersComeEarlier(c: Catalog, outputs: seq<string>, order: seq<string>, i: nat, s: string)
    requires c.Exact() && D.Topological(c.Graph(), outputs) && |order| == |outputs| && i < |order|
    requires forall k | 0 <= k < |order| :: order[k] in c.definitions && c.Output(order[k]) == outputs[k]
    requires outputs[i] in c.Graph() && c.IsParent(s, outputs[i]) && s in order
    ensures s in order[i + 1..]
  {
    var j :| 0 <= j < |order| && order[j] == s;
    c.GraphEdges(s);
    assert D.MembersBefore(c.Graph(), outputs, j);
    var k :| 0 <= k < j && outputs[k] == outputs[i];
    LaterElements(order, i);
  }

  /** Any complete states can be settled without touching a leaf. */
  lemma Settleable(w: World, l: Ledger, c: Catalog, output: string) returns (settled: Ledger)
    requires c.Sound() && Complete(c, l.states) && output !in c.Graph()
    ensures Complete(c, settled.states) && AllSettled(c, settled.states)
    ensures forall n | n !in c.Graph() :: Find(settled.states, n) == Find(l.states, n)
  {
    var step, order := Evaluator(w, c), [];
    order := MembersFirst(c);
    settled := Walk(step, l, order);
    EvaluatorEvaluates(w, c);
    WalkKeepsComplete(step, l, c, order);
    WalkSettles(step, l, c, output, order);
    SettledApartFromLeaf(c, settled.states, output);
    forall n | n !in c.Graph() ensures Find(settled.states, n) == Find(l.states, n) {
      WalkKeepsOthers(step, l, c, order, n);
    }
  }

  lemma SettledApartFromLeaf(c: Catalog, states: map<string, State>, output: string)
    requires c.Exact() && output !in c.Graph() && SettledApartFrom(c, states, output)
    ensures AllSettled(c, states)
  {
    forall s | s in c.definitions && c.IsSummary(s) ensures c.Output(s) != output {
      c.GraphEdges(s);
    }
  }

  lemma WalkKeepsOthers(step: Step, l: Ledger, c: Catalog, order: seq<string>, n: string)
    requires c.Exact() && Evaluates(c, step) && ValidStates(l.states) && Summaries(c, order) && n !in c.Graph()
    ensures Find(Walk(step, l, order).states, n) == Find(l.states, n)
  {
    forall s | s in order ensures c.IsSummary(s) && c.Output(s) != n {
      c.GraphEdges(s);
    }
    WalkFrame(step, l, c, order, n);
  }

  lemma SettledIsLoudAbove(c: Catalog, states: map<string, State>, output: string, priority: int)
    requires c.Sound() && Complete(c, states) && AllSettled(c, states)
    requires output !in c.Graph() && Loud(states, output, priority)
    ensures LoudAbove(c, states, output, priority)
  {
    forall s | Above(c, output, s) ensures Loud(states, c.Output(s), priority) {
      AboveReaches(c, output, s);
      SettledSummariesAreFlat(c, states, s);
      assert ActiveLeafBelow(c, states, c.Output(s), output);
    }
  }

  /** A settled start in which one leaf is loud and all other leaves are quiet. */
  lemma LoudStart(w: World, c: Catalog, x: string, priority: int) returns (l: Ledger)
    requires c.Sound() && IsLeaf(c, x)
    ensures Complete(c, l.states) && AllSettled(c, l.states) && c.Output(x) !in c.Graph()
    ensures LoudAbove(c, l.states, c.Output(x), priority) && QuietBut(c, l.states, c.Output(x), false, priority)
  {
    var quiet, output := QuietStates(c), c.Output(x);
    QuietIsSettled(c);
    ShoutingIsValid(priority);
    var start := Ledger(quiet[output := Shouting(priority)], {}, [], 0);
    CompleteStays(c, quiet, start.states);
    l := Settleable(w, start, c, output);
    assert Find(l.states, output) == Find(start.states, output);
    SettledIsLoudAbove(c, l.states, output, priority);
    forall n | n !in c.Graph() && Loud(l.states, n, priority) ensures n == output {
      assert Find(l.states, n) == Find(start.states, n);
    }
  }

  // ---------------------------------------------------------------- the first pass goes wrong

  /** What a first pass leaves behind when it cannot be repaired: a loud summary that is not evaluated again. */
  predicate LeftLoud(c: Catalog, p: Pass, s: string, priority: int) {
    c.IsSummary(s) && s in p.seen && Loud(p.ledger.states, c.Output(s), priority)
  }

  lemma SharedIsLeftLoud(w: World, l: Ledger, c: Catalog, x: string, y: string, s: string, priority: int)
    requires c.Sound() && Complete(c, l.states) && IsLeaf(c, x) && IsLeaf(c, y) && x != y && Shared(c, x, y, s)
    requires c.Output(x) !in c.Graph() && LoudAbove(c, l.states, c.Output(x), priority)
    ensures LeftLoud(c, PassAfter(w, l, c, [y]), s, priority)
  {
    var next, order := Evaluate(w, l, c, y), VisitOrder(c, c.Output(y));
    OtherLeafStaysLoud(w, l, c, x, y, priority);
    EvaluatorEvaluates(w, c);
    VisitsAreSummaries(c, c.Output(y), {});
    WalkStaysLoud(Evaluator(w, c), next, c, order, c.Output(x), priority);
    VisitOrderIsTheAncestors(c, c.Output(y));
    FirstPass(w, l, c, y);
  }

  lemma OtherLeafStaysLoud(w: World, l: Ledger, c: Catalog, x: string, y: string, priority: int)
    requires c.Exact() && Complete(c, l.states) && IsLeaf(c, x) && IsLeaf(c, y) && x != y
    requires LoudAbove(c, l.states, c.Output(x), priority)
    ensures var after := Evaluate(w, l, c, y).states; Complete(c, after) && LoudAbove(c, after, c.Output(x), priority)
  {
    EvaluateChangesOutput(w, l, c, y);
    CompleteStays(c, l.states, Evaluate(w, l, c, y).states);
    c.OutputsDiffer(x, y);
    forall t | Above(c, c.Output(x), t) ensures Loud(Evaluate(w, l, c, y).states, c.Output(t), priority) {
      c.OutputsDiffer(t, y);
    }
  }

  lemma FirstPass(w: World, l: Ledger, c: Catalog, y: string)
    requires y in c.definitions
    ensures var order := VisitOrder(c, c.Output(y));
      PassAfter(w, l, c, [y]) == Pass(Walk(Evaluator(w, c), Evaluate(w, l, c, y), order), Elements(order))
  {
    assert PassAfter(w, l, c, []) == Pass(l, {}) && [y][..0] == [];
  }

  lemma StrayIsLeftLoud(w: World, l: Ledger, c: Catalog, x: string, priority: int) returns (s: string)
    requires c.Sound() && Complete(c, l.states) && IsLeaf(c, x) && !DependentsFollow(c, VisitOrder(c, c.Output(x)))
    requires LoudAbove(c, l.states, c.Output(x), priority)
    ensures LeftLoud(c, PassAfter(w, l, c, [x]), s, priority)
  {
    var order, next := VisitOrder(c, c.Output(x)), Evaluate(w, l, c, x);
    var i, k := StrayDependent(c, c.Output(x));
    s := order[i];
    EvaluatorEvaluates(w, c);
    EvaluateChangesOutput(w, l, c, x);
    CompleteStays(c, l.states, next.states);
    VisitOrderIsTheAncestors(c, c.Output(x));
    VisitsAreSummaries(c, c.Output(x), {});
    assert order[k] in order && s in order;
    EarlyVisitHears(Evaluator(w, c), next, c, order, i, k, priority);
    FirstPass(w, l, c, x);
  }

  /** A summary visited before a member of it that is still loud becomes loud, and stays it to the end of the walk. */
  lemma EarlyVisitHears(step: Step, l: Ledger, c: Catalog, order: seq<string>, i: nat, k: nat, priority: int)
    requires c.Exact() && Evaluates(c, step) && Complete(c, l.states) && Distinct(order) && Summaries(c, order)
    requires i < k < |order| && c.IsSummary(order[i]) && c.IsSummary(order[k])
    requires c.Output(order[k]) in c.Members(order[i]) && Loud(l.states, c.Output(order[k]), priority)
    ensures Loud(Walk(step, l, order).states, c.Output(order[i]), priority)
  {
    var s, m, before := order[i], c.Output(order[k]), Walk(step, l, order[..i]);
    assert Summaries(c, order[..i]) by {
      assert forall t <- order[..i] :: t in order;
    }
    OutputBefore(step, l, c, order, i, k);
    WalkKeepsComplete(step, l, c, order[..i]);
    assert EvaluationOutcome(c, before.states, step(before, s).states, s);
    LoudMemberMakesLoud(c, before.states, step(before, s).states, s, m, priority);
    OutputAfter(step, l, c, order, i);
  }

  /** Then the end is not settled, whatever the order of the other leaves. */
  lemma LeftLoudEndsUnsettled(w: World, l: Ledger, c: Catalog, leaves: seq<string>, x: string, s: string, priority: int)
    requires c.Sound() && Complete(c, l.states) && Leaves(c, leaves) && ResultsBelow(c, leaves, priority)
    requires x in leaves && LeafResult(c, x).Some? && QuietBut(c, l.states, c.Output(x), false, priority)
    requires LeftLoud(c, PassAfter(w, l, c, leaves[..1]), s, priority)
    ensures !AllSettled(c, PassAfter(w, l, c, leaves).ledger.states)
  {
    SeenStays(w, l, c, leaves, s);
    PassIsQuiet(w, l, c, leaves, x, priority);
    LoudSummaryHasLoudLeaf(c, PassAfter(w, l, c, leaves).ledger.states, s, priority);
  }

  // ---------------------------------------------------------------- exactly when

  /**
   Above a leaf with a result there is no summary that is also above another leaf to be evaluated, and
   in its own pass every summary comes after the visited ones it lists.
   */
  ghost predicate Unshared(c: Catalog, property: string) {
    forall x | Refers(c, property, x) && LeafResult(c, x).Some? ::
      DependentsFollow(c, VisitOrder(c, c.Output(x))) && forall y, s | Refers(c, property, y) && y != x :: !Shared(c, x, y, s)
  }

  lemma {:induction false} ListOf(items: set<string>) returns (list: seq<string>)
    ensures Distinct(list) && forall x :: x in list <==> x in items
  {
    if items == {} {
      list := [];
    } else {
      var x :| x in items;
      var rest := ListOf(items - {x});
      list := [x] + rest;
    }
  }

  /** The leaves to be evaluated, any one of them first. */
  lemma ListFrom(c: Catalog, property: string, first: string) returns (leaves: seq<string>)
    requires Refers(c, property, first)
    ensures Lists(c, property, leaves) && Leaves(c, leaves) && leaves[..1] == [first] && leaves != []
  {
    var rest := ListOf((set s | s in c.definitions && Refers(c, property, s)) - {first});
    leaves := [first] + rest;
  }

  lemma {:induction false} PriorityAbove(c: Catalog, leaves: seq<string>) returns (priority: int)
    requires Leaves(c, leaves)
    ensures ResultsBelow(c, leaves, priority)
  {
    if leaves == [] {
      priority := 0;
    } else {
      var before, x := leaves[..|leaves| - 1], leaves[|leaves| - 1];
      assert leaves == before + [x];
      var p := PriorityAbove(c, before);
      var own := if LeafResult(c, x).Some? then LeafResult(c, x).value.presentation.priority + 1 else p;
      priority := if own > p then own else p;
    }
  }

  lemma UnsharedPassesSettle(c: Catalog, property: string)
    requires c.Exact() && Unshared(c, property)
    ensures PassesSettle(c, property)
  {
    forall w: World, l: Ledger, leaves: seq<string> |
      ValidStates(l.states) && AllSettled(c, l.states) && Lists(c, property, leaves)
      ensures AllSettled(c, PassAfter(w, l, c, leaves).ledger.states)
    {
      assert forall x <- leaves :: Refers(c, property, x);
      SeparateLeavesSettle(w, l, c, leaves);
    }
  }

  lemma UnsharedPassKeepsSettled(w: World, l: Ledger, before: Catalog, c: Catalog, property: string, leaves: seq<string>)
    requires c.Sound() && ValidStates(l.states) && Lists(c, property, leaves) && Leaves(c, leaves)
    requires c.definitions == before.definitions
    ensures Unshared(c, property) && AllSettled(before, l.states) ==> AllSettled(c, PassAfter(w, l, c, leaves).ledger.states)
  {
    if Unshared(c, property) && AllSettled(before, l.states) {
      SettledWhateverTheProperties(before, c, l.states);
      UnsharedPassesSettle(c, property);
    }
  }

  lemma SettledWhateverTheProperties(before: Catalog, c: Catalog, states: map<string, State>)
    requires c.definitions == before.definitions && AllSettled(before, states)
    ensures AllSettled(c, states)
  {
  }

  /** A pass over all leaves that starts with `first` fails, if what the first leaf's pass leaves behind is loud. */
  lemma FailingOrder(w: World, l: Ledger, c: Catalog, property: string, leaves: seq<string>, x: string, s: string, priority: int)
    requires c.Sound() && Complete(c, l.states) && AllSettled(c, l.states) && Lists(c, property, leaves) && Leaves(c, leaves)
    requires ResultsBelow(c, leaves, priority) && x in leaves && LeafResult(c, x).Some?
    requires QuietBut(c, l.states, c.Output(x), false, priority)
    requires LeftLoud(c, PassAfter(w, l, c, leaves[..1]), s, priority)
    ensures !PassesSettle(c, property)
  {
    LeftLoudEndsUnsettled(w, l, c, leaves, x, s, priority);
  }

  lemma SharingPassesDoNotSettle(c: Catalog, property: string)
    requires c.Sound() && !Unshared(c, property)
    ensures !PassesSettle(c, property)
  {
    var d: EpisodeDraw := Draw(0, "id");
    var w := World(_ => d, _ => true);
    var x :| Refers(c, property, x) && LeafResult(c, x).Some?
      && !(DependentsFollow(c, VisitOrder(c, c.Output(x))) && forall y, s | Refers(c, property, y) && y != x :: !Shared(c, x, y, s));
    if !DependentsFollow(c, VisitOrder(c, c.Output(x))) {
      var leaves := ListFrom(c, property, x);
      var priority := PriorityAbove(c, leaves);
      var l := LoudStart(w, c, x, priority);
      var s := StrayIsLeftLoud(w, l, c, x, priority);
      FailingOrder(w, l, c, property, leaves, x, s, priority);
    } else {
      var y, s :| Refers(c, property, y) && y != x && Shared(c, x, y, s);
      var leaves := ListFrom(c, property, y);
      var priority := PriorityAbove(c, leaves);
      var l := LoudStart(w, c, x, priority);
      SharedIsLeftLoud(w, l, c, x, y, s, priority);
      FailingOrder(w, l, c, property, leaves, x, s, priority);
    }
  }

  /**
   A property message leaves every summary settled, from every settled start and in every order of the
   leaves, if and only if no leaf with a result shares a summary above it with another evaluated leaf,
   and dependents follow in each of their passes.
   */
  lemma PassesSettleExactly(c: Catalog, property: string)
    requires c.Sound()
    ensures PassesSettle(c, property) <==> Unshared(c, property)
  {
    if Unshared(c, property) {
      UnsharedPassesSettle(c, property);
    } else {
      SharingPassesDoNotSettle(c, property);
    }
  }

  // ---------------------------------------------------------------- two leaves under one summary

  /** A summary evaluated in a walk over summaries does not list what is not live before the walk. */
  lemma UnheardIsNotListed(step: Step, l: Ledger, c: Catalog, order: seq<string>, s: string, n: string)
    requires c.Exact() && Evaluates(c, step) && ValidStates(l.states) && Distinct(order) && Summaries(c, order)
    requires s in order && n !in c.Graph() && n in l.states && !Live(l.states[n])
    ensures var after := Walk(step, l, order).states;
      c.IsSummary(s) && c.Output(s) in after && n !in after[c.Output(s)].members.Items()
  {
    var i :| 0 <= i < |order| && order[i] == s;
    var before := Walk(step, l, order[..i]);
    assert Summaries(c, order[..i]) by {
      assert forall t <- order[..i] :: t in order;
    }
    WalkStaysValid(step, l, c, order[..i]);
    WalkKeepsOthers(step, l, c, order[..i], n);
    assert Find(before.states, n) == Find(l.states, n);
    QuietIsNotListed(c.Members(s), before.states, n);
    assert EvaluationOutcome(c, before.states, step(before, s).states, s);
    OutputAfter(step, l, c, order, i);
  }

  /** A leaf that rises later is not heard by a summary above it that an earlier leaf's pass has evaluated. */
  lemma LaterLeafIsNotHeard(w: World, l: Ledger, c: Catalog, leaves: seq<string>, other: string, s: string)
    requires c.Sound() && Complete(c, l.states) && Leaves(c, leaves) && Distinct(leaves) && leaves != []
    requires other in leaves && other != leaves[0] && c.IsParent(s, c.Output(leaves[0])) && c.IsParent(s, c.Output(other))
    requires c.Output(other) in l.states && !Live(l.states[c.Output(other)])
    requires LeafResult(c, other).Some? && LeafResult(c, other).value.active
    ensures !Settled(c, PassAfter(w, l, c, leaves).ledger.states, s)
  {
    var first, n := leaves[0], c.Output(other);
    assert leaves[..1] == [first] && first in leaves;
    FirstPass(w, l, c, first);
    FirstParentsAreAbove(c, c.Output(first));
    VisitOrderIsTheAncestors(c, c.Output(first));
    assert s in c.Parents(c.Output(first)) && s in VisitOrder(c, c.Output(first));
    EvaluatorEvaluates(w, c);
    VisitsAreSummaries(c, c.Output(first), {});
    OtherLeafWaits(w, l, c, first, other);
    UnheardIsNotListed(Evaluator(w, c), Evaluate(w, l, c, first), c, VisitOrder(c, c.Output(first)), s, n);
    SeenStays(w, l, c, leaves, s);
    PassRefreshes(w, l, c, leaves);
    RisenIsListed(c, PassAfter(w, l, c, leaves).ledger.states, other, s);
  }

  lemma OtherLeafWaits(w: World, l: Ledger, c: Catalog, first: string, other: string)
    requires c.Exact() && ValidStates(l.states) && IsLeaf(c, first) && IsLeaf(c, other) && first != other
    ensures var after := Evaluate(w, l, c, first).states;
      ValidStates(after) && Find(after, c.Output(other)) == Find(l.states, c.Output(other)) && c.Output(other) !in c.Graph()
  {
    EvaluateChangesOutput(w, l, c, first);
    c.OutputsDiffer(first, other);
  }

  lemma RisenIsListed(c: Catalog, states: map<string, State>, leaf: string, s: string)
    requires c.Exact() && Complete(c, states) && IsLeaf(c, leaf) && c.IsParent(s, c.Output(leaf))
    requires LeafAgrees(c, states, leaf) && LeafResult(c, leaf).Some? && LeafResult(c, leaf).value.active
    ensures Settled(c, states, s) ==> c.Output(leaf) in states[c.Output(s)].members.Items()
  {
    LeafResultIsEvaluation(c, leaf, states);
    c.GraphEdges(s);
    ActiveIsListed(c.Members(s), states, c.Output(leaf));
  }
}
