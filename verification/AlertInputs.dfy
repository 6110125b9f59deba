/**
 What a new telemetry value and new alert properties do to the leaf alerts, whatever the order the
 definitions are visited in (alert/service.go acceptSourceLocked, reconcilePropertyLocked).
 */
module AlertInputs {
  import opened Wrappers
  import opened Sequences
  import opened AlertModel
  import opened AlertLedger
  import opened AlertSummaries
  import opened AlertAncestors
  import opened AlertReconcile

  function WithInput(c: Catalog, subject: string, value: Input): Catalog
    requires subject in c.definitions
  {
    c.(definitions := c.definitions[subject := c.definitions[subject].(input := value)])
  }

  /** Inputs are nothing to the summaries. */
  lemma SettledWhateverTheInput(c: Catalog, subject: string, value: Input, states: map<string, State>)
    requires IsLeaf(c, subject) && AllSettled(c, states)
    ensures AllSettled(WithInput(c, subject, value), states)
  {
    var d := WithInput(c, subject, value);
    forall s | s in d.definitions && d.IsSummary(s) ensures Settled(d, states, s) {
      assert s != subject && Settled(c, states, s);
    }
  }

  /** No leaf but one has another state. */
  ghost predicate OtherLeavesKept(c: Catalog, before: map<string, State>, after: map<string, State>, subject: string) {
    forall s | IsLeaf(c, s) && s != subject :: Find(after, c.Output(s)) == Find(before, c.Output(s))
  }

  lemma VisitsAreSummaries(c: Catalog, output: string, seen: set<string>)
    requires c.Exact()
    ensures Summaries(c, Visits(c, c.Parents(output), seen))
  {
    forall s | s in c.Parents(output) ensures c.IsSummary(s) {
      assert c.IsParent(s, output);
    }
    VisitsOnce(c, c.Parents(output), seen);
  }

  predicate Monitors(d: Definition, source: string) {
    !d.config.kind.SummaryKind? && d.source == source
  }

  lemma SameEndSameStart(a: string, b: string, end: string)
    requires a + end == b + end
    ensures a == b
  {
    assert |a + end| == |a| + |end| && |b + end| == |b| + |end|;
    assert (a + end)[..|a|] == a && (b + end)[..|b|] == b;
  }

  lemma InputIsStart(s: string)
    requires InputSubject(s).Some?
    ensures s == InputSubject(s).value + CONFIG_SUFFIX
  {
  }

  /** A leaf monitors the subject that its own config subject is derived from. */
  lemma MonitorsItsInput(c: Catalog, s: string, source: string)
    requires c.Documented() && s in c.definitions
    ensures Monitors(c.definitions[s], source) <==> IsLeaf(c, s) && s == source + CONFIG_SUFFIX
  {
    assert c.ValidDefinition(s);
    InputIsStart(s);
    if s == source + CONFIG_SUFFIX {
      SameEndSameStart(source, c.definitions[s].source, CONFIG_SUFFIX);
    }
  }

  /**
   The leaves monitoring the source have the value and agree with it, except those still to come;
   no other definition changed, and no other leaf's state.
   */
  ghost predicate Feeding(
    c0: Catalog, c: Catalog, start: map<string, State>, states: map<string, State>, source: string, value: Input, todo: set<string>)
  {
    && c == c0.(definitions := c.definitions)
    && c.definitions.Keys == c0.definitions.Keys && todo <= c.definitions.Keys
    && (forall s <- c.definitions ::
          c.definitions[s] == if s !in todo && Monitors(c0.definitions[s], source)
                              then c0.definitions[s].(input := value) else c0.definitions[s])
    && (forall s <- c.definitions :: s !in todo && Monitors(c.definitions[s], source) ==> LeafAgrees(c, states, s))
    && (forall s | IsLeaf(c, s) && !Monitors(c.definitions[s], source) :: Find(states, c.Output(s)) == Find(start, c.Output(s)))
  }

  lemma FedSubject(
    c0: Catalog, c: Catalog, start: map<string, State>, states: map<string, State>,
    source: string, value: Input, todo: set<string>, subject: string)
    requires Feeding(c0, c, start, states, source, value, todo) && subject in todo
    ensures subject in c.definitions && c.definitions[subject] == c0.definitions[subject]
  {
  }

  lemma FeedSkip(
    c0: Catalog, c: Catalog, start: map<string, State>, states: map<string, State>,
    source: string, value: Input, todo: set<string>, subject: string)
    requires Feeding(c0, c, start, states, source, value, todo) && subject in todo && !Monitors(c.definitions[subject], source)
    ensures Feeding(c0, c, start, states, source, value, todo - {subject})
  {
  }

  lemma FeedStep(
    c0: Catalog, c: Catalog, d: Catalog, start: map<string, State>, before: map<string, State>, after: map<string, State>,
    source: string, value: Input, todo: set<string>, subject: string)
    requires Feeding(c0, c, start, before, source, value, todo) && subject in todo && Monitors(c.definitions[subject], source)
    requires d == WithInput(c, subject, value)
    requires LeafAgrees(d, after, subject) && OtherLeavesKept(d, before, after, subject)
    ensures Feeding(c0, d, start, after, source, value, todo - {subject})
  {
    OtherLeavesStillAgree(c, d, before, after, subject);
    OtherLeavesStillKept(c, d, start, before, after, source, subject);
  }

  lemma OtherLeavesStillKept(
    c: Catalog, d: Catalog, start: map<string, State>, before: map<string, State>, after: map<string, State>,
    source: string, subject: string)
    requires subject in c.definitions && subject in d.definitions && Monitors(c.definitions[subject], source)
    requires d.definitions == c.definitions[subject := d.definitions[subject]] && Monitors(d.definitions[subject], source)
    requires forall s | IsLeaf(c, s) && !Monitors(c.definitions[s], source) :: Find(before, c.Output(s)) == Find(start, c.Output(s))
    requires OtherLeavesKept(d, before, after, subject)
    ensures forall s | IsLeaf(d, s) && !Monitors(d.definitions[s], source) :: Find(after, d.Output(s)) == Find(start, d.Output(s))
  {
    forall s | IsLeaf(d, s) && !Monitors(d.definitions[s], source) ensures Find(after, d.Output(s)) == Find(start, d.Output(s)) {
      assert s != subject && IsLeaf(c, s);
    }
  }

  /** Another leaf keeps agreeing when only one leaf's input and state change. */
  lemma OtherLeavesStillAgree(c: Catalog, d: Catalog, before: map<string, State>, after: map<string, State>, subject: string)
    requires d.definitions.Keys == c.definitions.Keys && d.properties == c.properties
    requires forall s <- c.definitions | s != subject :: d.definitions[s] == c.definitions[s]
    requires OtherLeavesKept(d, before, after, subject)
    ensures forall s | IsLeaf(d, s) && s != subject && LeafAgrees(c, before, s) :: LeafAgrees(d, after, s)
  {
    forall s | IsLeaf(d, s) && s != subject && LeafAgrees(c, before, s) ensures LeafAgrees(d, after, s) {
      LeafAgreesFrame(d, before, after, s);
    }
  }

  /** A leaf with an input whose configuration names the property. */
  predicate Affected(d: Definition, property: string) {
    && !d.config.kind.SummaryKind? && d.input != NoInput
    && if d.config.binary.Some? then property in {d.config.binary.value.onTrue.property, d.config.binary.value.onFalse.property}
       else d.config.value.Some? && exists interval <- d.config.value.value.intervals :: interval.property == property
  }

  lemma IndexesStayExact(c: Catalog, d: Catalog)
    requires c.Exact() && d == c.(properties := d.properties)
    ensures d.Exact()
  {
    forall m ensures Distinct(d.Parents(m)) && forall s :: s in d.Parents(m) <==> d.IsParent(s, m) {
      assert Distinct(c.Parents(m)) && d.Parents(m) == c.Parents(m);
      assert forall s :: d.IsParent(s, m) == c.IsParent(s, m);
    }
  }

  lemma GraphStays(c: Catalog, d: Catalog)
    requires d.definitions == c.definitions && d.byOutput == c.byOutput
    ensures d.Graph() == c.Graph()
  {
  }

  lemma DefinitionsStayValid(c: Catalog, d: Catalog)
    requires d.definitions == c.definitions && forall s <- c.definitions :: c.ValidDefinition(s)
    ensures forall s <- d.definitions :: d.ValidDefinition(s)
  {
    forall s | s in d.definitions ensures d.ValidDefinition(s) {
      assert c.ValidDefinition(s);
    }
  }

  /** Properties are no part of the indexes or the graph. */
  lemma PropertiesDoNotMatter(c: Catalog, d: Catalog)
    requires c.WellConfigured() && d == c.(properties := d.properties)
    ensures d.WellConfigured()
  {
    IndexesStayExact(c, d);
    DefinitionsStayValid(c, d);
    GraphStays(c, d);
  }
}
