/**
 What an alert in agreement with its input shows: which leaves are active, with which presentation and
 text, and what a settled summary lists (alert/service.go evaluateDefinitionLocked).
 */
module AlertDisplay {
  import opened AlertModel
  import opened AlertEvaluator
  import opened AlertLedger
  import opened AlertSummaries
  import opened AlertReconcile
  import opened AlertReturns
  import opened AlertAgreement
  import AlertIntervals

  /** Nothing to see, whatever else is remembered of the alert. */
  predicate ShowsNothing(t: State) {
    !t.active && t.presentation == NO_PRESENTATION && t.text == "" && t.dominant == "" && t.members == NilSlice
  }

  /** A mapping or an interval on display; a bad one without usable properties shows nothing. */
  predicate Displays(t: State, bad: bool, property: string, text: string, properties: map<string, Properties>) {
    if bad && !Resolvable(property, properties) then ShowsNothing(t)
    else
      && t.active == bad && t.text == text && t.dominant == "" && t.members == NilSlice
      && if bad then Presents(t.presentation, property, properties) else t.presentation == NO_PRESENTATION
  }

  /** A binary alert is active exactly on its bad value, if the properties for that value are usable. */
  ghost predicate BinaryShown(c: Catalog, states: map<string, State>, subject: string)
    requires IsLeaf(c, subject) && c.definitions[subject].config.binary.Some?
  {
    var config, input := c.definitions[subject].config.binary.value, c.definitions[subject].input;
    input.BoolInput? ==>
      && c.Output(subject) in states
      && var mapping := if input.b then config.onTrue else config.onFalse;
         Displays(states[c.Output(subject)], input.b == config.badValue, mapping.property, mapping.text, c.properties)
  }

  /** A value alert shows the one interval that contains its number, and nothing if its input is no number of its type. */
  ghost predicate ValueShown(c: Catalog, states: map<string, State>, subject: string)
    requires IsLeaf(c, subject) && c.definitions[subject].config.value.Some? && ValidValue(c.definitions[subject].config.value.value)
  {
    var config, input := c.definitions[subject].config.value.value, c.definitions[subject].input;
    input != NoInput ==>
      && c.Output(subject) in states
      && var t := states[c.Output(subject)];
         match AlertIntervals.NumberIn(config.valueType, input)
         case None => ShowsNothing(t)
         case Some(x) =>
           && (exists k | 0 <= k < |config.intervals| :: AlertIntervals.Contains(config.valueType, config.intervals[k], x))
           && forall k | 0 <= k < |config.intervals| && AlertIntervals.Contains(config.valueType, config.intervals[k], x) ::
                Displays(t, config.intervals[k].active, config.intervals[k].property, config.intervals[k].text, c.properties)
  }

  lemma BinaryLeafDisplays(c: Catalog, states: map<string, State>, subject: string)
    requires c.Documented() && IsLeaf(c, subject) && c.definitions[subject].config.kind.BinaryKind? && LeafAgrees(c, states, subject)
    ensures c.definitions[subject].config.binary.Some? && BinaryShown(c, states, subject)
  {
    assert c.ValidDefinition(subject);
    var input := c.definitions[subject].input;
    if input.BoolInput? {
      BinaryMeaning(c.definitions[subject].config.binary.value, input.b, c.properties);
    }
  }

  lemma ValueLeafDisplays(c: Catalog, states: map<string, State>, subject: string)
    requires c.Documented() && IsLeaf(c, subject) && c.definitions[subject].config.kind.ValueKind? && LeafAgrees(c, states, subject)
    ensures c.definitions[subject].config.value.Some? && ValidValue(c.definitions[subject].config.value.value)
    ensures ValueShown(c, states, subject)
  {
    assert c.ValidDefinition(subject);
    var config, input := c.definitions[subject].config.value.value, c.definitions[subject].input;
    AlertIntervals.ValueMeaning(config, input, c.properties);
    if AlertIntervals.NumberIn(config.valueType, input).Some? {
      AlertIntervals.ContainingIntervalDecides(config, AlertIntervals.NumberIn(config.valueType, input).value, c.properties);
    }
  }

  /** At every point of every run from an empty configuration, every leaf with an input shows what its input means. */
  lemma LeavesDisplayInEveryRun(w: World, run: seq<Point>, events: seq<Event>, i: nat, subject: string)
    requires IsRun(w, run, events) && 0 < i < |run| && run[0].catalog.definitions == map[] && IsLeaf(run[i].catalog, subject)
    ensures var c, states := run[i].catalog, run[i].ledger.states;
      var config := c.definitions[subject].config;
      && (config.kind.BinaryKind? || config.kind.ValueKind?)
      && (config.kind.BinaryKind? ==> config.binary.Some? && BinaryShown(c, states, subject))
      && (config.kind.ValueKind? ==> config.value.Some? && ValidValue(config.value.value) && ValueShown(c, states, subject))
  {
    var c, states := run[i].catalog, run[i].ledger.states;
    LeavesAgreeInEveryRun(w, run, events, i);
    assert AgreeingAt(run, i);
    assert Happens(w, run[i - 1], events[i - 1], run[i - 1 + 1]);
    assert c.ValidDefinition(subject);
    if c.definitions[subject].config.kind.BinaryKind? {
      BinaryLeafDisplays(c, states, subject);
    } else {
      ValueLeafDisplays(c, states, subject);
    }
  }

  /** Without a usable input nothing is evaluated: a binary alert needs a truth value, any other leaf some value. */
  lemma UnusableInputIsIgnored(w: World, l: Ledger, c: Catalog, subject: string)
    requires c.Documented() && IsLeaf(c, subject)
    ensures Evaluate(w, l, c, subject).tick == l.tick <==>
      if c.definitions[subject].config.kind.BinaryKind? then !c.definitions[subject].input.BoolInput?
      else c.definitions[subject].input == NoInput
    ensures Evaluate(w, l, c, subject).tick == l.tick ==> Evaluate(w, l, c, subject) == l
  {
    assert c.ValidDefinition(subject);
  }

  /** The member at position k gives a summary its presentation and text. */
  predicate ShowsMember(t: State, members: seq<string>, states: map<string, State>, k: nat)
    requires Present(members, states) && k < |members|
  {
    && DominantAt(k, members, states) && t.dominant == members[k]
    && t.presentation == states[members[k]].presentation && t.text == states[members[k]].text
  }

  /**
   A settled summary is active exactly when some member is, pending if some member is, lists the live
   ones in order and shows the dominant one; with a member unknown or none live it shows nothing.
   */
  lemma SettledSummaryDisplays(c: Catalog, states: map<string, State>, subject: string)
    requires c.Exact() && ValidStates(states) && c.IsSummary(subject) && Settled(c, states, subject)
    ensures var members, t := c.Members(subject), states[c.Output(subject)];
      if Present(members, states) then
        && (t.active <==> AnyActive(members, states)) && (AnyPending(members, states) ==> t.pending)
        && t.members.Items() == LiveMembers(members, states)
        && (if LiveMembers(members, states) == [] then ShowsNothing(t)
            else exists k | 0 <= k < |members| :: ShowsMember(t, members, states, k))
      else ShowsNothing(t)
  {
    var members := c.Members(subject);
    c.GraphEdges(subject);
    if Present(members, states) {
      SummaryMeaning(members, states);
      if LiveMembers(members, states) != [] {
        var k :| 0 <= k < |members| && DominantAt(k, members, states) && Summarize(members, states).dominant == members[k]
          && Summarize(members, states).presentation == states[members[k]].presentation
          && Summarize(members, states).text == states[members[k]].text;
        assert ShowsMember(states[c.Output(subject)], members, states, k);
      } else {
        forall m | m in members ensures !states[m].active {
          assert m !in LiveMembers(members, states);
        }
      }
    }
  }
}
