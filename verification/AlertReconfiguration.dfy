/**
 What a configuration message does: when it is taken over, what it leaves behind, and its exact
 effect on states and publications (alert/service.go reconcileConfigLocked).
 */
module AlertReconfiguration {
  import opened Wrappers
  import opened Sequences
  import opened AlertModel
  import opened AlertLedger
  import opened AlertSummaries
  import opened AlertCatalogUpdates
  import opened AlertDelivery
  import opened AlertReconcile
  import opened AlertInputs
  import opened AlertAncestors
  import opened AlertEvaluator
  import opened AlertProperties
  import Dependencies

  /** What the stream answers while a configuration is taken over. */
  datatype Surroundings = Surroundings(retained: map<string, Wire>, watchable: bool, current: Option<Input>)

  /** A summary must close no cycle; a leaf needs an input that can be watched. */
  ghost predicate Admits(g: Dependencies.Graph, subject: string, config: Config, surroundings: Surroundings)
    requires ValidConfigFor(config, subject)
  {
    if config.kind.SummaryKind?
    then !Dependencies.Cyclic(g[OutputSubject(subject).value := config.summary.value])
    else surroundings.watchable
  }

  /** When a configuration is taken over, whatever the subject was defined as before. */
  ghost predicate Accepts(c: Catalog, subject: string, raw: Option<Config>, surroundings: Surroundings) {
    && raw.Some? && ValidConfigFor(raw.value, subject) && raw.value.enabled
    && Admits(c.Graph() - {OutputSubject(subject).value}, subject, raw.value, surroundings)
  }

  ghost predicate SameApartFrom(a: map<string, Definition>, b: map<string, Definition>, subject: string) {
    forall s | s != subject :: (s in a <==> s in b) && (s in a ==> a[s] == b[s])
  }

  predicate IsInactive(states: map<string, State>, subject: string) {
    OutputSubject(subject).Some? ==> OutputSubject(subject).value in states && !states[OutputSubject(subject).value].active
  }

  /** What an accepted configuration leaves behind. */
  ghost predicate Started(c: Catalog, states: map<string, State>, subject: string, config: Config, surroundings: Surroundings)
    requires subject in c.definitions
  {
    && c.definitions[subject].config == config
    && (config.kind.SummaryKind? || surroundings.current.None? ==> c.definitions[subject].input == NoInput)
    && (config.kind.SummaryKind? ==> c.IsSummary(subject) && Settled(c, states, subject))
    && (!config.kind.SummaryKind? && surroundings.current.Some? ==>
          c.definitions[subject].input == surroundings.current.value && LeafAgrees(c, states, subject))
  }

  /** The outcome of a valid configuration, taken over or not. */
  ghost predicate Taken(
    before: map<string, Definition>, c: Catalog, states: map<string, State>,
    subject: string, config: Config, surroundings: Surroundings, accepted: bool)
  {
    && (subject in c.definitions <==> accepted)
    && SameApartFrom(before, c.definitions, subject)
    && if subject in c.definitions then Started(c, states, subject, config, surroundings) else IsInactive(states, subject)
  }

  /** The outcome of any configuration message, as the catalog and the states show it. */
  ghost predicate Reconciled(
    before: Catalog, c: Catalog, states: map<string, State>, subject: string, raw: Option<Config>, surroundings: Surroundings)
  {
    && (subject in c.definitions <==> Accepts(before, subject, raw, surroundings))
    && SameApartFrom(before.definitions, c.definitions, subject)
    && Relisted(before, c, subject)
    && c.properties == before.properties
    && (subject in c.definitions ==> Started(c, states, subject, raw.value, surroundings))
    && (subject !in c.definitions ==> IsInactive(states, subject))
  }

  lemma RefusedIsReconciled(c: Catalog, states: map<string, State>, subject: string, raw: Option<Config>, surroundings: Surroundings)
    requires c.Exact() && subject !in c.definitions && IsInactive(states, subject)
    requires raw.None? || !ValidConfigFor(raw.value, subject) || !raw.value.enabled
    ensures Reconciled(c, c, states, subject, raw, surroundings)
  {
    RemovalRelists(c, c, subject);
  }

  lemma TakenIsReconciled(before: Catalog, c: Catalog, states: map<string, State>, subject: string, config: Config, surroundings: Surroundings)
    requires ValidConfigFor(config, subject) && config.enabled && OutputSubject(subject).value !in before.byOutput
    requires Taken(before.definitions, c, states, subject, config, surroundings, Admits(before.Graph(), subject, config, surroundings))
    requires Relisted(before, c, subject) && c.properties == before.properties
    ensures Reconciled(before, c, states, subject, Some(config), surroundings)
  {
    UnownedIsNotInTheGraph(before, OutputSubject(subject).value);
  }

  lemma ReconciledAfterRemoval(
    before: Catalog, removed: Catalog, c: Catalog, states: map<string, State>,
    subject: string, raw: Option<Config>, surroundings: Surroundings)
    requires Reconciled(removed, c, states, subject, raw, surroundings)
    requires Relisted(before, removed, subject) && removed.properties == before.properties
    requires removed.definitions == before.definitions || removed.definitions == before.definitions - {subject}
    requires OutputSubject(subject).Some? ==> removed.Graph() == before.Graph() - {OutputSubject(subject).value}
    ensures Reconciled(before, c, states, subject, raw, surroundings)
  {
    SameWithout(before.definitions, removed.definitions, c.definitions, subject);
    RelistedTwice(before, removed, c, subject);
    if OutputSubject(subject).Some? {
      RemovedOnce(before.Graph(), OutputSubject(subject).value);
    }
  }

  lemma RemovedOnce(g: Dependencies.Graph, output: string)
    ensures g - {output} - {output} == g - {output}
  {
  }

  lemma WithdrawnIsTaken(before: Catalog, added: Catalog, c: Catalog, states: map<string, State>, subject: string, surroundings: Surroundings)
    requires subject in added.definitions && Added(before, added, subject, added.definitions[subject])
    requires c.definitions == before.definitions && IsInactive(states, subject)
    ensures Taken(before.definitions, c, states, subject, added.definitions[subject].config, surroundings, false)
  {
  }

  lemma SummaryIsTaken(before: Catalog, c: Catalog, states: map<string, State>, subject: string, surroundings: Surroundings)
    requires c.IsSummary(subject) && Added(before, c, subject, c.definitions[subject]) && Settled(c, states, subject)
    requires c.definitions[subject].input == NoInput
    ensures Taken(before.definitions, c, states, subject, c.definitions[subject].config, surroundings, true)
  {
  }

  lemma LeafIsTaken(before: Catalog, added: Catalog, c: Catalog, states: map<string, State>, subject: string, surroundings: Surroundings)
    requires IsLeaf(added, subject) && Added(before, added, subject, added.definitions[subject])
    requires added.definitions[subject].input == NoInput
    requires if surroundings.current.None? then c == added
      else c == WithInput(added, subject, surroundings.current.value) && LeafAgrees(c, states, subject)
    ensures Taken(before.definitions, c, states, subject, added.definitions[subject].config, surroundings, true)
  {
  }

  lemma RemovedIsFree(before: Catalog, after: Catalog, subject: string)
    requires before.WellConfigured() && after.WellConfigured()
    requires if subject in before.definitions then Removed(before, after, subject) else after == before
    ensures after.definitions == before.definitions || after.definitions == before.definitions - {subject}
    ensures subject !in after.definitions && SameApartFrom(before.definitions, after.definitions, subject)
    ensures OutputSubject(subject).Some? ==>
      OutputSubject(subject).value !in after.byOutput && after.Graph() == before.Graph() - {OutputSubject(subject).value}
  {
    if OutputSubject(subject).Some? {
      WithoutDefinition(before, after, subject);
    }
  }

  lemma SameWithout(a: map<string, Definition>, b: map<string, Definition>, c: map<string, Definition>, subject: string)
    requires (b == a || b == a - {subject}) && SameApartFrom(b, c, subject)
    ensures SameApartFrom(a, c, subject)
  {
  }

  lemma ReadyToHook(c: Catalog, d: Definition, subject: string)
    requires c.Exact() && ValidConfigFor(d.config, subject)
    ensures Distinct(d.Members()) && forall m <- c.parents :: c.parents[m] != []
  {
  }

  lemma NothingIsSound(c: Catalog)
    requires c.definitions == map[] && c.byOutput == map[] && c.parents == map[]
    ensures c.Sound()
  {
    Dependencies.NoSummariesNoCycle(c.Graph());
  }

  /** Members without a state take the retained one, if it is valid. */
  function CaughtUp(states: map<string, State>, members: seq<string>, retained: map<string, Wire>): map<string, State> {
    if members == [] then states
    else
      var before, member := CaughtUp(states, members[..|members| - 1], retained), members[|members| - 1];
      if member !in before && member in retained && retained[member].Decoded? && ValidState(retained[member].state)
      then before[member := retained[member].state] else before
  }

  /** Exactly the members without a state take their retained one, exactly if it is valid. */
  lemma {:induction false} CaughtUpExactly(states: map<string, State>, members: seq<string>, retained: map<string, Wire>, n: string)
    ensures Find(CaughtUp(states, members, retained), n) ==
      if n in states then Some(states[n])
      else if n in members && n in retained && retained[n].Decoded? && ValidState(retained[n].state) then Some(retained[n].state)
      else None
  {
    if members != [] {
      var before, member := members[..|members| - 1], members[|members| - 1];
      assert members == before + [member];
      CaughtUpExactly(states, before, retained, n);
      CaughtUpExactly(states, before, retained, member);
    }
  }

  lemma {:induction false} CaughtUpIsValid(states: map<string, State>, members: seq<string>, retained: map<string, Wire>)
    requires ValidStates(states)
    ensures ValidStates(CaughtUp(states, members, retained))
    ensures forall n <- states :: n in CaughtUp(states, members, retained) && CaughtUp(states, members, retained)[n] == states[n]
  {
    if members != [] {
      CaughtUpIsValid(states, members[..|members| - 1], retained);
    }
  }

  /** An output without a definition goes inactive and everything above it is evaluated. */
  function Deactivated(w: World, l: Ledger, c: Catalog, output: string): Ledger {
    Ascend(w, Apply(w, l, output, INACTIVE), c, output)
  }

  /** A definition and everything above it evaluated. */
  function Evaluated(w: World, l: Ledger, c: Catalog, subject: string): Ledger
    requires subject in c.definitions
  {
    Ascend(w, Evaluate(w, l, c, subject), c, c.Output(subject))
  }

  /** Everything a new input for a leaf brings about. */
  lemma InputIsAccepted(w: World, l: Ledger, before: Catalog, subject: string, value: Input)
    requires before.WellConfigured() && ValidStates(l.states) && IsLeaf(before, subject)
    ensures var c := WithInput(before, subject, value); var after := Evaluated(w, l, c, subject).states;
      && c.WellConfigured() && ValidStates(after)
      && LeafAgrees(c, after, subject) && OtherLeavesKept(c, l.states, after, subject)
      && (AllSettled(before, l.states) && DependentsFollow(c, VisitOrder(c, c.Output(subject))) ==> AllSettled(c, after))
  {
    var c := WithInput(before, subject, value);
    InputKeepsWellConfigured(before, c, subject, value);
    VisitsAreSummaries(c, c.Output(subject), {});
    LeafEvaluation(w, l, c, subject, VisitOrder(c, c.Output(subject)));
    InputKeepsSettled(w, l, before, subject, value);
  }

  lemma EvaluatedSummarySettles(w: World, l: Ledger, c: Catalog, subject: string)
    requires c.Sound() && ValidStates(l.states) && c.IsSummary(subject)
    ensures ValidStates(Evaluated(w, l, c, subject).states) && Settled(c, Evaluated(w, l, c, subject).states, subject)
  {
    var next := Evaluate(w, l, c, subject);
    EvaluateSummaryOutcome(w, l, c, subject);
    EvaluateChangesOutput(w, l, c, subject);
    EvaluationSettles(c, l.states, next.states, subject);
    AscendLeavesSummary(w, next, c, subject);
  }

  /** What taking over, or refusing, a configuration does to the ledger, given the catalog it leads to. */
  function Reconfigured(w: World, l: Ledger, c: Catalog, subject: string, surroundings: Surroundings): Ledger {
    if subject in c.definitions then
      if c.IsSummary(subject)
      then Evaluated(w, l.(states := CaughtUp(l.states, c.Members(subject), surroundings.retained)), c, subject)
      else if surroundings.current.Some? then Evaluated(w, l, c, subject) else l
    else match OutputSubject(subject) case None => l case Some(output) => Deactivated(w, l, c, output)
  }

  /**
   Nothing but the output of the subject disturbs the other summaries: those above it follow in its
   pass, and none of them lists a member that is caught up only now.
   */
  ghost predicate Undisturbed(c: Catalog, states: map<string, State>, subject: string, surroundings: Surroundings) {
    OutputSubject(subject).Some? ==>
      && DependentsFollow(c, VisitOrder(c, OutputSubject(subject).value))
      && (c.IsSummary(subject) ==>
            forall m, s | m in c.Members(subject) && m !in states && c.IsSummary(s) && s != subject && m in c.Members(s) ::
              m !in CaughtUp(states, c.Members(subject), surroundings.retained))
  }

  lemma {:induction false} CaughtUpAddsMembers(states: map<string, State>, members: seq<string>, retained: map<string, Wire>)
    ensures forall n <- CaughtUp(states, members, retained) :: n in states || n in members
  {
    if members != [] {
      CaughtUpAddsMembers(states, members[..|members| - 1], retained);
    }
  }

  lemma OthersStaySettled(c: Catalog, states: map<string, State>, subject: string, surroundings: Surroundings)
    requires c.Exact() && c.IsSummary(subject) && ValidStates(states) && SettledApartFrom(c, states, c.Output(subject))
    requires OutputSubject(subject) == Some(c.Output(subject)) && Undisturbed(c, states, subject, surroundings)
    ensures SettledApartFrom(c, CaughtUp(states, c.Members(subject), surroundings.retained), c.Output(subject))
  {
    var more := CaughtUp(states, c.Members(subject), surroundings.retained);
    CaughtUpIsValid(states, c.Members(subject), surroundings.retained);
    CaughtUpAddsMembers(states, c.Members(subject), surroundings.retained);
    forall s | s in c.definitions && c.IsSummary(s) && c.Output(s) != c.Output(subject) ensures Settled(c, more, s) {
      SettledFrame(c, states, more, s);
    }
  }

  lemma StartedSummarySettles(w: World, l: Ledger, c: Catalog, subject: string, surroundings: Surroundings)
    requires c.Sound() && ValidStates(l.states) && Undisturbed(c, l.states, subject, surroundings)
    requires c.IsSummary(subject) && OutputSubject(subject) == Some(c.Output(subject))
    requires SettledApartFrom(c, l.states, c.Output(subject))
    ensures AllSettled(c, Reconfigured(w, l, c, subject, surroundings).states)
  {
    var caught := l.(states := CaughtUp(l.states, c.Members(subject), surroundings.retained));
    OthersStaySettled(c, l.states, subject, surroundings);
    CaughtUpIsValid(l.states, c.Members(subject), surroundings.retained);
    EvaluateChangesOutput(w, caught, c, subject);
    AscendSettles(w, caught.states, Evaluate(w, caught, c, subject), c, c.Output(subject));
    EvaluatedSummarySettles(w, caught, c, subject);
  }

  /** A configuration message leaves every summary settled, if it disturbs nothing else. */
  lemma ReconfiguredSettles(w: World, l: Ledger, c: Catalog, subject: string, surroundings: Surroundings)
    requires c.WellConfigured() && ValidStates(l.states) && Undisturbed(c, l.states, subject, surroundings)
    requires forall s <- c.definitions | c.IsSummary(s) && s != subject :: Settled(c, l.states, s)
    requires subject !in c.definitions && OutputSubject(subject).Some? ==> OutputSubject(subject).value !in c.byOutput
    ensures AllSettled(c, Reconfigured(w, l, c, subject, surroundings).states)
  {
    if subject in c.definitions {
      assert c.ValidDefinition(subject);
      if c.IsSummary(subject) {
        StartedSummarySettles(w, l, c, subject, surroundings);
      } else if surroundings.current.Some? {
        LeafPassSettles(w, l, c, subject);
      }
    } else if OutputSubject(subject).Some? {
      var output := OutputSubject(subject).value;
      InactiveIsWellFormed();
      ApplyChangesOutput(w, l, output, INACTIVE);
      AscendSettles(w, l.states, Apply(w, l, output, INACTIVE), c, output);
    }
  }

  lemma ReconfiguredKeepsSettled(w: World, l: Ledger, before: Catalog, c: Catalog, subject: string, surroundings: Surroundings)
    requires before.Exact() && c.WellConfigured() && ValidStates(l.states) && SameApartFrom(before.definitions, c.definitions, subject)
    ensures AllSettled(before, l.states) && Undisturbed(c, l.states, subject, surroundings) ==>
      AllSettled(c, Reconfigured(w, l, c, subject, surroundings).states)
  {
    if AllSettled(before, l.states) && Undisturbed(c, l.states, subject, surroundings) {
      forall s | s in c.definitions && c.IsSummary(s) && s != subject ensures Settled(c, l.states, s) {
        assert before.IsSummary(s) && Settled(before, l.states, s);
      }
      OutputsFollowSubjects(c);
      if subject !in c.definitions && OutputSubject(subject).Some? {
        OutputIsFree(c, subject);
      }
      ReconfiguredSettles(w, l, c, subject, surroundings);
    }
  }

  lemma InactiveIsWellFormed()
    ensures WellFormed(INACTIVE)
  {
  }
}
