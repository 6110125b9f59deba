/**
 The alert service (alert/service.go): its maps, updated in place by one event at a time under the
 service's lock. Every public method keeps Valid(), so it holds over every run of events.
 */
module AlertService {
  import opened Wrappers
  import opened Sequences
  import opened AlertModel
  import AlertEvaluator
  import AlertIntervals
  import opened AlertLedger
  import opened AlertSummaries
  import opened AlertAncestors
  import opened AlertCatalogUpdates
  import AlertAcknowledgement
  import opened AlertReconcile
  import opened AlertDelivery
  import opened AlertInputs
  import opened AlertPasses
  import opened AlertReconfiguration
  import opened AlertProperties
  import opened AlertReturns
  import opened AlertPublications
  import opened AlertAnswers
  import opened AlertAgreement
  import Dependencies

  class Service {
    const world: World
    var properties: map<string, Properties>
    var definitions: map<string, Definition>
    var byOutput: map<string, string>
    var parents: map<string, seq<string>>
    var states: map<string, State>
    var dirty: set<string>
    var log: seq<Attempt>
    var tick: nat

    constructor (world: World)
      ensures Valid() && this.world == world
      ensures Configuration() == Catalog(map[], map[], map[], map[]) && Books() == Ledger(map[], {}, [], 0)
    {
      this.world := world;
      properties, definitions, byOutput, parents := map[], map[], map[], map[];
      states, dirty, log, tick := map[], {}, [], 0;
      new;
      NothingIsSound(Configuration());
    }

    function Configuration(): Catalog
      reads `definitions, `byOutput, `parents, `properties
    {
      Catalog(definitions, byOutput, parents, properties)
    }

    function Books(): Ledger
      reads `states, `dirty, `log, `tick
    {
      Ledger(states, dirty, log, tick)
    }

    /** Indexes exact, summary graph acyclic, configurations and states valid. */
    ghost predicate Valid()
      reads `definitions, `byOutput, `parents, `properties, `states
    {
      Configuration().WellConfigured() && ValidStates(states)
    }

    // -------------------------------------------------------------- publishing

    method StoreAndPublish(subject: string, state: State)
      modifies `states, `dirty, `log
      ensures Books() == AlertLedger.StoreAndPublish(world, old(Books()), subject, state)
    {
      if subject in states && states[subject] == state && subject !in dirty {
        return;
      }
      if !ValidState(state) {
        return;
      }
      states := states[subject := state];
      var ok := world.publishes(|log|);
      log := log + [Attempt(subject, state, ok)];
      if !ok {
        dirty := dirty + {subject};
        return;
      }
      dirty := dirty - {subject};
    }

    method RepublishCanonical(subject: string)
      modifies `dirty, `log
      ensures Books() == AlertLedger.Republish(world, old(Books()), subject)
    {
      if subject !in states || !ValidState(states[subject]) {
        return;
      }
      var ok := world.publishes(|log|);
      log := log + [Attempt(subject, states[subject], ok)];
      dirty := if ok then dirty - {subject} else dirty + {subject};
    }

    // -------------------------------------------------------------- evaluation

    method Apply(output: string, evaluation: Evaluation)
      modifies `states, `dirty, `log, `tick
      ensures Books() == AlertLedger.Apply(world, old(Books()), output, evaluation)
      ensures ValidStates(old(states)) && AlertEvaluator.WellFormed(evaluation) ==> Applied(world, old(Books()), Books(), output, evaluation)
    {
      if ValidStates(states) && AlertEvaluator.WellFormed(evaluation) {
        EvaluationIsAnnounced(world, Books(), output, evaluation);
      }
      var previous := if output in states then Some(states[output]) else None;
      var draw := world.draws(tick);
      tick := tick + 1;
      var next := AlertEvaluator.ApplyEvaluation(previous, evaluation, draw.now, draw.episodeId);
      if next.Err? {
        return;
      }
      StoreAndPublish(output, next.value);
    }

    method MakeInactive(output: string)
      requires Valid()
      modifies `states, `dirty, `log, `tick
      ensures Valid() && Configuration() == old(Configuration())
      ensures Books() == AlertLedger.Apply(world, old(Books()), output, INACTIVE)
      ensures output in states && !states[output].active
    {
      Apply(output, INACTIVE);
      ApplyChangesOutput(world, old(Books()), output, INACTIVE);
    }

    method EvaluateDefinition(subject: string)
      modifies `states, `dirty, `log, `tick
      ensures Books() == Evaluate(world, old(Books()), Configuration(), subject)
    {
      if subject !in definitions {
        return;
      }
      var definition := definitions[subject];
      var evaluation: Result<Evaluation, AlertEvaluator.EvaluationError>;
      match definition.config.kind {
        case BinaryKind =>
          if !definition.input.BoolInput? || definition.config.binary.None? {
            return;
          }
          evaluation := AlertEvaluator.EvaluateBinary(definition.config.binary.value, definition.input.b, properties);
        case ValueKind =>
          if definition.input == NoInput || definition.config.value.None? {
            return;
          }
          evaluation := AlertIntervals.EvaluateValue(definition.config.value.value, definition.input, properties);
        case SummaryKind =>
          evaluation := EvaluateMembers(definition.Members());
        case UnknownKind =>
          evaluation := Ok(INACTIVE.(acknowledged := false));
      }
      if evaluation.Err? {
        Apply(definition.output, INACTIVE);
        return;
      }
      Apply(definition.output, evaluation.value);
    }

    /** Collects the members' states and evaluates the summary; a missing member is an error. */
    method EvaluateMembers(configured: seq<string>) returns (r: Result<Evaluation, AlertEvaluator.EvaluationError>)
      ensures OrInactive(r) == SummaryEvaluation(configured, states)
    {
      var members: map<string, State> := map[];
      for i := 0 to |configured|
        invariant forall m <- configured[..i] :: m in states && m in members && members[m] == states[m]
      {
        if configured[i] !in states {
          return Err(AlertEvaluator.MissingMember);
        }
        members := members[configured[i] := states[configured[i]]];
      }
      assert configured[..|configured|] == configured;
      r := AlertEvaluator.EvaluateSummary(configured, members);
      SummaryEvaluationFrame(configured, members, states);
    }

    // -------------------------------------------------------------- ancestors

    /** The breadth-first queue; seen is shared with the caller. */
    method EvaluateAncestors(output: string, seen: set<string>) returns (nowSeen: set<string>)
      modifies `states, `dirty, `log, `tick
      ensures Books() == Walk(Evaluator(world, Configuration()), old(Books()), Visits(Configuration(), Configuration().Parents(output), seen))
      ensures nowSeen == seen + Elements(Visits(Configuration(), Configuration().Parents(output), seen))
    {
      ghost var c := Configuration();
      ghost var step := Evaluator(world, c);
      ghost var order := Visits(c, c.Parents(output), seen);
      nowSeen := seen;
      var queue := Listed(parents, output);
      while queue != []
        invariant Configuration() == c
        invariant Walk(step, Books(), Visits(c, queue, nowSeen)) == Walk(step, old(Books()), order)
        invariant nowSeen + Elements(Visits(c, queue, nowSeen)) == seen + Elements(order)
        decreases c.definitions.Keys - nowSeen, |queue|
      {
        var subject := queue[0];
        ghost var rest := Visits(c, queue, nowSeen);
        queue := queue[1..];
        if subject in nowSeen {
          continue;
        }
        ghost var before := Books();
        nowSeen := nowSeen + {subject};
        EvaluateDefinition(subject);
        assert Books() == step(before, subject);
        if subject in definitions {
          queue := queue + Listed(parents, definitions[subject].output);
          assert subject in c.definitions.Keys - (nowSeen - {subject});
        } else {
          assert c.definitions.Keys - nowSeen == c.definitions.Keys - (nowSeen - {subject});
        }
        assert rest == [subject] + Visits(c, queue, nowSeen);
        assert rest[1..] == Visits(c, queue, nowSeen);
      }
    }

    // -------------------------------------------------------------- definitions

    method RemoveDefinition(subject: string)
      requires Configuration().Documented()
      modifies `definitions, `byOutput, `parents
      ensures Configuration().Documented()
      ensures !Dependencies.Cyclic(old(Configuration()).Graph()) ==> !Dependencies.Cyclic(Configuration().Graph())
      ensures if subject in old(definitions) then Removed(old(Configuration()), Configuration(), subject)
              else Configuration() == old(Configuration())
    {
      if subject !in definitions {
        return;
      }
      ghost var before := Configuration();
      var definition := definitions[subject];
      ReadyToUnhook(before, subject);
      var unhooked := UnhookParents(parents, subject, definition.Members());
      parents := unhooked;
      definitions := definitions - {subject};
      byOutput := byOutput - {definition.output};
      RemovalKeepsDocumented(before, Configuration(), subject);
    }

    method AddDefinition(subject: string, definition: Definition)
      requires Configuration().WellConfigured() && subject !in definitions
      requires ValidConfigFor(definition.config, subject) && definition.config.enabled
      requires OutputSubject(subject) == Some(definition.output) && InputSubject(subject) == Some(definition.source)
      modifies `definitions, `byOutput, `parents
      ensures Added(old(Configuration()), Configuration(), subject, definition)
      ensures Configuration().Documented() && definition.output !in old(byOutput)
      ensures Configuration().Graph() == if definition.IsSummary()
        then old(Configuration()).Graph()[definition.output := definition.Members()] else old(Configuration()).Graph()
    {
      ghost var before := Configuration();
      definitions := definitions[subject := definition];
      byOutput := byOutput[definition.output := subject];
      ReadyToHook(before, definition, subject);
      var hooked := HookParents(parents, subject, definition.Members());
      parents := hooked;
      AdditionKeepsDocumented(before, Configuration(), subject, definition);
    }

    /** Takes a definition back that was just added. */
    method TakeBack(subject: string, ghost before: Catalog)
      requires before.WellConfigured() && Configuration().Documented() && subject in definitions
      requires Added(before, Configuration(), subject, definitions[subject]) && definitions[subject].output !in before.byOutput
      modifies `definitions, `byOutput, `parents
      ensures Configuration().WellConfigured() && definitions == before.definitions && Relisted(before, Configuration(), subject)
      ensures old(definitions[subject].output) !in byOutput
    {
      ghost var added := Configuration();
      RemoveDefinition(subject);
      WithdrawalRestores(before, added, Configuration(), subject);
    }

    /** A definition that cannot stay is withdrawn and its output deactivated. */
    method Withdraw(subject: string, ghost before: Catalog)
      requires before.WellConfigured() && Configuration().Documented() && ValidStates(states) && subject in definitions
      requires Added(before, Configuration(), subject, definitions[subject]) && definitions[subject].output !in before.byOutput
      requires OutputSubject(subject) == Some(definitions[subject].output)
      modifies `definitions, `byOutput, `parents, `states, `dirty, `log, `tick
      ensures Valid() && definitions == before.definitions && Relisted(before, Configuration(), subject)
      ensures Books() == Deactivated(world, old(Books()), Configuration(), OutputSubject(subject).value)
      ensures IsInactive(states, subject)
    {
      var output := definitions[subject].output;
      TakeBack(subject, before);
      ghost var c, l := Configuration(), Books();
      Deactivate(output);
      assert Configuration() == c && Books() == Deactivated(world, l, c, output);
    }

    /** An output without a definition shows inactive, and everything above it is told. */
    method Deactivate(output: string)
      requires Valid() && output !in byOutput
      modifies `states, `dirty, `log, `tick
      ensures Valid() && Configuration() == old(Configuration())
      ensures Books() == Deactivated(world, old(Books()), Configuration(), output)
      ensures output in states && !states[output].active
    {
      MakeInactive(output);
      ghost var l := Books();
      Ascend(output);
      AscendKeepsLeaf(world, l, Configuration(), output);
    }

    /** A member that has no state yet takes the retained one. */
    method CatchUp(member: string, retained: map<string, Wire>)
      modifies `states
      ensures states == CaughtUp(old(states), [member], retained)
    {
      if member in states || member !in retained || retained[member].Malformed? || !ValidState(retained[member].state) {
        return;
      }
      states := states[member := retained[member].state];
    }

    method CatchUpMembers(members: seq<string>, retained: map<string, Wire>)
      modifies `states
      ensures states == CaughtUp(old(states), members, retained)
    {
      for i := 0 to |members|
        invariant states == CaughtUp(old(states), members[..i], retained)
      {
        assert members[..i + 1][..i] == members[..i];
        CatchUp(members[i], retained);
      }
      assert members[..|members|] == members;
    }

    /** A summary definition in place: members caught up, the summary and everything above it evaluated. */
    method StartSummary(subject: string, retained: map<string, Wire>)
      requires Valid() && Configuration().IsSummary(subject)
      modifies `states, `dirty, `log, `tick
      ensures Valid() && Configuration() == old(Configuration())
      ensures Books() == Evaluated(world, old(Books()).(states := CaughtUp(old(states), Configuration().Members(subject), retained)),
                                   Configuration(), subject)
      ensures Settled(Configuration(), states, subject)
    {
      ghost var c, start := Configuration(), Books();
      CatchUpMembers(definitions[subject].Members(), retained);
      ghost var l := start.(states := CaughtUp(start.states, c.Members(subject), retained));
      assert Configuration() == c && Books() == l;
      EvaluateAndAscend(subject);
      assert Configuration() == c && Books() == Evaluated(world, l, c, subject);
      CaughtUpIsValid(start.states, c.Members(subject), retained);
      EvaluatedSummarySettles(world, l, c, subject);
    }

    /** A definition and then everything above it. */
    method EvaluateAndAscend(subject: string)
      requires subject in definitions
      modifies `states, `dirty, `log, `tick
      ensures Books() == Evaluated(world, old(Books()), Configuration(), subject)
    {
      EvaluateDefinition(subject);
      Ascend(definitions[subject].output);
    }

    method EnterInput(subject: string, value: Input)
      requires subject in definitions
      modifies `definitions, `states, `dirty, `log, `tick
      ensures Configuration() == WithInput(old(Configuration()), subject, value)
      ensures Books() == Evaluated(world, old(Books()), Configuration(), subject)
    {
      ghost var l := Books();
      definitions := definitions[subject := definitions[subject].(input := value)];
      assert Books() == l;
      EvaluateAndAscend(subject);
    }

    /** A new input for a leaf alert: the alert and everything above it evaluated. */
    method AcceptInput(subject: string, value: Input)
      requires Valid() && IsLeaf(Configuration(), subject)
      modifies `definitions, `states, `dirty, `log, `tick
      ensures Valid()
      ensures Configuration() == WithInput(old(Configuration()), subject, value)
      ensures Books() == Evaluated(world, old(Books()), Configuration(), subject)
      ensures LeafAgrees(Configuration(), states, subject)
      ensures OtherLeavesKept(Configuration(), old(states), states, subject)
      ensures AllSettled(old(Configuration()), old(states))
           && DependentsFollow(Configuration(), VisitOrder(Configuration(), Configuration().Output(subject)))
        ==> AllSettled(Configuration(), states)
      ensures Returning(old(Configuration()), old(states)) ==> Returning(Configuration(), states)
      ensures LeavesAgree(old(Configuration()), old(states)) ==> LeavesAgree(Configuration(), states)
      ensures Tells(old(Books()), Books(), {})
    {
      ghost var before, l := Configuration(), Books();
      EnterInput(subject, value);
      InputIsAccepted(world, l, before, subject, value);
      EvaluatedTells(world, l, Configuration(), subject);
      InputKeepsAgreement(world, l, before, subject, value);
      if Returning(before, l.states) {
        InputKeepsReturning(world, l, before, subject, value);
      }
    }

    /** A summary just added stays exactly when it closes no cycle. */
    method StartOrWithdrawSummary(subject: string, surroundings: Surroundings, ghost before: Catalog)
      requires before.WellConfigured() && Configuration().Documented() && ValidStates(states) && subject in definitions
      requires Added(before, Configuration(), subject, definitions[subject]) && definitions[subject].output !in before.byOutput
      requires OutputSubject(subject) == Some(definitions[subject].output) && definitions[subject].IsSummary()
      requires definitions[subject].input == NoInput
      requires Configuration().Graph() == before.Graph()[definitions[subject].output := definitions[subject].Members()]
      modifies `definitions, `byOutput, `parents, `states, `dirty, `log, `tick
      ensures Valid()
      ensures Taken(before.definitions, Configuration(), states, subject, old(definitions)[subject].config, surroundings,
                    !Dependencies.Cyclic(old(Configuration()).Graph()))
      ensures Relisted(before, Configuration(), subject)
      ensures Books() == Reconfigured(world, old(Books()), Configuration(), subject, surroundings)
    {
      ghost var added := Configuration();
      AdditionRelists(before, added, subject, added.definitions[subject]);
      var cyclic := Dependencies.FindCycle(Configuration().Graph(), before.Graph(), definitions[subject].output);
      if cyclic {
        Withdraw(subject, before);
        WithdrawnIsTaken(before, added, Configuration(), states, subject, surroundings);
      } else {
        StartSummary(subject, surroundings.retained);
        SummaryIsTaken(before, Configuration(), states, subject, surroundings);
      }
    }

    /** A leaf just added stays exactly when its input can be watched, and takes the current value. */
    method StartOrWithdrawLeaf(subject: string, surroundings: Surroundings, ghost before: Catalog)
      requires before.WellConfigured() && Configuration().Documented() && ValidStates(states) && subject in definitions
      requires Added(before, Configuration(), subject, definitions[subject]) && definitions[subject].output !in before.byOutput
      requires OutputSubject(subject) == Some(definitions[subject].output) && !definitions[subject].config.kind.SummaryKind?
      requires definitions[subject].input == NoInput
      requires Configuration().Graph() == before.Graph()
      modifies `definitions, `byOutput, `parents, `states, `dirty, `log, `tick
      ensures Valid()
      ensures Taken(before.definitions, Configuration(), states, subject, old(definitions)[subject].config, surroundings,
                    surroundings.watchable)
      ensures Relisted(before, Configuration(), subject)
      ensures Books() == Reconfigured(world, old(Books()), Configuration(), subject, surroundings)
    {
      ghost var added := Configuration();
      AdditionRelists(before, added, subject, added.definitions[subject]);
      if !surroundings.watchable {
        Withdraw(subject, before);
        WithdrawnIsTaken(before, added, Configuration(), states, subject, surroundings);
      } else {
        if surroundings.current.Some? {
          AcceptInput(subject, surroundings.current.value);
        }
        LeafIsTaken(before, added, Configuration(), states, subject, surroundings);
      }
    }

    /** A valid, enabled configuration for a subject without a definition. */
    method Define(subject: string, config: Config, surroundings: Surroundings)
      requires Valid() && subject !in definitions && ValidConfigFor(config, subject) && config.enabled
      modifies `definitions, `byOutput, `parents, `states, `dirty, `log, `tick
      ensures Valid()
      ensures Taken(old(definitions), Configuration(), states, subject, config, surroundings,
                    Admits(old(Configuration()).Graph(), subject, config, surroundings))
      ensures Relisted(old(Configuration()), Configuration(), subject)
      ensures Books() == Reconfigured(world, old(Books()), Configuration(), subject, surroundings)
    {
      ghost var before := Configuration();
      var output, source := OutputSubject(subject).value, InputSubject(subject).value;
      AddDefinition(subject, Definition(config, output, source, NoInput));
      if config.kind.SummaryKind? {
        StartOrWithdrawSummary(subject, surroundings, before);
      } else {
        StartOrWithdrawLeaf(subject, surroundings, before);
      }
    }

    /** A subject without a definition: its output, if it has one, goes inactive. */
    method ShowInactive(subject: string, ghost surroundings: Surroundings)
      requires Valid() && subject !in definitions
      requires OutputSubject(subject).Some? ==> OutputSubject(subject).value !in byOutput
      modifies `states, `dirty, `log, `tick
      ensures Valid() && Configuration() == old(Configuration()) && IsInactive(states, subject)
      ensures Books() == Reconfigured(world, old(Books()), Configuration(), subject, surroundings)
    {
      var output := OutputSubject(subject);
      if output.Some? {
        Deactivate(output.value);
      }
    }

    /** A configuration message for a subject without a definition. */
    method TakeOver(subject: string, raw: Option<Config>, surroundings: Surroundings)
      requires Valid() && subject !in definitions
      requires OutputSubject(subject).Some? ==> OutputSubject(subject).value !in byOutput
      modifies `definitions, `byOutput, `parents, `states, `dirty, `log, `tick
      ensures Valid() && Reconciled(old(Configuration()), Configuration(), states, subject, raw, surroundings)
      ensures Books() == Reconfigured(world, old(Books()), Configuration(), subject, surroundings)
    {
      ghost var before := Configuration();
      if raw.None? || !ValidConfigFor(raw.value, subject) || !raw.value.enabled {
        ShowInactive(subject, surroundings);
        RefusedIsReconciled(before, states, subject, raw, surroundings);
      } else {
        Define(subject, raw.value, surroundings);
        TakenIsReconciled(before, Configuration(), states, subject, raw.value, surroundings);
      }
    }

    /** The old definition goes, and the new one may come. */
    method Redefine(subject: string, raw: Option<Config>, surroundings: Surroundings)
      requires Valid()
      modifies `definitions, `byOutput, `parents, `states, `dirty, `log, `tick
      ensures Valid() && Reconciled(old(Configuration()), Configuration(), states, subject, raw, surroundings)
      ensures Books() == Reconfigured(world, old(Books()), Configuration(), subject, surroundings)
    {
      ghost var before, l := Configuration(), Books();
      RemoveDefinition(subject);
      ghost var removed := Configuration();
      assert Books() == l;
      RemovedIsFree(before, removed, subject);
      RemovalRelists(before, removed, subject);
      TakeOver(subject, raw, surroundings);
      ReconciledAfterRemoval(before, removed, Configuration(), states, subject, raw, surroundings);
    }

    /**
     A configuration is taken over exactly when it is valid, enabled and closes no cycle (or, for a
     leaf, its input can be watched). Otherwise the subject has no definition and its output is inactive.
     */
    method ReconcileConfig(subject: string, raw: Option<Config>, surroundings: Surroundings)
      requires Valid()
      modifies `definitions, `byOutput, `parents, `states, `dirty, `log, `tick
      ensures Valid() && Reconciled(old(Configuration()), Configuration(), states, subject, raw, surroundings)
      ensures Books() == Reconfigured(world, old(Books()), Configuration(), subject, surroundings)
      ensures AllSettled(old(Configuration()), old(states)) && Undisturbed(Configuration(), old(states), subject, surroundings)
        ==> AllSettled(Configuration(), states)
      ensures Returning(old(Configuration()), old(states)) ==>
        (Returning(Configuration(), states) <==> Harmless(old(Configuration()), Configuration(), old(states), subject, surroundings))
      ensures Tells(old(Books()), Books(), AdoptedBy(Configuration(), old(states), subject, surroundings))
      ensures LeavesAgree(old(Configuration()), old(states)) ==> LeavesAgree(Configuration(), states)
    {
      ghost var before, l := Configuration(), Books();
      Redefine(subject, raw, surroundings);
      ReconfiguredKeepsSettled(world, l, before, Configuration(), subject, surroundings);
      ReconfiguredTells(world, l, Configuration(), subject, surroundings);
      ConfigurationKeepsAgreement(world, l, before, Configuration(), subject, surroundings);
      if Returning(before, l.states) {
        ConfigurationKeepsReturning(world, l, before, Configuration(), subject, surroundings);
      }
    }

    // -------------------------------------------------------------- inputs and properties

    /** A telemetry value reaches exactly the leaf alerts that monitor its subject. */
    method AcceptSource(source: string, value: Input)
      requires Valid()
      modifies `definitions, `states, `dirty, `log, `tick
      ensures Valid()
      ensures Feeding(old(Configuration()), Configuration(), old(states), states, source, value, {})
      ensures Returning(old(Configuration()), old(states)) ==> Returning(Configuration(), states)
      ensures LeavesAgree(old(Configuration()), old(states)) ==> LeavesAgree(Configuration(), states)
      ensures Tells(old(Books()), Books(), {})
    {
      ghost var c0 := Configuration();
      NothingTold(Books(), {});
      var todo := definitions.Keys;
      while todo != {}
        invariant Valid() && Feeding(c0, Configuration(), old(states), states, source, value, todo)
        invariant Returning(c0, old(states)) ==> Returning(Configuration(), states)
        invariant LeavesAgree(c0, old(states)) ==> LeavesAgree(Configuration(), states)
        invariant Tells(old(Books()), Books(), {})
      {
        var subject :| subject in todo;
        ghost var left, c, before, l := todo, Configuration(), states, Books();
        todo := todo - {subject};
        FedSubject(c0, c, old(states), states, source, value, left, subject);
        if !definitions[subject].config.kind.SummaryKind? && definitions[subject].source == source {
          AcceptInput(subject, value);
          ToldOn(old(Books()), l, Books(), {});
          FeedStep(c0, c, Configuration(), old(states), before, states, source, value, left, subject);
        } else {
          FeedSkip(c0, c, old(states), states, source, value, left, subject);
        }
      }
    }

    /** One leaf evaluated again, and what is above it unless it was evaluated for an earlier leaf. */
    method ReevaluateLeaf(subject: string, seen: set<string>) returns (nowSeen: set<string>)
      requires subject in definitions
      modifies `states, `dirty, `log, `tick
      ensures Pass(Books(), nowSeen) == Next(world, Configuration(), Pass(old(Books()), seen), subject)
    {
      EvaluateDefinition(subject);
      nowSeen := EvaluateAncestors(definitions[subject].output, seen);
    }

    /** All leaves that refer to a property, in any order, with one set of summaries seen. */
    method ReevaluateLeaves(property: string) returns (ghost leaves: seq<string>)
      modifies `states, `dirty, `log, `tick
      ensures Lists(Configuration(), property, leaves) && Leaves(Configuration(), leaves)
      ensures Books() == PassAfter(world, old(Books()), Configuration(), leaves).ledger
    {
      ghost var c, l := Configuration(), Books();
      var seen, todo := {}, definitions.Keys;
      leaves := [];
      while todo != {}
        invariant Configuration() == c && Progress(c, property, leaves, todo) && Leaves(c, leaves)
        invariant Pass(Books(), seen) == PassAfter(world, l, c, leaves)
      {
        var subject :| subject in todo;
        todo := todo - {subject};
        if Affected(definitions[subject], property) {
          PassExtends(world, l, c, leaves, subject);
          seen := ReevaluateLeaf(subject, seen);
          leaves := leaves + [subject];
        }
      }
    }

    /**
     New alert properties: every leaf with an input that refers to them is evaluated with them, in any
     order; other leaves are untouched. Settled summaries stay settled if no two of the leaves share one.
     */
    method ReconcileProperty(property: string, raw: Option<Properties>) returns (ghost leaves: seq<string>)
      requires Valid()
      modifies `properties, `states, `dirty, `log, `tick
      ensures Valid()
      ensures properties == if raw.Some? && ValidProperties(raw.value) then old(properties)[property := raw.value]
                            else old(properties) - {property}
      ensures Lists(Configuration(), property, leaves) && Leaves(Configuration(), leaves)
      ensures Books() == PassAfter(world, old(Books()), Configuration(), leaves).ledger
      ensures Refreshed(Configuration(), old(states), states, leaves)
      ensures Unshared(Configuration(), property) && AllSettled(old(Configuration()), old(states)) ==> AllSettled(Configuration(), states)
      ensures Returning(old(Configuration()), old(states)) ==> Returning(Configuration(), states)
      ensures LeavesAgree(old(Configuration()), old(states)) ==> LeavesAgree(Configuration(), states)
      ensures Tells(old(Books()), Books(), {})
    {
      ghost var before := Configuration();
      properties := if raw.Some? && ValidProperties(raw.value) then properties[property := raw.value] else properties - {property};
      ghost var c, l := Configuration(), Books();
      OnePropertyChanged(before.properties, c.properties, property);
      PropertiesDoNotMatter(before, c);
      leaves := ReevaluateLeaves(property);
      assert Configuration() == c && Books() == PassAfter(world, l, c, leaves).ledger;
      PropertiesTakeEffect(world, l, before, c, property, leaves);
    }

    // -------------------------------------------------------------- the initial fixed point

    /** Evaluating a summary, with what that means for the summaries. */
    method EvaluateOneSummary(subject: string)
      requires ValidStates(states) && Configuration().IsSummary(subject)
      modifies `states, `dirty, `log, `tick
      ensures ValidStates(states) && Walked(world, Configuration(), old(Books()), Books(), [subject])
      ensures EvaluationOutcome(Configuration(), old(states), states, subject)
      ensures Settled(Configuration(), old(states), subject) ==> states == old(states)
    {
      EvaluateDefinition(subject);
      EvaluateSummaryOutcome(world, old(Books()), Configuration(), subject);
      SettledIsFixedPoint(world, old(Books()), Configuration(), subject);
      WalkedOne(world, Configuration(), old(Books()), subject);
    }

    /** Evaluates a summary and tells whether its state changed. */
    method EvaluateAndCompare(subject: string) returns (differs: bool)
      requires ValidStates(states) && Configuration().IsSummary(subject)
      modifies `states, `dirty, `log, `tick
      ensures ValidStates(states) && Walked(world, Configuration(), old(Books()), Books(), [subject])
      ensures EvaluationOutcome(Configuration(), old(states), states, subject)
      ensures Settled(Configuration(), old(states), subject) ==> states == old(states)
      ensures differs <==> Find(old(states), Configuration().Output(subject)) != Find(states, Configuration().Output(subject))
    {
      var previous := Find(states, definitions[subject].output);
      EvaluateOneSummary(subject);
      differs := previous != Find(states, definitions[subject].output);
    }

    /** One definition of a pass: a summary is evaluated, anything else is skipped. */
    method PassOver(
      subject: string, changed: bool, ghost c: Catalog, ghost start: Ledger, ghost order: seq<string>, ghost n: nat,
      ghost todo: set<string>, ghost evaluated: seq<string>)
      returns (nowChanged: bool, ghost nowEvaluated: seq<string>)
      requires c == Configuration() && c.Exact() && OrdersSummaries(c, order) && KindsMatch(c)
      requires InPass(c, start.states, states, order, n, todo, changed) && subject in todo && subject in definitions
      requires ValidStates(states) && Walked(world, c, start, Books(), evaluated)
      modifies `states, `dirty, `log, `tick
      ensures InPass(c, start.states, states, order, n, todo - {subject}, nowChanged)
      ensures ValidStates(states) && Walked(world, c, start, Books(), nowEvaluated)
    {
      nowChanged, nowEvaluated := changed, evaluated;
      ghost var l := Books();
      if definitions[subject].config.kind.SummaryKind? {
        var differs := EvaluateAndCompare(subject);
        nowChanged, nowEvaluated := changed || differs, evaluated + [subject];
        PassStep(c, start.states, l.states, states, order, n, todo, changed, subject);
        WalkedOn(world, c, start, l, Books(), evaluated, [subject]);
      } else {
        PassSkip(c, start.states, states, order, n, todo, changed, subject);
      }
    }

    /** One pass over the definitions, in any order; changed tells whether a state did. */
    method EvaluatePass(ghost c: Catalog, ghost order: seq<string>, ghost n: nat) returns (changed: bool, ghost evaluated: seq<string>)
      requires c == Configuration() && c.Exact() && OrdersSummaries(c, order) && KindsMatch(c)
      requires ValidStates(states) && SettledBelow(c, states, order, n)
      modifies `states, `dirty, `log, `tick
      ensures ValidStates(states) && InPass(c, old(states), states, order, n, {}, changed)
      ensures Walked(world, c, old(Books()), Books(), evaluated)
    {
      changed, evaluated := false, [];
      ghost var start := Books();
      var todo := definitions.Keys;
      while todo != {}
        invariant todo <= c.definitions.Keys && ValidStates(states)
        invariant InPass(c, start.states, states, order, n, todo, changed)
        invariant Walked(world, c, start, Books(), evaluated)
      {
        var subject :| subject in todo;
        changed, evaluated := PassOver(subject, changed, c, start, order, n, todo, evaluated);
        todo := todo - {subject};
      }
    }

    /**
     Summary evaluation in passes, each over all definitions in any order. On the acyclic graph the
     passes allowed are enough: every summary ends settled, and nothing but summaries was evaluated.
     */
    method EvaluateAllSummaries() returns (ghost evaluated: seq<string>)
      requires Valid()
      modifies `states, `dirty, `log, `tick
      ensures Valid() && Configuration() == old(Configuration())
      ensures AllSettled(Configuration(), states)
      ensures Walked(world, Configuration(), old(Books()), Books(), evaluated)
      ensures OnlySummariesChanged(Configuration(), old(states), states)
      ensures Returning(Configuration(), old(states)) ==> Returning(Configuration(), states)
      ensures LeavesAgree(old(Configuration()), old(states)) ==> LeavesAgree(Configuration(), states)
      ensures Tells(old(Books()), Books(), {})
    {
      ghost var c, l := Configuration(), Books();
      evaluated := RunPasses(c);
      SummariesKeepReturning(world, l, c, evaluated);
      WalkTells(world, l, c, evaluated);
      if LeavesAgree(c, l.states) {
        WalkKeepsAgreement(world, l, c, evaluated);
      }
    }

    method RunPasses(ghost c: Catalog) returns (ghost evaluated: seq<string>)
      requires c == Configuration() && c.WellConfigured() && ValidStates(states)
      modifies `states, `dirty, `log, `tick
      ensures ValidStates(states) && AllSettled(c, states)
      ensures Walked(world, c, old(Books()), Books(), evaluated)
      ensures OnlySummariesChanged(c, old(states), states)
    {
      ghost var order := SummaryOrder(c);
      var pass := 0;
      evaluated := [];
      while pass <= |definitions|
        invariant ValidStates(states) && SettledBelow(c, states, order, pass)
        invariant Walked(world, c, old(Books()), Books(), evaluated)
        invariant OnlySummariesChanged(c, old(states), states)
      {
        ghost var start, more := Books(), [];
        var changed;
        changed, more := EvaluatePass(c, order, pass);
        WalkedOn(world, c, old(Books()), start, Books(), evaluated, more);
        evaluated := evaluated + more;
        PassDone(c, old(states), start.states, states, order, pass, changed);
        if !changed {
          return;
        }
        pass := pass + 1;
      }
      AllBelow(c, states, order);
    }

    // -------------------------------------------------------------- state messages

    method AcknowledgeOne(subject: string)
      modifies `states, `dirty, `log, `tick
      ensures Books() == AlertAcknowledgement.AcknowledgeOne(world, old(Books()), subject)
    {
      if subject !in states || !states[subject].pending {
        return;
      }
      var now := world.draws(tick).now;
      tick := tick + 1;
      var next := AlertEvaluator.Acknowledge(states[subject], states[subject].episodeId, now);
      if next.Err? {
        return;
      }
      StoreAndPublish(subject, next.value);
    }

    method AcknowledgeTree(subject: string, visiting: set<string>)
      modifies `states, `dirty, `log, `tick
      ensures Books() == AlertAcknowledgement.AcknowledgeTree(world, old(Books()), Configuration().Graph(), subject, visiting)
      decreases Dependencies.Nodes(Configuration().Graph()) + {subject} - visiting
    {
      if subject in visiting {
        return;
      }
      ghost var g := Configuration().Graph();
      var members := if subject in byOutput && byOutput[subject] in definitions then definitions[byOutput[subject]].Members() else [];
      Configuration().GraphMembers(subject, members);
      assert subject in Dependencies.Nodes(g) + {subject} - visiting;
      for i := 0 to |members|
        invariant Configuration() == old(Configuration())
        invariant AlertAcknowledgement.AcknowledgeMembers(world, Books(), g, members[i..], visiting + {subject})
               == AlertAcknowledgement.AcknowledgeMembers(world, old(Books()), g, members, visiting + {subject})
      {
        assert members[i..][0] == members[i] && members[i..][1..] == members[i + 1..];
        if members[i] in states && (states[members[i]].active || states[members[i]].pending) {
          assert Dependencies.Nodes(g) + {members[i]} == Dependencies.Nodes(g);
          AcknowledgeTree(members[i], visiting + {subject});
        }
      }
      AcknowledgeOne(subject);
    }

    /** Everything above an output is evaluated, with nothing seen before. */
    method Ascend(output: string)
      modifies `states, `dirty, `log, `tick
      ensures Books() == AlertReconcile.Ascend(world, old(Books()), Configuration(), output)
    {
      var seen := EvaluateAncestors(output, {});
    }

    method AcknowledgeRequest(subject: string)
      requires subject in byOutput
      modifies `states, `dirty, `log, `tick
      ensures Books() == Acknowledged(world, old(Books()), Configuration(), subject)
    {
      if byOutput[subject] in definitions && definitions[byOutput[subject]].IsSummary() {
        AcknowledgeTree(subject, {});
      } else {
        AcknowledgeOne(subject);
      }
      Ascend(subject);
    }

    method ExternalState(subject: string, incoming: State)
      modifies `states, `dirty, `log, `tick
      ensures Books() == Observed(world, old(Books()), Configuration(), subject, incoming)
    {
      if !ValidState(incoming) {
        return;
      }
      states := states[subject := incoming];
      Ascend(subject);
    }

    /** A message on a state subject, from the service itself or from anyone else. */
    method ReconcileState(subject: string, message: Wire)
      requires Valid()
      modifies `states, `dirty, `log, `tick
      ensures Valid()
      ensures Books() == Reconcile(world, old(Books()), Configuration(), subject, message)
      ensures Returning(Configuration(), old(states)) ==>
        (Returning(Configuration(), states) <==>
          (Adopts(Configuration(), old(states), subject, message) ==> Welcome(Configuration(), subject, message.state)))
      ensures AllSettled(Configuration(), old(states)) && DependentsFollow(Configuration(), VisitOrder(Configuration(), subject))
        ==> AgreesAfter(Configuration(), old(states), states, subject, message)
      ensures Tells(old(Books()), Books(), AdoptedFrom(Configuration(), old(states), subject, message))
      ensures LeavesAgree(old(Configuration()), old(states)) ==> LeavesAgree(Configuration(), states)
    {
      ghost var c, l := Configuration(), Books();
      Dispatch(subject, message);
      ReconcileKeepsValid(world, l, c, subject, message);
      MessageSettles(world, l, c, subject, message);
      ReconcileTells(world, l, c, subject, message);
      MessageKeepsAgreement(world, l, c, subject, message);
      if Returning(c, l.states) {
        MessageKeepsReturning(world, l, c, subject, message);
      }
    }

    method Dispatch(subject: string, message: Wire)
      modifies `states, `dirty, `log, `tick
      ensures Books() == Reconcile(world, old(Books()), Configuration(), subject, message)
    {
      if message.Malformed? {
        if subject in byOutput {
          RepublishCanonical(subject);
        }
      } else if subject !in byOutput || subject !in states {
        ExternalState(subject, message.state);
      } else if states[subject] == message.state {
      } else if message.state.acknowledged && states[subject].pending && message.state.episodeId == states[subject].episodeId {
        AcknowledgeRequest(subject);
      } else {
        RepublishCanonical(subject);
      }
    }
  }
}
