/**
 Small configurations in which the service falls short: each is built by the service itself or shown
 to be one it can hold. Subjects are named by letters.
 */
module AlertExamples {
  import opened Wrappers
  import opened Sequences
  import opened AlertModel
  import opened AlertEvaluator
  import opened AlertLedger
  import opened AlertSummaries
  import opened AlertAncestors
  import opened AlertCatalogUpdates
  import opened AlertAcknowledgement
  import opened AlertDelivery
  import opened AlertReconcile
  import opened AlertStaleness
  import opened AlertProperties
  import opened AlertReconfiguration
  import opened AlertReturns
  import opened AlertService
  import Dependencies

  predicate Letter(x: char) {
    'a' <= x <= 'z'
  }

  function ConfigOf(x: char): string {
    [x] + CONFIG_SUFFIX
  }

  function AlertOf(x: char): string {
    [x] + ALERT_SUFFIX
  }

  lemma NamesAreValid(x: char)
    requires Letter(x)
    ensures InputSubject(ConfigOf(x)) == Some([x]) && OutputSubject(ConfigOf(x)) == Some(AlertOf(x))
    ensures ValidAlertSubject(AlertOf(x)) && AlertOf(x) != ALERT_SUFFIX
  {
    ConfigIsSubject(x);
    AlertIsSubject(x);
    assert ConfigOf(x)[..1] == [x] && ConfigOf(x)[1..] == CONFIG_SUFFIX;
    assert AlertOf(x)[1..] == ALERT_SUFFIX;
    assert |AlertOf(x)| == 7 && |ALERT_SUFFIX| == 6;
  }

  lemma ConfigIsSubject(x: char)
    requires Letter(x)
    ensures ValidSubject(ConfigOf(x))
  {
    var s := ConfigOf(x);
    assert |s| == 14 && s == [x] + ".alert_config";
    assert forall i | 0 <= i < 14 :: s[i] !in " \t\r\n*>";
    assert forall i | 0 <= i < 14 && i != 1 :: s[i] != '.';
  }

  lemma AlertIsSubject(x: char)
    requires Letter(x)
    ensures ValidSubject(AlertOf(x))
  {
    var s := AlertOf(x);
    assert |s| == 7 && s == [x] + ".alert";
    assert forall i | 0 <= i < 7 :: s[i] !in " \t\r\n*>";
    assert forall i | 0 <= i < 7 && i != 1 :: s[i] != '.';
  }

  lemma NamesDiffer(x: char, y: char)
    requires x != y
    ensures ConfigOf(x) != ConfigOf(y) && AlertOf(x) != AlertOf(y)
  {
    assert ConfigOf(x)[0] != ConfigOf(y)[0] && AlertOf(x)[0] != AlertOf(y)[0];
  }

  function SummaryConfig(members: seq<string>): Config {
    Config(CURRENT_VERSION, true, SummaryKind, None, None, Some(members))
  }

  const REFERENCE := "AlertProperties.p"

  /** Bad when true, presented with the properties above. */
  const LEAF_CONFIG :=
    Config(CURRENT_VERSION, true, BinaryKind, Some(BinaryConfig(true, Mapping(REFERENCE, "on"), Mapping("", "off"))), None, None)

  const NOTHING_AROUND := Surroundings(map[], true, None)

  lemma SummaryConfigIsValid(x: char, members: seq<string>)
    requires Letter(x) && ValidSummary(members) && AlertOf(x) !in members
    ensures ValidConfigFor(SummaryConfig(members), ConfigOf(x))
  {
    NamesAreValid(x);
  }

  lemma LeafConfigIsValid(x: char)
    requires Letter(x)
    ensures ValidConfigFor(LEAF_CONFIG, ConfigOf(x))
  {
    NamesAreValid(x);
    ReferenceIsValid();
    WordIsNotBlank("on");
    WordIsNotBlank("off");
  }

  lemma OneMemberIsValid(x: char)
    requires Letter(x)
    ensures ValidSummary([AlertOf(x)])
  {
    NamesAreValid(x);
  }

  lemma TwoMembersAreValid(x: char, y: char)
    requires Letter(x) && Letter(y) && x != y
    ensures ValidSummary([AlertOf(x), AlertOf(y)])
  {
    NamesAreValid(x);
    NamesAreValid(y);
    NamesDiffer(x, y);
  }

  // ---------------------------------------------------------------- a diamond

  /** Summary b lists x and summary a, which also lists x; b was configured first. */
  ghost predicate DiamondAt(c: Catalog, configA: string, configB: string, x: string) {
    && c.IsSummary(configA) && c.IsSummary(configB) && configA != configB
    && c.Members(configA) == [x] && c.Members(configB) == [x, c.Output(configA)]
    && c.Parents(x) == [configB, configA] && c.Parents(c.Output(configA)) == [configB] && c.Parents(c.Output(configB)) == []
  }

  lemma DiamondVisits(c: Catalog, configA: string, configB: string, x: string)
    requires DiamondAt(c, configA, configB, x)
    ensures VisitOrder(c, x) == [configB, configA]
  {
    assert Visits(c, [configB], {configA, configB}) == [];
    assert [configA][1..] + [configB] == [configB] && {configB} + {configA} == {configA, configB};
    assert Visits(c, [configA], {configB}) == [configA];
    assert [configB, configA][1..] + [] == [configA] && {} + {configB} == {configB};
  }

  /** One pass after a change of x is not enough. */
  lemma DiamondIsNotRestored(c: Catalog, configA: string, configB: string, x: string)
    requires c.Sound() && DiamondAt(c, configA, configB, x)
    ensures !OnePassRestores(c, x)
  {
    DiamondVisits(c, configA, configB, x);
    var order := VisitOrder(c, x);
    assert c.IsParent(configB, c.Output(order[1])) && configB !in order[1 + 1..];
    OnePassRestoresExactly(c, x);
  }

  lemma DiamondIsAcyclic(a: string, b: string, x: string)
    requires a != b && b != x && x != a
    ensures !Dependencies.Cyclic(map[a := [x], b := [x, a]])
    ensures !Dependencies.Cyclic(map[b := [x, a]])
  {
    var g: Dependencies.Graph, order := map[a := [x], b := [x, a]], [a, b];
    assert order[..1] == [a];
    assert Dependencies.MembersBefore(g, order, 0) && Dependencies.MembersBefore(g, order, 1);
    forall p ensures !Dependencies.IsCycle(g, p) {
      if |p| >= 2 && Dependencies.IsPath(g, p) {
        assert Dependencies.Edge(g, p[0], p[0 + 1]);
        assert p[0] in order;
        CyclesStayOutside(g, order, p);
      }
    }
    Dependencies.SubgraphStaysAcyclic(g, map[b := [x, a]]);
  }

  lemma CyclesStayOutside(g: Dependencies.Graph, order: seq<string>, p: seq<string>)
    requires Dependencies.Topological(g, order) && p != [] && p[0] in order
    ensures !Dependencies.IsCycle(g, p)
  {
    if Dependencies.IsCycle(g, p) {
      Dependencies.NoCycleFrom(g, order, p);
    }
  }

  lemma OneSummaryGraph(c: Catalog, subject: string)
    requires c.Exact() && c.definitions.Keys == {subject} && c.IsSummary(subject)
    ensures c.Graph() == map[c.Output(subject) := c.Members(subject)]
  {
    c.GraphEdges(subject);
  }

  lemma OutputOfConfig(c: Catalog, x: char)
    requires c.Documented() && Letter(x) && ConfigOf(x) in c.definitions
    ensures c.Output(ConfigOf(x)) == AlertOf(x)
  {
    NamesAreValid(x);
    assert c.ValidDefinition(ConfigOf(x));
  }

  /** The first configuration of the diamond is taken over. */
  lemma FirstOfDiamond(c: Catalog, a: char, b: char, x: char)
    requires Letter(a) && Letter(b) && Letter(x) && Distinct([a, b, x]) && c.Graph() == map[]
    ensures Accepts(c, ConfigOf(b), Some(SummaryConfig([AlertOf(x), AlertOf(a)])), NOTHING_AROUND)
  {
    DistinctLetters(a, b, x);
    NamesAreValid(b);
    TwoMembersAreValid(x, a);
    SummaryConfigIsValid(b, [AlertOf(x), AlertOf(a)]);
    DiamondIsAcyclic(AlertOf(a), AlertOf(b), AlertOf(x));
    assert (c.Graph() - {AlertOf(b)})[AlertOf(b) := [AlertOf(x), AlertOf(a)]] == map[AlertOf(b) := [AlertOf(x), AlertOf(a)]];
  }

  lemma DistinctLetters(a: char, b: char, x: char)
    requires Distinct([a, b, x])
    ensures a != b && b != x && x != a
    ensures AlertOf(a) != AlertOf(b) && AlertOf(b) != AlertOf(x) && AlertOf(x) != AlertOf(a)
    ensures ConfigOf(a) != ConfigOf(b)
  {
    assert [a, b, x][0] != [a, b, x][1] && [a, b, x][1] != [a, b, x][2] && [a, b, x][0] != [a, b, x][2];
    NamesDiffer(a, b);
    NamesDiffer(b, x);
    NamesDiffer(x, a);
  }

  /** And so is the second. */
  lemma SecondOfDiamond(c: Catalog, a: char, b: char, x: char)
    requires Letter(a) && Letter(b) && Letter(x) && Distinct([a, b, x])
    requires c.Graph() == map[AlertOf(b) := [AlertOf(x), AlertOf(a)]]
    ensures Accepts(c, ConfigOf(a), Some(SummaryConfig([AlertOf(x)])), NOTHING_AROUND)
  {
    DistinctLetters(a, b, x);
    NamesAreValid(a);
    OneMemberIsValid(x);
    SummaryConfigIsValid(a, [AlertOf(x)]);
    DiamondIsAcyclic(AlertOf(a), AlertOf(b), AlertOf(x));
    assert (c.Graph() - {AlertOf(a)})[AlertOf(a) := [AlertOf(x)]]
        == map[AlertOf(a) := [AlertOf(x)], AlertOf(b) := [AlertOf(x), AlertOf(a)]];
  }

  /** After the first message: one summary. */
  ghost predicate OneSummary(c: Catalog, subject: string, members: seq<string>) {
    && c.WellConfigured() && c.definitions.Keys == {subject} && c.IsSummary(subject) && c.Members(subject) == members
    && forall m :: c.Parents(m) == if m in members then [subject] else []
  }

  lemma FirstParents(c0: Catalog, c1: Catalog, subject: string, members: seq<string>, m: string)
    requires c0.parents == map[] && Relisted(c0, c1, subject) && c1.IsSummary(subject) && c1.Members(subject) == members
    ensures c1.Parents(m) == if m in members then [subject] else []
  {
    assert c0.Parents(m) == [] && Without([], subject) == [];
  }

  lemma FirstDefinition(c: Catalog, subject: string, members: seq<string>)
    requires SameApartFrom(map[], c.definitions, subject)
    requires subject in c.definitions && c.definitions[subject].config == SummaryConfig(members)
    ensures c.definitions.Keys == {subject} && c.IsSummary(subject) && c.Members(subject) == members
  {
  }

  lemma FirstIsBuilt(c0: Catalog, c1: Catalog, states: map<string, State>, subject: string, members: seq<string>)
    requires c0 == Catalog(map[], map[], map[], map[]) && c1.WellConfigured() && subject in c1.definitions
    requires Reconciled(c0, c1, states, subject, Some(SummaryConfig(members)), NOTHING_AROUND)
    ensures OneSummary(c1, subject, members)
  {
    FirstDefinition(c1, subject, members);
    forall m ensures c1.Parents(m) == if m in members then [subject] else [] {
      FirstParents(c0, c1, subject, members, m);
    }
  }

  lemma OneMoreParent(c1: Catalog, c2: Catalog, subject: string, x: string, m: string)
    requires Relisted(c1, c2, subject) && c2.IsSummary(subject) && c2.Members(subject) == [x] && subject !in c1.Parents(m)
    ensures c2.Parents(m) == c1.Parents(m) + if m == x then [subject] else []
  {
    WithoutAbsent(c1.Parents(m), subject);
  }

  lemma OtherDefinitionStays(c1: Catalog, c2: Catalog, subject: string, other: string, members: seq<string>)
    requires SameApartFrom(c1.definitions, c2.definitions, subject) && other != subject
    requires c1.IsSummary(other) && c1.Members(other) == members
    ensures c2.IsSummary(other) && c2.Members(other) == members && c2.Output(other) == c1.Output(other)
  {
  }

  lemma SecondIsBuilt(
    c1: Catalog, c2: Catalog, configA: string, configB: string, a: string, x: string)
    requires c1.IsSummary(configB) && c1.Members(configB) == [x, a] && configA != configB && x != a
    requires forall m :: c1.Parents(m) == if m in [x, a] then [configB] else []
    requires c2.IsSummary(configA) && c2.Members(configA) == [x] && c2.Output(configA) == a && c1.Output(configB) !in [x, a]
    requires SameApartFrom(c1.definitions, c2.definitions, configA) && Relisted(c1, c2, configA)
    ensures DiamondAt(c2, configA, configB, x)
  {
    var b := c1.Output(configB);
    OtherDefinitionStays(c1, c2, configA, configB, [x, a]);
    assert c1.Parents(x) == [configB] && c1.Parents(a) == [configB] && c1.Parents(b) == [];
    OneMoreParent(c1, c2, configA, x, x);
    OneMoreParent(c1, c2, configA, x, a);
    OneMoreParent(c1, c2, configA, x, b);
  }

  method ConfigureFirst(world: World, a: char, b: char, x: char) returns (service: Service)
    requires Letter(a) && Letter(b) && Letter(x) && Distinct([a, b, x])
    ensures fresh(service) && service.Valid()
    ensures OneSummary(service.Configuration(), ConfigOf(b), [AlertOf(x), AlertOf(a)])
  {
    service := new Service(world);
    ghost var c0 := service.Configuration();
    FirstOfDiamond(c0, a, b, x);
    service.ReconcileConfig(ConfigOf(b), Some(SummaryConfig([AlertOf(x), AlertOf(a)])), NOTHING_AROUND);
    FirstIsBuilt(c0, service.Configuration(), service.states, ConfigOf(b), [AlertOf(x), AlertOf(a)]);
  }

  lemma SecondFits(c: Catalog, a: char, b: char, x: char)
    requires Letter(a) && Letter(b) && Letter(x) && Distinct([a, b, x])
    requires OneSummary(c, ConfigOf(b), [AlertOf(x), AlertOf(a)])
    ensures Accepts(c, ConfigOf(a), Some(SummaryConfig([AlertOf(x)])), NOTHING_AROUND)
  {
    OneSummaryGraph(c, ConfigOf(b));
    OutputOfConfig(c, b);
    SecondOfDiamond(c, a, b, x);
  }

  lemma SecondMakesDiamond(c1: Catalog, c2: Catalog, states: map<string, State>, a: char, b: char, x: char)
    requires Letter(a) && Letter(b) && Letter(x) && Distinct([a, b, x]) && c2.WellConfigured()
    requires OneSummary(c1, ConfigOf(b), [AlertOf(x), AlertOf(a)])
    requires Reconciled(c1, c2, states, ConfigOf(a), Some(SummaryConfig([AlertOf(x)])), NOTHING_AROUND)
    ensures DiamondAt(c2, ConfigOf(a), ConfigOf(b), AlertOf(x)) && !OnePassRestores(c2, AlertOf(x))
  {
    DistinctLetters(a, b, x);
    SecondFits(c1, a, b, x);
    assert ConfigOf(a) in c2.definitions;
    OutputOfConfig(c2, a);
    OutputOfConfig(c1, b);
    SecondIsBuilt(c1, c2, ConfigOf(a), ConfigOf(b), AlertOf(a), AlertOf(x));
    DiamondIsNotRestored(c2, ConfigOf(a), ConfigOf(b), AlertOf(x));
  }

  /** The service itself builds a diamond from two messages, and is then not restored by one pass. */
  method ConfigureDiamond(world: World, a: char, b: char, x: char) returns (service: Service)
    requires Letter(a) && Letter(b) && Letter(x) && Distinct([a, b, x])
    ensures fresh(service) && service.Valid()
    ensures DiamondAt(service.Configuration(), ConfigOf(a), ConfigOf(b), AlertOf(x))
    ensures !OnePassRestores(service.Configuration(), AlertOf(x))
  {
    service := ConfigureFirst(world, a, b, x);
    ghost var c1 := service.Configuration();
    service.ReconcileConfig(ConfigOf(a), Some(SummaryConfig([AlertOf(x)])), NOTHING_AROUND);
    SecondMakesDiamond(c1, service.Configuration(), service.states, a, b, x);
  }

  // ---------------------------------------------------------------- an adopted time

  /** An alarm whose time was written with an explicit zero offset. */
  const FOREIGN := ALARM.(cameTime := Some(Time(0, Offset(0))))

  lemma AdoptedStands(w: World, l: Ledger, c: Catalog, subject: string, s: State)
    requires c.Sound() && ValidStates(l.states) && ValidState(s) && (subject !in c.byOutput || subject !in l.states)
    ensures Find(Reconcile(w, l, c, subject, Decoded(s)).states, subject) == Some(s)
  {
    AscendKeepsOutput(w, l.(states := l.states[subject := s]), c, subject);
  }

  lemma LeafIsAccepted(c: Catalog, x: char)
    requires Letter(x)
    ensures Accepts(c, ConfigOf(x), Some(LEAF_CONFIG), NOTHING_AROUND)
  {
    NamesAreValid(x);
    LeafConfigIsValid(x);
  }

  /** Nothing happens to the states when a leaf without a current value is configured. */
  lemma SilentLeaf(w: World, l: Ledger, c: Catalog, x: char)
    requires Letter(x) && ConfigOf(x) in c.definitions && c.definitions[ConfigOf(x)].config == LEAF_CONFIG
    ensures Reconfigured(w, l, c, ConfigOf(x), NOTHING_AROUND) == l && IsLeaf(c, ConfigOf(x))
  {
  }

  /**
   A message and a configuration: the service now owns an alert whose canonical state it republishes
   for ever, though nothing is pending and the episode is known.
   */
  method AdoptForeignTime(world: World, x: char) returns (service: Service)
    requires Letter(x)
    ensures fresh(service) && service.Valid() && IsLeaf(service.Configuration(), ConfigOf(x))
    ensures service.Configuration().Output(ConfigOf(x)) == AlertOf(x) && Find(service.states, AlertOf(x)) == Some(FOREIGN)
    ensures !FOREIGN.pending && FOREIGN.episodeId != "" && !AlwaysRestored(FOREIGN)
  {
    service := new Service(world);
    AdoptedStands(world, service.Books(), service.Configuration(), AlertOf(x), FOREIGN);
    service.ReconcileState(AlertOf(x), Decoded(FOREIGN));
    ghost var l := service.Books();
    LeafIsAccepted(service.Configuration(), x);
    service.ReconcileConfig(ConfigOf(x), Some(LEAF_CONFIG), NOTHING_AROUND);
    SilentLeaf(world, l, service.Configuration(), x);
    OutputOfConfig(service.Configuration(), x);
    RestoredExactlyWhenReturnable(FOREIGN, _ => 0);
  }

  // ---------------------------------------------------------------- a pending alert without an episode

  /** Gone, but not acknowledged. */
  const GONE := ALARM.(active := false, wentTime := Some(At(0)), pending := true, acknowledged := false)

  lemma OneSummaryIsAcyclic(output: string, members: seq<string>)
    requires output !in members
    ensures !Dependencies.Cyclic(map[output := members])
  {
    var g: Dependencies.Graph := map[output := members];
    forall p ensures !Dependencies.IsCycle(g, p) {
      if Dependencies.IsPath(g, p) && |p| >= 2 {
        assert Dependencies.Edge(g, p[0], p[0 + 1]);
        assert |p| >= 3 ==> Dependencies.Edge(g, p[1], p[1 + 1]);
      }
    }
  }

  lemma SummaryIsAccepted(c: Catalog, s: char, x: char)
    requires Letter(s) && Letter(x) && s != x && c.Graph() == map[]
    ensures Accepts(c, ConfigOf(s), Some(SummaryConfig([AlertOf(x)])), NOTHING_AROUND)
  {
    NamesDiffer(s, x);
    NamesAreValid(s);
    OneMemberIsValid(x);
    SummaryConfigIsValid(s, [AlertOf(x)]);
    OneSummaryIsAcyclic(AlertOf(s), [AlertOf(x)]);
    assert (c.Graph() - {AlertOf(s)})[AlertOf(s) := [AlertOf(x)]] == map[AlertOf(s) := [AlertOf(x)]];
  }

  /** A summary over a single member. */
  lemma SummaryOfOne(m: string, states: map<string, State>)
    requires ValidSummary([m]) && m in states && ValidStates(states)
    ensures var e := SummaryEvaluation([m], states);
      WellFormed(e) && e.active == states[m].active && e.pending == states[m].pending
  {
    SummaryEvaluationIsWellFormed([m], states);
    SummaryMeaning([m], states);
    assert [m][0] == m;
  }

  /** Evaluated for the first time over a pending member that is gone, a summary is pending without an episode. */
  lemma FirstPendingHasNoEpisode(w: World, l: Ledger, c: Catalog, subject: string, m: string)
    requires c.Sound() && ValidStates(l.states) && c.IsSummary(subject) && c.Members(subject) == [m]
    requires c.Output(subject) !in l.states && Find(l.states, m) == Some(GONE)
    ensures var after := Evaluated(w, l, c, subject).states;
      c.Output(subject) in after && after[c.Output(subject)].pending && after[c.Output(subject)].episodeId == ""
  {
    var output := c.Output(subject);
    c.GraphEdges(subject);
    SummaryOfOne(m, l.states);
    AppliedIsStored(w, l, output, SummaryEvaluation([m], l.states));
    EvaluateChangesOutput(w, l, c, subject);
    AscendKeepsOutput(w, Evaluate(w, l, c, subject), c, output);
  }

  method SummarizeGone(world: World, s: char, x: char) returns (service: Service)
    requires Letter(s) && Letter(x) && s != x
    ensures fresh(service) && service.Valid() && service.world == world
    ensures AlertOf(s) in service.states
    ensures service.states[AlertOf(s)].pending && service.states[AlertOf(s)].episodeId == ""
  {
    service := new Service(world);
    AdoptedStands(world, service.Books(), service.Configuration(), AlertOf(x), GONE);
    NothingElseIsKnown(world, service.Books(), service.Configuration(), AlertOf(x), GONE);
    service.ReconcileState(AlertOf(x), Decoded(GONE));
    ghost var c0, l := service.Configuration(), service.Books();
    NamesDiffer(s, x);
    SummaryIsAccepted(c0, s, x);
    service.ReconcileConfig(ConfigOf(s), Some(SummaryConfig([AlertOf(x)])), NOTHING_AROUND);
    SummarizedGone(world, l, service.Configuration(), s, x);
  }

  lemma NothingElseIsKnown(w: World, l: Ledger, c: Catalog, subject: string, s: State)
    requires c.definitions == map[] && c.parents == map[] && c.byOutput == map[] && ValidState(s)
    ensures Reconcile(w, l, c, subject, Decoded(s)).states == l.states[subject := s]
  {
    assert VisitOrder(c, subject) == [];
  }

  lemma SummarizedGone(w: World, l: Ledger, c: Catalog, s: char, x: char)
    requires Letter(s) && Letter(x) && s != x && c.WellConfigured() && ValidStates(l.states)
    requires ConfigOf(s) in c.definitions && c.definitions[ConfigOf(s)].config == SummaryConfig([AlertOf(x)])
    requires l.states == map[AlertOf(x) := GONE]
    ensures var after := Reconfigured(w, l, c, ConfigOf(s), NOTHING_AROUND).states;
      AlertOf(s) in after && after[AlertOf(s)].pending && after[AlertOf(s)].episodeId == ""
  {
    NamesDiffer(s, x);
    OutputOfConfig(c, s);
    assert c.IsSummary(ConfigOf(s)) && c.Members(ConfigOf(s)) == [AlertOf(x)];
    NothingToCatchUp(l.states, [AlertOf(x)]);
    FirstPendingHasNoEpisode(w, l, c, ConfigOf(s), AlertOf(x));
  }

  lemma {:induction false} NothingToCatchUp(states: map<string, State>, members: seq<string>)
    ensures CaughtUp(states, members, map[]) == states
  {
    if members != [] {
      NothingToCatchUp(states, members[..|members| - 1]);
    }
  }

  /**
   Without any such state ever coming from outside, an owned leaf can be pending without an episode: a
   summary configured over a member that is gone but not acknowledged, and then replaced by a leaf.
   */
  method ReplacePendingSummary(world: World, s: char, x: char) returns (service: Service)
    requires Letter(s) && Letter(x) && s != x
    ensures fresh(service) && service.Valid() && IsLeaf(service.Configuration(), ConfigOf(s))
    ensures service.Configuration().Output(ConfigOf(s)) == AlertOf(s) && AlertOf(s) in service.states
    ensures service.states[AlertOf(s)].pending && service.states[AlertOf(s)].episodeId == ""
    ensures !AlwaysRestored(service.states[AlertOf(s)])
  {
    service := SummarizeGone(world, s, x);
    ghost var l := service.Books();
    LeafIsAccepted(service.Configuration(), s);
    service.ReconcileConfig(ConfigOf(s), Some(LEAF_CONFIG), NOTHING_AROUND);
    SilentLeaf(world, l, service.Configuration(), s);
    OutputOfConfig(service.Configuration(), s);
    RestoredExactlyWhenReturnable(service.states[AlertOf(s)], _ => 0);
  }

  // ---------------------------------------------------------------- a lingering member

  /** Active and to be acknowledged. */
  const RINGING := ALARM.(pending := true, acknowledged := false)

  /** Evaluation keeps an episode once there is one. */
  lemma ApplyKeepsEpisode(w: World, l: Ledger, output: string, e: Evaluation)
    requires ValidStates(l.states) && WellFormed(e) && output in l.states && l.states[output].episodeId != ""
    ensures var after := Apply(w, l, output, e).states; output in after && after[output].episodeId != ""
  {
    AppliedIsStored(w, l, output, e);
  }

  lemma OneVisit(c: Catalog, subject: string, m: string)
    requires subject in c.definitions && c.Parents(m) == [subject] && c.Parents(c.Output(subject)) == []
    ensures VisitOrder(c, m) == [subject]
  {
    assert Visits(c, [], {subject}) == [];
    assert [subject][1..] + [] == [] && {} + {subject} == {subject};
  }

  lemma OneSummaryFacts(c: Catalog, subject: string, m: string)
    requires OneSummary(c, subject, [m])
    ensures c.Parents(m) == [subject] && c.Parents(c.Output(subject)) == [] && c.Output(subject) != m && ValidSummary([m])
  {
    c.GraphEdges(subject);
  }

  lemma OneStepWalk(step: Step, l: Ledger, s: string)
    ensures Walk(step, l, [s]) == step(l, s)
  {
    assert [s][1..] == [];
    assert Walk(step, step(l, s), []) == step(l, s);
  }

  /** The pass above the one member is the evaluation of the one summary. */
  lemma OneSummaryAscends(w: World, l: Ledger, c: Catalog, subject: string, m: string)
    requires OneSummary(c, subject, [m])
    ensures Ascend(w, l, c, m) == Evaluate(w, l, c, subject)
  {
    OneSummaryFacts(c, subject, m);
    OneVisit(c, subject, m);
    OneStepWalk(Evaluator(w, c), l, subject);
  }

  /** Over a member that is gone a summary with an episode is settled by evaluation, pending, and keeps its episode. */
  lemma EvaluatedOverGone(w: World, l: Ledger, c: Catalog, subject: string, m: string)
    requires c.Exact() && c.IsSummary(subject) && c.Members(subject) == [m] && ValidSummary([m])
    requires ValidStates(l.states) && Find(l.states, m) == Some(GONE)
    requires c.Output(subject) in l.states && l.states[c.Output(subject)].episodeId != ""
    ensures var after := Evaluate(w, l, c, subject).states; Settled(c, after, subject) && Acknowledgeable(after, c.Output(subject))
  {
    SummaryOfOne(m, l.states);
    EvaluateSummaryOutcome(w, l, c, subject);
    EvaluationSettles(c, l.states, Evaluate(w, l, c, subject).states, subject);
    EvaluateKeepsEpisode(w, l, c, subject);
  }

  lemma EvaluateKeepsEpisode(w: World, l: Ledger, c: Catalog, subject: string)
    requires ValidStates(l.states) && c.IsSummary(subject)
    requires c.Output(subject) in l.states && l.states[c.Output(subject)].episodeId != ""
    ensures var after := Evaluate(w, l, c, subject).states;
      c.Output(subject) in after && after[c.Output(subject)].episodeId != ""
  {
    SummaryEvaluationIsWellFormed(c.Members(subject), l.states);
    ApplyKeepsEpisode(w, l, c.Output(subject), SummaryEvaluation(c.Members(subject), l.states));
  }

  lemma MemberGoes(w: World, l: Ledger, c: Catalog, subject: string, m: string)
    requires OneSummary(c, subject, [m]) && ValidStates(l.states) && m !in c.byOutput
    requires c.Output(subject) in l.states && l.states[c.Output(subject)].episodeId != ""
    ensures var after := Reconcile(w, l, c, m, Decoded(GONE)).states;
      && ValidStates(after) && Settled(c, after, subject) && Find(after, m) == Some(GONE)
      && Acknowledgeable(after, c.Output(subject))
  {
    var adopted := l.(states := l.states[m := GONE]);
    ReconcileKeepsValid(w, l, c, m, Decoded(GONE));
    OneSummaryAscends(w, adopted, c, subject, m);
    AdoptedStands(w, l, c, m, GONE);
    OneSummaryFacts(c, subject, m);
    EvaluatedOverGone(w, adopted, c, subject, m);
  }

  /** Acknowledging it then leaves it listing a member that is neither active nor pending. */
  lemma AcknowledgedSummaryIsStale(w: World, l: Ledger, c: Catalog, subject: string, m: string)
    requires c.Sound() && c.IsSummary(subject) && c.Members(subject) == [m] && ValidStates(l.states) && Settled(c, l.states, subject)
    requires Find(l.states, m) == Some(GONE) && Acknowledgeable(l.states, c.Output(subject))
    ensures var request := Decoded(l.states[c.Output(subject)].(acknowledged := true));
      !Settled(c, Reconcile(w, l, c, c.Output(subject), request).states, subject)
  {
    var output := c.Output(subject);
    assert Lingering(l.states[m]) && m in c.Members(subject);
    AcknowledgedSummarySettlesExactly(w, l, c, subject);
    RequestIsAccepted(w, l, c, output);
  }

  /** Flipping the flag of a pending state and nothing else is an acknowledgement request. */
  lemma RequestIsAccepted(w: World, l: Ledger, c: Catalog, output: string)
    requires output in c.byOutput && ValidStates(l.states) && Acknowledgeable(l.states, output)
    ensures Reconcile(w, l, c, output, Decoded(l.states[output].(acknowledged := true))) == Acknowledged(w, l, c, output)
  {
    assert ValidState(l.states[output]);
  }

  lemma OneSummaryIsConfigured(c0: Catalog, c: Catalog, states: map<string, State>, s: char, x: char)
    requires Letter(s) && Letter(x) && s != x && c0 == Catalog(map[], map[], map[], map[]) && c.WellConfigured()
    requires Reconciled(c0, c, states, ConfigOf(s), Some(SummaryConfig([AlertOf(x)])), NOTHING_AROUND)
    ensures OneSummary(c, ConfigOf(s), [AlertOf(x)]) && c.Output(ConfigOf(s)) == AlertOf(s) && AlertOf(x) !in c.byOutput
    ensures Settled(c, states, ConfigOf(s))
  {
    SummaryIsAccepted(c0, s, x);
    FirstIsBuilt(c0, c, states, ConfigOf(s), [AlertOf(x)]);
    OutputOfConfig(c, s);
    NamesDiffer(s, x);
  }

  /** A summary configured over a ringing member rings too. */
  method SummarizeRinging(world: World, s: char, x: char) returns (service: Service)
    requires Letter(s) && Letter(x) && s != x
    ensures fresh(service) && service.Valid() && service.world == world
    ensures var c := service.Configuration();
      && OneSummary(c, ConfigOf(s), [AlertOf(x)]) && c.Output(ConfigOf(s)) == AlertOf(s) && AlertOf(x) !in c.byOutput
    ensures AlertOf(s) in service.states && service.states[AlertOf(s)].active
  {
    service := new Service(world);
    ghost var c0 := service.Configuration();
    AdoptedStands(world, service.Books(), c0, AlertOf(x), RINGING);
    service.ReconcileState(AlertOf(x), Decoded(RINGING));
    ghost var l := service.Books();
    service.ReconcileConfig(ConfigOf(s), Some(SummaryConfig([AlertOf(x)])), NOTHING_AROUND);
    ghost var c := service.Configuration();
    OneSummaryIsConfigured(c0, c, service.states, s, x);
    MemberStays(world, l, c, ConfigOf(s), AlertOf(x));
    SummaryOfOne(AlertOf(x), service.states);
  }

  lemma MemberStays(w: World, l: Ledger, c: Catalog, subject: string, m: string)
    requires OneSummary(c, subject, [m]) && ValidStates(l.states)
    ensures Find(Reconfigured(w, l, c, subject, NOTHING_AROUND).states, m) == Find(l.states, m)
    ensures ValidSummary([m])
  {
    c.GraphEdges(subject);
    NothingToCatchUp(l.states, [m]);
    EvaluatedSummaryKeepsOthers(w, l, c, subject);
    AscendLeavesSummary(w, Evaluate(w, l, c, subject), c, subject);
  }

  /**
   Four messages after which a settled summary has been acknowledged and is not settled any more: it
   lists a member that is neither active nor pending.
   */
  method AcknowledgeLingering(world: World, s: char, x: char) returns (service: Service)
    requires Letter(s) && Letter(x) && s != x
    ensures fresh(service) && service.Valid() && service.Configuration().IsSummary(ConfigOf(s))
    ensures !Settled(service.Configuration(), service.states, ConfigOf(s))
  {
    service := SummarizeRinging(world, s, x);
    ghost var c := service.Configuration();
    MemberGoes(world, service.Books(), c, ConfigOf(s), AlertOf(x));
    service.ReconcileState(AlertOf(x), Decoded(GONE));
    AcknowledgedSummaryIsStale(world, service.Books(), c, ConfigOf(s), AlertOf(x));
    service.ReconcileState(AlertOf(s), Decoded(service.states[AlertOf(s)].(acknowledged := true)));
  }

  // ---------------------------------------------------------------- two leaves of one property

  /** The value on the leaves' inputs is the bad one. */
  const BAD_INPUT := Surroundings(map[], true, Some(BoolInput(true)))

  const PROPERTIES := Properties(CURRENT_VERSION, "c", "a", "s", 1, false)

  /** Known, and neither active nor pending. */
  predicate Idle(states: map<string, State>, n: string) {
    n in states && !Live(states[n])
  }

  function LeafDefinition(x: char): Definition {
    Definition(LEAF_CONFIG, AlertOf(x), [x], BoolInput(true))
  }

  function SummaryDefinition(s: char, members: seq<string>): Definition {
    Definition(SummaryConfig(members), AlertOf(s), [s], NoInput)
  }

  lemma PropertiesAreValid()
    ensures ValidProperties(PROPERTIES)
  {
    WordIsNotBlank("c");
    WordIsNotBlank("a");
    WordIsNotBlank("s");
  }

  lemma LeafDefinitionResult(c: Catalog, x: char)
    requires Letter(x) && Find(c.definitions, ConfigOf(x)) == Some(LeafDefinition(x))
    ensures IsLeaf(c, ConfigOf(x)) && Refers(c, REFERENCE, ConfigOf(x))
    ensures REFERENCE !in c.properties ==> LeafResult(c, ConfigOf(x)) == Some(INACTIVE)
    ensures Find(c.properties, REFERENCE) == Some(PROPERTIES) ==>
      LeafResult(c, ConfigOf(x)).Some? && LeafResult(c, ConfigOf(x)).value.active
  {
    LeafConfigIsValid(x);
    PropertiesAreValid();
  }

  lemma DefinitionIsUpdated(a: map<string, Definition>, b: map<string, Definition>, subject: string, d: Definition)
    requires SameApartFrom(a, b, subject) && Find(b, subject) == Some(d)
    ensures b == a[subject := d]
  {
  }

  lemma DefinedAs(c: Catalog, x: char, config: Config, input: Input)
    requires c.Documented() && Letter(x) && ConfigOf(x) in c.definitions
    requires c.definitions[ConfigOf(x)].config == config && c.definitions[ConfigOf(x)].input == input
    ensures Find(c.definitions, ConfigOf(x)) == Some(Definition(config, AlertOf(x), [x], input))
  {
    NamesAreValid(x);
    assert c.ValidDefinition(ConfigOf(x));
  }

  lemma LeafIsTakenOver(before: Catalog, c: Catalog, states: map<string, State>, x: char)
    requires Letter(x) && c.Documented()
    requires Reconciled(before, c, states, ConfigOf(x), Some(LEAF_CONFIG), BAD_INPUT)
    ensures c.definitions == before.definitions[ConfigOf(x) := LeafDefinition(x)] && c.properties == before.properties
  {
    NamesAreValid(x);
    LeafConfigIsValid(x);
    DefinedAs(c, x, LEAF_CONFIG, BoolInput(true));
    DefinitionIsUpdated(before.definitions, c.definitions, ConfigOf(x), LeafDefinition(x));
  }

  lemma SummaryIsTakenOver(before: Catalog, c: Catalog, states: map<string, State>, s: char, members: seq<string>)
    requires Letter(s) && c.Documented() && Accepts(before, ConfigOf(s), Some(SummaryConfig(members)), NOTHING_AROUND)
    requires Reconciled(before, c, states, ConfigOf(s), Some(SummaryConfig(members)), NOTHING_AROUND)
    ensures c.definitions == before.definitions[ConfigOf(s) := SummaryDefinition(s, members)] && c.properties == before.properties
  {
    DefinedAs(c, s, SummaryConfig(members), NoInput);
    DefinitionIsUpdated(before.definitions, c.definitions, ConfigOf(s), SummaryDefinition(s, members));
  }

  ghost predicate NoSummaries(definitions: map<string, Definition>) {
    forall s <- definitions :: !definitions[s].IsSummary()
  }

  lemma EmptyOrNot(values: seq<string>)
    ensures values == [] || exists x :: x in values
  {
    if values != [] {
      assert values[0] in values;
    }
  }

  lemma NoSummariesNoParents(c: Catalog, m: string)
    requires c.Exact() && NoSummaries(c.definitions)
    ensures c.Parents(m) == []
  {
    assert forall s :: s in c.Parents(m) <==> c.IsParent(s, m);
    EmptyOrNot(c.Parents(m));
  }

  lemma NoSummariesNoEdges(c: Catalog)
    requires c.Exact() && NoSummaries(c.definitions)
    ensures c.Graph() == map[]
  {
  }

  /** Without its properties, a leaf that nothing lists starts idle and nothing else happens. */
  lemma LeafStartsIdle(w: World, l: Ledger, c: Catalog, x: char)
    requires Letter(x) && Find(c.definitions, ConfigOf(x)) == Some(LeafDefinition(x)) && ValidStates(l.states)
    requires REFERENCE !in c.properties && c.Parents(AlertOf(x)) == [] && AlertOf(x) !in l.states
    ensures var after := Reconfigured(w, l, c, ConfigOf(x), BAD_INPUT).states;
      Idle(after, AlertOf(x)) && forall n | n != AlertOf(x) :: Find(after, n) == Find(l.states, n)
  {
    LeafDefinitionResult(c, x);
    LeafResultIsEvaluation(c, ConfigOf(x), l.states);
    assert VisitOrder(c, AlertOf(x)) == [];
    InactiveIsWellFormed();
    ApplyChangesOutput(w, l, AlertOf(x), INACTIVE);
    AppliedIsStored(w, l, AlertOf(x), INACTIVE);
  }

  /** A configured summary that nothing lists changes its own state only. */
  lemma SummaryStartsAlone(w: World, l: Ledger, c: Catalog, s: char, members: seq<string>)
    requires Find(c.definitions, ConfigOf(s)) == Some(SummaryDefinition(s, members)) && ValidStates(l.states)
    requires c.Parents(AlertOf(s)) == []
    ensures var after := Reconfigured(w, l, c, ConfigOf(s), NOTHING_AROUND).states;
      AlertOf(s) in after && forall n | n != AlertOf(s) :: Find(after, n) == Find(l.states, n)
  {
    assert VisitOrder(c, AlertOf(s)) == [];
    NothingToCatchUp(l.states, members);
    EvaluateSummaryOutcome(w, l, c, ConfigOf(s));
  }

  lemma LeafIsConfigured(w: World, l: Ledger, before: Catalog, c: Catalog, x: char)
    requires Letter(x) && c.Documented() && ValidStates(l.states) && AlertOf(x) !in l.states
    requires NoSummaries(before.definitions) && REFERENCE !in before.properties
    requires c.definitions == before.definitions[ConfigOf(x) := LeafDefinition(x)] && c.properties == before.properties
    ensures NoSummaries(c.definitions)
    ensures var after := Reconfigured(w, l, c, ConfigOf(x), BAD_INPUT).states;
      Idle(after, AlertOf(x)) && forall n | n != AlertOf(x) :: Find(after, n) == Find(l.states, n)
  {
    NoSummariesNoParents(c, AlertOf(x));
    LeafStartsIdle(w, l, c, x);
  }

  method ConfigureLeaf(service: Service, x: char)
    requires service.Valid() && Letter(x) && NoSummaries(service.definitions) && REFERENCE !in service.properties
    requires AlertOf(x) !in service.states
    modifies service
    ensures service.Valid() && NoSummaries(service.definitions) && service.properties == old(service.properties)
    ensures service.definitions == old(service.definitions)[ConfigOf(x) := LeafDefinition(x)]
    ensures Idle(service.states, AlertOf(x))
    ensures forall n | n != AlertOf(x) :: Find(service.states, n) == Find(old(service.states), n)
  {
    ghost var c0, l := service.Configuration(), service.Books();
    service.ReconcileConfig(ConfigOf(x), Some(LEAF_CONFIG), BAD_INPUT);
    ghost var c := service.Configuration();
    LeafIsTakenOver(c0, c, service.states, x);
    LeafIsConfigured(service.world, l, c0, c, x);
  }

  function TwoLeaves(a: char, b: char): map<string, Definition> {
    map[ConfigOf(a) := LeafDefinition(a)][ConfigOf(b) := LeafDefinition(b)]
  }

  method ConfigureTwoLeaves(world: World, a: char, b: char) returns (service: Service)
    requires Letter(a) && Letter(b) && a != b
    ensures fresh(service) && service.Valid() && service.world == world && service.properties == map[]
    ensures service.definitions == TwoLeaves(a, b) && NoSummaries(service.definitions)
    ensures Idle(service.states, AlertOf(a)) && Idle(service.states, AlertOf(b))
  {
    service := new Service(world);
    NamesDiffer(a, b);
    ConfigureLeaf(service, a);
    assert Find(service.states, AlertOf(b)) == None;
    ghost var before := service.states;
    ConfigureLeaf(service, b);
    assert Find(service.states, AlertOf(a)) == Find(before, AlertOf(a));
  }

  /** Two idle leaves under one summary. */
  ghost predicate Pair(c: Catalog, states: map<string, State>, a: char, b: char, s: char) {
    && c.definitions == TwoLeaves(a, b)[ConfigOf(s) := SummaryDefinition(s, [AlertOf(a), AlertOf(b)])]
    && Idle(states, AlertOf(a)) && Idle(states, AlertOf(b)) && AlertOf(s) in states
  }

  lemma PairIsAccepted(c: Catalog, a: char, b: char, s: char)
    requires Letter(a) && Letter(b) && Letter(s) && Distinct([a, b, s]) && c.Graph() == map[]
    ensures Accepts(c, ConfigOf(s), Some(SummaryConfig([AlertOf(a), AlertOf(b)])), NOTHING_AROUND)
  {
    DistinctLetters(a, b, s);
    NamesAreValid(s);
    TwoMembersAreValid(a, b);
    SummaryConfigIsValid(s, [AlertOf(a), AlertOf(b)]);
    OneSummaryIsAcyclic(AlertOf(s), [AlertOf(a), AlertOf(b)]);
    var members := [AlertOf(a), AlertOf(b)];
    assert (c.Graph() - {AlertOf(s)})[AlertOf(s) := members] == map[AlertOf(s) := members];
  }

  lemma NotAMember(c: Catalog, definitions: map<string, Definition>, subject: string, d: Definition, m: string)
    requires c.Exact() && NoSummaries(definitions) && c.definitions == definitions[subject := d] && m !in d.Members()
    ensures c.Parents(m) == []
  {
    assert forall s :: s in c.Parents(m) <==> c.IsParent(s, m);
    EmptyOrNot(c.Parents(m));
  }

  /** The service builds it from three messages, the bad values already there. */
  method ConfigurePair(world: World, a: char, b: char, s: char) returns (service: Service)
    requires Letter(a) && Letter(b) && Letter(s) && Distinct([a, b, s])
    ensures fresh(service) && service.Valid() && service.world == world
    ensures Pair(service.Configuration(), service.states, a, b, s)
  {
    DistinctLetters(a, b, s);
    service := ConfigureTwoLeaves(world, a, b);
    ghost var c0, l, members := service.Configuration(), service.Books(), [AlertOf(a), AlertOf(b)];
    NoSummariesNoEdges(c0);
    PairIsAccepted(c0, a, b, s);
    service.ReconcileConfig(ConfigOf(s), Some(SummaryConfig([AlertOf(a), AlertOf(b)])), NOTHING_AROUND);
    ghost var c := service.Configuration();
    SummaryIsTakenOver(c0, c, service.states, s, members);
    NotAMember(c, c0.definitions, ConfigOf(s), SummaryDefinition(s, members), AlertOf(s));
    SummaryStartsAlone(world, l, c, s, members);
    assert Find(service.states, AlertOf(a)) == Find(l.states, AlertOf(a));
    assert Find(service.states, AlertOf(b)) == Find(l.states, AlertOf(b));
  }

  lemma PairDefinitions(c: Catalog, states: map<string, State>, a: char, b: char, s: char)
    requires Letter(a) && Letter(b) && Letter(s) && Distinct([a, b, s]) && Pair(c, states, a, b, s)
    ensures Find(c.definitions, ConfigOf(a)) == Some(LeafDefinition(a)) && Find(c.definitions, ConfigOf(b)) == Some(LeafDefinition(b))
    ensures Find(c.definitions, ConfigOf(s)) == Some(SummaryDefinition(s, [AlertOf(a), AlertOf(b)]))
    ensures c.definitions.Keys == {ConfigOf(a), ConfigOf(b), ConfigOf(s)} && ConfigOf(a) != ConfigOf(b)
    ensures forall t :: c.IsSummary(t) ==> t == ConfigOf(s)
  {
    DistinctLetters(a, b, s);
    NamesDiffer(b, s);
    NamesDiffer(a, s);
  }

  lemma OneSummaryIsComplete(c: Catalog, states: map<string, State>, subject: string)
    requires ValidStates(states) && c.IsSummary(subject) && forall t :: c.IsSummary(t) ==> t == subject
    requires c.Output(subject) in states && Present(c.Members(subject), states)
    ensures AlertAncestors.Complete(c, states)
  {
  }

  /** Whichever leaf comes first, the summary misses the other. */
  lemma PairEndsStale(w: World, l: Ledger, c: Catalog, leaves: seq<string>, a: char, b: char, s: char)
    requires Letter(a) && Letter(b) && Letter(s) && Distinct([a, b, s]) && Pair(c, l.states, a, b, s)
    requires c.Sound() && ValidStates(l.states)
    requires Find(c.properties, REFERENCE) == Some(PROPERTIES) && Lists(c, REFERENCE, leaves) && Leaves(c, leaves)
    ensures c.IsSummary(ConfigOf(s)) && !Settled(c, PassAfter(w, l, c, leaves).ledger.states, ConfigOf(s))
  {
    PairDefinitions(c, l.states, a, b, s);
    OneSummaryIsComplete(c, l.states, ConfigOf(s));
    LeafDefinitionResult(c, a);
    LeafDefinitionResult(c, b);
    assert ConfigOf(a) in leaves && ConfigOf(b) in leaves;
    assert leaves[0] in leaves;
    var other := if leaves[0] == ConfigOf(a) then ConfigOf(b) else ConfigOf(a);
    LaterLeafIsNotHeard(w, l, c, leaves, other, ConfigOf(s));
  }

  /**
   Four messages: both leaves wait for their properties, and when these arrive the summary above them
   is left out of step, whichever leaf the service evaluates first.
   */
  method AnnounceProperties(world: World, a: char, b: char, s: char) returns (service: Service)
    requires Letter(a) && Letter(b) && Letter(s) && Distinct([a, b, s])
    ensures fresh(service) && service.Valid() && service.Configuration().IsSummary(ConfigOf(s))
    ensures !Settled(service.Configuration(), service.states, ConfigOf(s))
  {
    service := ConfigurePair(world, a, b, s);
    ghost var l := service.Books();
    PropertiesAreValid();
    ghost var leaves := service.ReconcileProperty(REFERENCE, Some(PROPERTIES));
    PairEndsStale(world, l, service.Configuration(), leaves, a, b, s);
  }
}
