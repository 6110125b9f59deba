/**
 How the definitions and their two indexes change together: adding and removing a definition keeps
 byOutput and parents exact, and only an added summary can change the dependency graph
 (alert/service.go removeDefinitionLocked, hookParentsLocked, unhookParentsLocked, removeString).
 */
module AlertCatalogUpdates {
  import opened Wrappers
  import opened Sequences
  import opened AlertModel
  import opened AlertLedger
  import opened Dependencies

  function Without(values: seq<string>, target: string): (rest: seq<string>)
    ensures forall x :: x in rest <==> x in values && x != target
    ensures Distinct(values) ==> Distinct(rest)
  {
    if values == [] then []
    else
      var last := values[|values| - 1];
      assert values == values[..|values| - 1] + [last];
      assert Distinct(values) ==> last !in values[..|values| - 1];
      Without(values[..|values| - 1], target) + if last != target then [last] else []
  }

  /** The in-place filter, as a loop. */
  method RemoveString(values: seq<string>, target: string) returns (rest: seq<string>)
    ensures rest == Without(values, target)
  {
    rest := [];
    for i := 0 to |values|
      invariant rest == Without(values[..i], target)
    {
      assert values[..i + 1][..i] == values[..i];
      if values[i] != target {
        rest := rest + [values[i]];
      }
    }
    assert values[..|values|] == values;
  }

  /** Every listed member gains the subject at the end of its parents. */
  predicate Hooked(before: map<string, seq<string>>, after: map<string, seq<string>>, subject: string, members: seq<string>) {
    && (forall m <- after :: after[m] != [])
    && (forall m <- before.Keys + after.Keys + Elements(members) ::
          Listed(after, m) == Listed(before, m) + if m in members then [subject] else [])
  }

  /** Every listed member loses it; a member without parents loses its entry. */
  predicate Unhooked(before: map<string, seq<string>>, after: map<string, seq<string>>, subject: string, members: seq<string>) {
    && (forall m <- after :: after[m] != [])
    && (forall m <- before.Keys + after.Keys + Elements(members) ::
          Listed(after, m) == if m in members then Without(Listed(before, m), subject) else Listed(before, m))
  }

  lemma ListedPut(parents: map<string, seq<string>>, member: string, list: seq<string>, m: string)
    ensures Listed(parents[member := list], m) == if m == member then list else Listed(parents, m)
  {
  }

  lemma HookedMember(
    before: map<string, seq<string>>, after: map<string, seq<string>>, subject: string, done: seq<string>, member: string, m: string)
    requires Hooked(before, after, subject, done) && member !in done
    ensures Listed(after[member := Listed(after, member) + [subject]], m)
         == Listed(before, m) + if m in done + [member] then [subject] else []
  {
    HookedParents(before, after, subject, done, m);
    ListedPut(after, member, Listed(after, member) + [subject], m);
    assert m in done + [member] <==> m in done || m == member;
    assert Listed(before, m) + [] == Listed(before, m);
  }

  lemma HookedOneMore(before: map<string, seq<string>>, after: map<string, seq<string>>, subject: string, done: seq<string>, member: string)
    requires Hooked(before, after, subject, done) && member !in done
    ensures Hooked(before, after[member := Listed(after, member) + [subject]], subject, done + [member])
  {
    var more, all := after[member := Listed(after, member) + [subject]], done + [member];
    forall m | m in before.Keys + more.Keys + Elements(all)
      ensures Listed(more, m) == Listed(before, m) + if m in all then [subject] else []
    {
      HookedMember(before, after, subject, done, member, m);
    }
  }

  method HookParents(parents: map<string, seq<string>>, subject: string, members: seq<string>) returns (after: map<string, seq<string>>)
    requires Distinct(members) && forall m <- parents :: parents[m] != []
    ensures Hooked(parents, after, subject, members)
  {
    after := parents;
    for i := 0 to |members|
      invariant Hooked(parents, after, subject, members[..i])
    {
      assert members[..i + 1] == members[..i] + [members[i]] && members[i] !in members[..i];
      HookedOneMore(parents, after, subject, members[..i], members[i]);
      after := after[members[i] := Listed(after, members[i]) + [subject]];
    }
    assert members[..|members|] == members;
  }

  method UnhookParents(parents: map<string, seq<string>>, subject: string, members: seq<string>) returns (after: map<string, seq<string>>)
    requires Distinct(members) && forall m <- parents :: parents[m] != []
    ensures Unhooked(parents, after, subject, members)
  {
    after := parents;
    for i := 0 to |members|
      invariant Unhooked(parents, after, subject, members[..i])
    {
      var member := members[i];
      assert members[..i + 1] == members[..i] + [member];
      assert member !in members[..i];
      var rest := RemoveString(Listed(after, member), subject);
      after := if rest == [] then after - {member} else after[member := rest];
    }
    assert members[..|members|] == members;
  }

  predicate Removed(before: Catalog, after: Catalog, subject: string) {
    && subject in before.definitions
    && after.definitions == before.definitions - {subject}
    && after.byOutput == before.byOutput - {before.Output(subject)}
    && Unhooked(before.parents, after.parents, subject, before.Members(subject))
    && after.properties == before.properties
  }

  predicate Added(before: Catalog, after: Catalog, subject: string, d: Definition) {
    && subject !in before.definitions
    && after.definitions == before.definitions[subject := d]
    && after.byOutput == before.byOutput[d.output := subject]
    && Hooked(before.parents, after.parents, subject, d.Members())
    && after.properties == before.properties
  }

  lemma UnhookedParents(before: map<string, seq<string>>, after: map<string, seq<string>>, subject: string, members: seq<string>, m: string)
    requires Unhooked(before, after, subject, members)
    ensures Listed(after, m) == if m in members then Without(Listed(before, m), subject) else Listed(before, m)
  {
    if m in before || m in after || m in members {
      assert m in before.Keys + after.Keys + Elements(members);
    }
  }

  lemma ParentsWhenRemoved(before: Catalog, after: Catalog, subject: string, m: string)
    requires Removed(before, after, subject)
    requires Distinct(before.Parents(m)) && forall s :: s in before.Parents(m) <==> before.IsParent(s, m)
    ensures Distinct(after.Parents(m)) && forall s :: s in after.Parents(m) <==> after.IsParent(s, m)
  {
    UnhookedParents(before.parents, after.parents, subject, before.Members(subject), m);
  }

  lemma RemovalKeepsExact(before: Catalog, after: Catalog, subject: string)
    requires before.Exact() && Removed(before, after, subject)
    ensures after.Exact()
  {
    forall m ensures Distinct(after.Parents(m)) && forall s :: s in after.Parents(m) <==> after.IsParent(s, m) {
      ParentsWhenRemoved(before, after, subject, m);
    }
    forall s | s in after.definitions ensures after.Output(s) in after.byOutput && after.byOutput[after.Output(s)] == s {
      before.OutputsDiffer(s, subject);
    }
  }

  /** Removing a definition removes at most its node from the dependency graph. */
  lemma GraphWhenRemoved(before: Catalog, after: Catalog, subject: string)
    requires before.Exact() && Removed(before, after, subject)
    ensures after.Graph() == before.Graph() - {before.Output(subject)}
  {
  }

  lemma HookedParents(before: map<string, seq<string>>, after: map<string, seq<string>>, subject: string, members: seq<string>, m: string)
    requires Hooked(before, after, subject, members)
    ensures Listed(after, m) == Listed(before, m) + if m in members then [subject] else []
  {
    if m in before || m in after || m in members {
      assert m in before.Keys + after.Keys + Elements(members);
    }
  }

  lemma ParentsWhenAdded(before: Catalog, after: Catalog, subject: string, d: Definition, m: string)
    requires Added(before, after, subject, d)
    requires Distinct(before.Parents(m)) && forall s :: s in before.Parents(m) <==> before.IsParent(s, m)
    ensures Distinct(after.Parents(m)) && forall s :: s in after.Parents(m) <==> after.IsParent(s, m)
  {
    HookedParents(before.parents, after.parents, subject, d.Members(), m);
    assert subject in before.Parents(m) <==> before.IsParent(subject, m);
  }

  lemma AdditionKeepsExact(before: Catalog, after: Catalog, subject: string, d: Definition)
    requires before.Exact() && Added(before, after, subject, d) && d.output !in before.byOutput
    requires d.IsSummary() ==> ValidSummary(d.Members()) && d.output !in d.Members()
    ensures after.Exact()
  {
    forall m ensures Distinct(after.Parents(m)) && forall s :: s in after.Parents(m) <==> after.IsParent(s, m) {
      ParentsWhenAdded(before, after, subject, d, m);
    }
  }

  lemma GraphWhenAdded(before: Catalog, after: Catalog, subject: string, d: Definition)
    requires before.Exact() && Added(before, after, subject, d) && d.output !in before.byOutput
    ensures after.Graph() == if d.IsSummary() then before.Graph()[d.output := d.Members()] else before.Graph()
  {
  }

  /** A new input does not touch indexes or graph. */
  lemma InputKeepsSound(before: Catalog, after: Catalog, subject: string, input: Input)
    requires before.Sound() && subject in before.definitions
    requires after == before.(definitions := before.definitions[subject := before.definitions[subject].(input := input)])
    ensures after.Sound() && after.Graph() == before.Graph()
  {
    assert forall s :: after.IsSummary(s) == before.IsSummary(s);
    assert forall s <- before.definitions :: after.Output(s) == before.Output(s) && after.Members(s) == before.Members(s);
    forall m ensures after.Parents(m) == before.Parents(m) {
    }
    forall m, s ensures s in after.Parents(m) <==> after.IsParent(s, m) {
      assert s in before.Parents(m) <==> before.IsParent(s, m);
    }
    assert after.Graph() == before.Graph();
  }

  lemma RemovalKeepsDocumented(before: Catalog, after: Catalog, subject: string)
    requires before.Documented() && Removed(before, after, subject)
    ensures after.Documented() && after.Graph() == before.Graph() - {before.Output(subject)}
    ensures !Cyclic(before.Graph()) ==> !Cyclic(after.Graph())
  {
    RemovalKeepsExact(before, after, subject);
    GraphWhenRemoved(before, after, subject);
    if !Cyclic(before.Graph()) {
      SubgraphStaysAcyclic(before.Graph(), after.Graph());
    }
    forall s | s in after.definitions ensures after.ValidDefinition(s) {
      assert before.ValidDefinition(s);
    }
  }

  /** With its definition gone, the output of a config subject is free and out of the graph. */
  lemma WithoutDefinition(before: Catalog, after: Catalog, subject: string)
    requires before.WellConfigured() && after.WellConfigured() && OutputSubject(subject).Some?
    requires if subject in before.definitions then Removed(before, after, subject) else after == before
    ensures OutputSubject(subject).value !in after.byOutput
    ensures after.Graph() == before.Graph() - {OutputSubject(subject).value}
  {
    OutputsFollowSubjects(after);
    OutputIsFree(after, subject);
    if subject in before.definitions {
      GraphWhenRemoved(before, after, subject);
      OutputsFollowSubjects(before);
    } else {
      UnownedIsNotInTheGraph(before, OutputSubject(subject).value);
    }
  }

  lemma UnownedIsNotInTheGraph(c: Catalog, output: string)
    requires output !in c.byOutput
    ensures c.Graph() - {output} == c.Graph()
  {
  }

  /** Adding a definition and removing it again leaves everything as it was. */
  lemma WithdrawalRestores(before: Catalog, added: Catalog, after: Catalog, subject: string)
    requires before.WellConfigured() && added.Exact() && after.Documented() && subject in added.definitions
    requires Added(before, added, subject, added.definitions[subject]) && added.Output(subject) !in before.byOutput
    requires Removed(added, after, subject)
    ensures after.WellConfigured() && after.definitions == before.definitions && after.properties == before.properties
    ensures Relisted(before, after, subject)
    ensures added.Output(subject) !in after.byOutput
  {
    GraphWhenAdded(before, added, subject, added.definitions[subject]);
    GraphWhenRemoved(added, after, subject);
    PutThenRemove(before.definitions, subject, added.definitions[subject]);
    PutThenRemove(before.Graph(), added.Output(subject), added.Members(subject));
    AdditionRelists(before, added, subject, added.definitions[subject]);
    RemovalRelists(added, after, subject);
    RelistedTwice(before, added, after, subject);
  }

  lemma PutThenRemove<V>(m: map<string, V>, k: string, v: V)
    requires k !in m
    ensures m[k := v] - {k} == m && m - {k} == m
  {
  }

  lemma OutputsFollowSubjects(c: Catalog)
    requires c.Documented()
    ensures forall s <- c.definitions :: OutputSubject(s) == Some(c.Output(s))
  {
    forall s | s in c.definitions ensures OutputSubject(s) == Some(c.Output(s)) {
      assert c.ValidDefinition(s);
    }
  }

  lemma AdditionKeepsDocumented(before: Catalog, after: Catalog, subject: string, d: Definition)
    requires before.WellConfigured() && Added(before, after, subject, d)
    requires ValidConfigFor(d.config, subject) && d.config.enabled
    requires OutputSubject(subject) == Some(d.output) && InputSubject(subject) == Some(d.source)
    ensures d.output !in before.byOutput && after.Documented()
    ensures after.Graph() == if d.IsSummary() then before.Graph()[d.output := d.Members()] else before.Graph()
  {
    OutputsFollowSubjects(before);
    OutputIsFree(before, subject);
    AdditionKeepsExact(before, after, subject, d);
    GraphWhenAdded(before, after, subject, d);
    forall s | s in after.definitions ensures after.ValidDefinition(s) {
      assert s != subject ==> before.ValidDefinition(s);
    }
  }

  // ---------------------------------------------------------------- the order of the parents

  /** The subject is dropped from every list of parents and, if it is a summary now, appended to its members'. */
  ghost predicate Relisted(before: Catalog, after: Catalog, subject: string) {
    forall m :: after.Parents(m) == Without(before.Parents(m), subject) + if after.IsParent(subject, m) then [subject] else []
  }

  lemma {:induction false} WithoutAbsent(values: seq<string>, target: string)
    requires target !in values
    ensures Without(values, target) == values
  {
    if values != [] {
      WithoutAbsent(values[..|values| - 1], target);
    }
  }

  lemma WithoutLast(values: seq<string>, target: string)
    ensures Without(values + [target], target) == Without(values, target)
  {
    assert (values + [target])[..|values|] == values;
  }

  lemma RemovalRelists(before: Catalog, after: Catalog, subject: string)
    requires before.Exact()
    requires if subject in before.definitions then Removed(before, after, subject) else after == before
    ensures Relisted(before, after, subject)
  {
    forall m ensures after.Parents(m) == Without(before.Parents(m), subject) {
      assert subject in before.Parents(m) <==> before.IsParent(subject, m);
      if subject in before.definitions {
        UnhookedParents(before.parents, after.parents, subject, before.Members(subject), m);
      }
      if !before.IsParent(subject, m) {
        WithoutAbsent(before.Parents(m), subject);
      }
    }
  }

  lemma AdditionRelists(before: Catalog, after: Catalog, subject: string, d: Definition)
    requires before.Exact() && Added(before, after, subject, d)
    ensures Relisted(before, after, subject)
  {
    forall m ensures after.Parents(m) == Without(before.Parents(m), subject) + if after.IsParent(subject, m) then [subject] else [] {
      assert subject in before.Parents(m) <==> before.IsParent(subject, m);
      WithoutAbsent(before.Parents(m), subject);
      HookedParents(before.parents, after.parents, subject, d.Members(), m);
    }
  }

  /** Listing twice is listing once. */
  lemma RelistedTwice(a: Catalog, b: Catalog, c: Catalog, subject: string)
    requires Relisted(a, b, subject) && Relisted(b, c, subject)
    ensures Relisted(a, c, subject)
  {
    forall m ensures Without(b.Parents(m), subject) == Without(a.Parents(m), subject) {
      var rest := Without(a.Parents(m), subject);
      WithoutAbsent(rest, subject);
      WithoutLast(rest, subject);
    }
  }

  lemma InputKeepsWellConfigured(before: Catalog, after: Catalog, subject: string, input: Input)
    requires before.WellConfigured() && subject in before.definitions
    requires after == before.(definitions := before.definitions[subject := before.definitions[subject].(input := input)])
    ensures after.WellConfigured()
  {
    InputKeepsSound(before, after, subject, input);
    forall s | s in after.definitions ensures after.ValidDefinition(s) {
      assert before.ValidDefinition(s);
    }
  }

  lemma ReadyToUnhook(c: Catalog, subject: string)
    requires c.Exact() && subject in c.definitions
    ensures Distinct(c.definitions[subject].Members()) && forall m <- c.parents :: c.parents[m] != []
  {
    if c.IsSummary(subject) {
      c.GraphEdges(subject);
    }
  }

  /** No definition owns the output of a config subject that has no definition. */
  lemma OutputIsFree(c: Catalog, subject: string)
    requires c.Exact() && (forall s <- c.definitions :: OutputSubject(s) == Some(c.Output(s)))
    requires subject !in c.definitions && OutputSubject(subject).Some?
    ensures OutputSubject(subject).value !in c.byOutput
  {
    var output := OutputSubject(subject).value;
    if output in c.byOutput {
      DerivedSubjectsAreInjective(subject, c.byOutput[output]);
      assert false;
    }
  }
}
