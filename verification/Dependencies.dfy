/**
 Dependency graphs of summary alerts. A key is the output of a summary, its list the members;
 any other subject is a leaf. The search is alert/service.go summaryCycleLocked.
 */
module Dependencies {
  import opened Sequences

  type Graph = map<string, seq<string>>

  function Members(g: Graph, n: string): seq<string> {
    if n in g then g[n] else []
  }

  predicate Edge(g: Graph, a: string, b: string) {
    b in Members(g, a)
  }

  predicate IsPath(g: Graph, p: seq<string>) {
    p != [] && forall i | 0 <= i < |p| - 1 :: Edge(g, p[i], p[i + 1])
  }

  ghost predicate Connects(g: Graph, p: seq<string>, a: string, b: string) {
    IsPath(g, p) && p[0] == a && p[|p| - 1] == b
  }

  ghost predicate Reaches(g: Graph, a: string, b: string) {
    exists p :: Connects(g, p, a, b)
  }

  predicate IsCycle(g: Graph, p: seq<string>) {
    IsPath(g, p) && |p| >= 2 && p[0] == p[|p| - 1]
  }

  ghost predicate Cyclic(g: Graph) {
    exists p :: IsCycle(g, p)
  }

  lemma JoinPaths(g: Graph, p: seq<string>, q: seq<string>)
    requires IsPath(g, p) && IsPath(g, q) && Edge(g, p[|p| - 1], q[0])
    ensures IsPath(g, p + q)
  {
  }

  lemma DropPath(g: Graph, p: seq<string>, k: nat)
    requires IsPath(g, p) && k < |p|
    ensures IsPath(g, p[k..])
  {
    forall i | 0 <= i < |p[k..]| - 1 ensures Edge(g, p[k..][i], p[k..][i + 1]) {
      assert Edge(g, p[k + i], p[k + i + 1]);
    }
  }

  lemma ReachesItself(g: Graph, n: string)
    ensures Reaches(g, n, n)
  {
    assert Connects(g, [n], n, n);
  }

  lemma ReachesThroughMember(g: Graph, a: string, m: string, b: string)
    requires Edge(g, a, m) && Reaches(g, m, b)
    ensures Reaches(g, a, b)
  {
    var p :| Connects(g, p, m, b);
    JoinPaths(g, [a], p);
    assert Connects(g, [a] + p, a, b);
  }

  lemma ReachesSplits(g: Graph, a: string, b: string) returns (m: string)
    requires Reaches(g, a, b) && a != b
    ensures Edge(g, a, m) && Reaches(g, m, b)
  {
    var p :| Connects(g, p, a, b);
    m := p[1];
    DropPath(g, p, 1);
    assert Connects(g, p[1..], m, b);
    assert Edge(g, p[0], p[0 + 1]);
  }

  lemma NoSummariesNoCycle(g: Graph)
    requires g == map[]
    ensures !Cyclic(g)
  {
    forall p ensures !IsCycle(g, p) {
      if |p| >= 2 {
        assert !Edge(g, p[0], p[0 + 1]);
      }
    }
  }

  // ------------------------------------------------------ topological orders

  /** Every summary among the members of an entry comes before that entry. */
  predicate Topological(g: Graph, order: seq<string>) {
    Distinct(order) && forall i | 0 <= i < |order| :: MembersBefore(g, order, i)
  }

  predicate MembersBefore(g: Graph, order: seq<string>, i: nat)
    requires i < |order|
  {
    forall m | m in Members(g, order[i]) && m in g :: m in order[..i]
  }

  lemma ExtendTopological(g: Graph, order: seq<string>, n: string)
    requires Topological(g, order) && n !in order
    requires forall m | m in Members(g, n) && m in g :: m in order
    ensures Topological(g, order + [n])
  {
    forall i | 0 <= i < |order| + 1 ensures MembersBefore(g, order + [n], i) {
      assert (order + [n])[..i] == order[..i];
      if i < |order| {
        assert MembersBefore(g, order, i);
      }
    }
  }

  /** Along a path that starts inside a topological order positions only decrease. */
  lemma {:induction false} PathDescends(g: Graph, order: seq<string>, i: nat, p: seq<string>)
    requires Topological(g, order) && i < |order|
    requires IsPath(g, p) && p[0] == order[i] && |p| >= 2 && p[|p| - 1] in g
    ensures p[|p| - 1] in order[..i]
  {
    assert Edge(g, p[0], p[0 + 1]);
    assert MembersBefore(g, order, i);
    if |p| > 2 {
      assert Edge(g, p[1], p[1 + 1]);
      var k :| 0 <= k < i && order[k] == p[1];
      DropPath(g, p, 1);
      PathDescends(g, order, k, p[1..]);
    }
  }

  /** No cycle starts at a node of a topological order. */
  lemma NoCycleFrom(g: Graph, order: seq<string>, p: seq<string>)
    requires Topological(g, order) && IsCycle(g, p)
    ensures p[0] !in order
  {
    if p[0] in order {
      var i :| 0 <= i < |order| && order[i] == p[0];
      assert Edge(g, p[0], p[0 + 1]);
      PathDescends(g, order, i, p);
      assert false;
    }
  }

  /** A cycle can be started at any of its nodes. */
  lemma Rotate(g: Graph, p: seq<string>, i: nat) returns (q: seq<string>)
    requires IsCycle(g, p) && i < |p| - 1
    ensures IsCycle(g, q) && q[0] == p[i]
  {
    q := p[i..] + p[1..i + 1];
    forall k | 0 <= k < |q| - 1 ensures Edge(g, q[k], q[k + 1]) {
      if k < |p| - i - 1 {
        assert Edge(g, p[i + k], p[i + k + 1]);
      } else {
        var j := k - (|p| - i - 1);
        assert p[|p| - 1] == p[0];
        assert q[k] == p[j];
        assert q[k + 1] == p[1..i + 1][j] == p[j + 1];
        assert Edge(g, p[j], p[j + 1]);
      }
    }
  }

  /** Dropping members or whole summaries never creates a cycle. */
  lemma SubgraphStaysAcyclic(g: Graph, h: Graph)
    requires !Cyclic(g)
    requires forall n :: n in h ==> n in g && h[n] == g[n]
    ensures !Cyclic(h)
  {
    if Cyclic(h) {
      var p :| IsCycle(h, p);
      forall i | 0 <= i < |p| - 1 ensures Edge(g, p[i], p[i + 1]) {
        assert Edge(h, p[i], p[i + 1]);
      }
      assert IsCycle(g, p);
    }
  }

  /** Adding one summary to an acyclic graph: any cycle passes through it. */
  lemma AddSummary(g: Graph, n: string, members: seq<string>, order: seq<string>)
    requires !Cyclic(g) && n !in g
    requires Topological(g[n := members], order) && n in order
    ensures !Cyclic(g[n := members])
  {
    var h := g[n := members];
    if Cyclic(h) {
      var p :| IsCycle(h, p);
      if i :| 0 <= i < |p| - 1 && p[i] == n {
        var q := Rotate(h, p, i);
        NoCycleFrom(h, order, q);
      } else {
        forall i | 0 <= i < |p| - 1 ensures Edge(g, p[i], p[i + 1]) {
          assert Edge(h, p[i], p[i + 1]);
        }
        assert IsCycle(g, p);
      }
    }
  }

  function Nodes(g: Graph): set<string> {
    g.Keys + set n, m | n in g && m in g[n] :: m
  }

  predicate StackTo(g: Graph, stack: seq<string>, n: string) {
    && Distinct(stack)
    && (stack != [] ==> IsPath(g, stack) && Edge(g, stack[|stack| - 1], n))
  }

  lemma StackClosesCycle(g: Graph, stack: seq<string>, n: string)
    requires StackTo(g, stack, n) && n in stack
    ensures Cyclic(g)
  {
    var i :| 0 <= i < |stack| && stack[i] == n;
    DropPath(g, stack, i);
    JoinPaths(g, stack[i..], [n]);
    assert IsCycle(g, stack[i..] + [n]);
  }

  lemma PushStack(g: Graph, stack: seq<string>, n: string, m: string)
    requires StackTo(g, stack, n) && n !in stack && Edge(g, n, m)
    ensures StackTo(g, stack + [n], m)
  {
    if stack != [] {
      JoinPaths(g, stack, [n]);
    }
  }

  /** Depth-first completion of a topological order below n; it needs no cycle. */
  lemma {:induction false} Complete(g: Graph, stack: seq<string>, order: seq<string>, n: string) returns (done: seq<string>)
    requires !Cyclic(g) && n in g && (forall s <- stack :: s in g)
    requires StackTo(g, stack, n) && Topological(g, order)
    requires forall s <- stack :: s !in order
    ensures Topological(g, done) && order <= done && n in done
    ensures (forall d <- order :: d in g) ==> forall d <- done :: d in g
    ensures forall s <- stack :: s !in done
    decreases g.Keys - Elements(stack)
  {
    done := order;
    if n in stack {
      StackClosesCycle(g, stack, n);
    } else if n !in order {
      for i := 0 to |g[n]|
        invariant Topological(g, done) && order <= done
        invariant (forall d <- order :: d in g) ==> forall d <- done :: d in g
        invariant forall s <- stack + [n] :: s !in done
        invariant forall j | 0 <= j < i :: g[n][j] in g ==> g[n][j] in done
      {
        if g[n][i] in g {
          PushStack(g, stack, n, g[n][i]);
          assert n in Elements(stack + [n]);
          done := Complete(g, stack + [n], done, g[n][i]);
        }
      }
      ExtendTopological(g, done, n);
      done := done + [n];
    }
  }

  /** An acyclic graph has a topological order of exactly its summaries. */
  lemma AcyclicOrder(g: Graph) returns (order: seq<string>)
    requires !Cyclic(g)
    ensures Topological(g, order) && forall n :: n in order <==> n in g
    ensures |order| == |g.Keys|
  {
    order := [];
    var todo := g.Keys;
    while todo != {}
      invariant Topological(g, order) && todo <= g.Keys
      invariant forall d <- order :: d in g
      invariant forall n :: n in g ==> n in todo || n in order
    {
      var n :| n in todo;
      order := Complete(g, [], order, n);
      todo := todo - {n};
    }
    DistinctLength(order, g.Keys);
  }

  // ------------------------------------------------------ the cycle search

  /** The depth-first search with its two mark sets. */
  class CycleSearch {
    const graph: Graph
    var visiting: set<string>
    var visited: set<string>
    ghost var stack: seq<string>
    ghost var finished: seq<string>

    constructor (graph: Graph)
      ensures this.graph == graph && Consistent() && stack == [] && visited == {}
    {
      this.graph := graph;
      visiting, visited := {}, {};
      stack, finished := [], [];
    }

    /** The marks are the current path and the finished nodes, which are in topological order. */
    ghost predicate Consistent()
      reads this
    {
      && visiting == Elements(stack)
      && visited == visiting + Elements(finished)
      && (forall s <- stack :: s !in finished)
      && Topological(graph, finished)
    }

    /** The node and everything below it is finished: it leaves the current path. */
    method Leave(output: string)
      requires Consistent() && stack != [] && stack[|stack| - 1] == output && Distinct(stack)
      requires forall m <- Members(graph, output) :: m in finished
      modifies this
      ensures Consistent() && stack == old(stack)[..|old(stack)| - 1]
      ensures finished == old(finished) + [output] && visited == old(visited)
    {
      assert output in stack;
      ExtendTopological(graph, finished, output);
      visiting := visiting - {output};
      stack := stack[..|stack| - 1];
      finished := finished + [output];
    }

    method Visit(output: string, ghost nodes: set<string>) returns (cyclic: bool)
      requires Consistent() && StackTo(graph, stack, output)
      requires output in nodes && Nodes(graph) <= nodes && visited <= nodes
      modifies this
      ensures cyclic ==> Cyclic(graph)
      ensures !cyclic ==> Consistent() && stack == old(stack) && visited <= nodes && old(visited) <= visited
      ensures !cyclic ==> old(finished) <= finished && output in finished
      decreases nodes - visited
    {
      if output in visiting {
        StackClosesCycle(graph, stack, output);
        return true;
      }
      if output in visited {
        return false;
      }
      visited := visited + {output};
      visiting := visiting + {output};
      stack := stack + [output];
      if output in graph {
        for i := 0 to |graph[output]|
          invariant Consistent() && stack == old(stack) + [output]
          invariant old(visited) + {output} <= visited <= nodes
          invariant old(finished) <= finished
          invariant forall j | 0 <= j < i :: graph[output][j] in finished
        {
          PushStack(graph, old(stack), output, graph[output][i]);
          var found := Visit(graph[output][i], nodes);
          if found {
            return true;
          }
        }
      }
      Leave(output);
      return false;
    }
  }

  /**
   The search run for a summary just added to an acyclic graph reports a cycle exactly when there is one.
   */
  method FindCycle(graph: Graph, ghost before: Graph, start: string) returns (cyclic: bool)
    requires !Cyclic(before) && start in graph && start !in before && graph == before[start := graph[start]]
    ensures cyclic <==> Cyclic(graph)
  {
    var search := new CycleSearch(graph);
    cyclic := search.Visit(start, Nodes(graph));
    if !cyclic {
      AddSummary(before, start, graph[start], search.finished);
    }
  }
}
