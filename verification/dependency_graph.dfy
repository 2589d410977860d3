/** The `depends` relation of a configuration seen as a directed graph, and
    what the resolver's answer says about that graph: a reported circular
    dependency lies on a real cycle, a graph with every reference defined and
    no cycle always resolves, and, when server names are unique, a resolved
    graph has both properties and its order respects every dependency. */
module DependencyGraph {
  import opened Base
  import opened Servers

  /** Some server named `x` lists `y` among its dependencies. */
  ghost predicate DependsOn(servers: seq<Server>, x: string, y: string)
  {
    exists j :: 0 <= j < |servers| && servers[j].name == x && y in servers[j].depends
  }

  /** `p` is a walk along `depends` edges. */
  ghost predicate IsPath(servers: seq<Server>, p: seq<string>)
  {
    |p| >= 1 && forall i :: 0 <= i < |p| - 1 ==> DependsOn(servers, p[i], p[i + 1])
  }

  /** Some walk of at least one edge leads from `n` back to `n`. */
  ghost predicate OnCycle(servers: seq<Server>, n: string)
  {
    exists p :: IsPath(servers, p) && |p| >= 2 && p[0] == n && p[|p| - 1] == n
  }

  /** No walk of at least one edge returns to where it started. */
  ghost predicate Acyclic(servers: seq<Server>)
  {
    forall p :: IsPath(servers, p) && |p| >= 2 ==> p[0] != p[|p| - 1]
  }

  /** Every name listed in a `depends` list is the name of a server. */
  ghost predicate AllDependenciesDefined(servers: seq<Server>)
  {
    forall j, d :: 0 <= j < |servers| && d in servers[j].depends ==> d in Names(servers)
  }

  /** No two servers share a name. */
  ghost predicate UniqueNames(servers: seq<Server>)
  {
    forall i, j :: 0 <= i < j < |servers| ==> servers[i].name != servers[j].name
  }

  /** The position of `x` in `s`. */
  ghost function IndexOf(s: seq<string>, x: string): (i: int)
    requires x in s
    ensures 0 <= i < |s| && s[i] == x
  {
    var i :| 0 <= i < |s| && s[i] == x; i
  }

  // ---------------------------------------------------------------------------
  // A reported circular dependency is a cycle
  // ---------------------------------------------------------------------------

  lemma PathSuffix(servers: seq<Server>, p: seq<string>, k: int)
    requires IsPath(servers, p) && 0 <= k < |p|
    ensures IsPath(servers, p[k..])
  {
    forall i | 0 <= i < |p[k..]| - 1
      ensures DependsOn(servers, p[k..][i], p[k..][i + 1])
    {
      assert p[k..][i] == p[k + i] && p[k..][i + 1] == p[k + i + 1];
    }
  }

  lemma PathSnoc(servers: seq<Server>, p: seq<string>, y: string)
    requires IsPath(servers, p) && DependsOn(servers, p[|p| - 1], y)
    ensures IsPath(servers, p + [y])
  {
    var q := p + [y];
    forall i | 0 <= i < |q| - 1
      ensures DependsOn(servers, q[i], q[i + 1])
    {
      if i < |p| - 1 {
        assert q[i] == p[i] && q[i + 1] == p[i + 1];
      }
    }
  }

  /** A search that ends in `CircularDependency(n)`, started from a server at
      the end of a walk `stack` whose names are exactly the ones under way,
      has found a cycle through `n`. */
  lemma {:induction false} SearchReportsCycle(
    servers: seq<Server>, server: Server, byName: map<string, Server>, st: Visit, stack: seq<string>, n: string)
    requires byName == MapServerNames(servers)
    requires server in servers && server.name in byName
    requires Consistent(st)
    requires Elements(stack) == st.visiting
    requires IsPath(servers, stack + [server.name])
    requires DepthFirstSearch(server, byName, st) == Err(CircularDependency(n))
    ensures OnCycle(servers, n)
    decreases byName.Keys - st.visiting, 0, 0
  {
    var walk := stack + [server.name];
    if server.name in st.visiting {
      var k :| 0 <= k < |stack| && stack[k] == server.name;
      PathSuffix(servers, walk, k);
      assert walk[k..][0] == n && walk[k..][|walk[k..]| - 1] == n;
    } else if server.name in st.visited {
      assert false;
    } else {
      var inner := Visit(st.visited, st.visiting + {server.name}, st.sorted);
      assert Elements(walk) == inner.visiting;
      DepsReportCycle(servers, server, server.depends, byName, inner, walk, n);
    }
  }

  /** The same for the loop over the dependencies of `owner`, the server at
      the end of `stack`. */
  lemma {:induction false} DepsReportCycle(
    servers: seq<Server>, owner: Server, deps: seq<string>, byName: map<string, Server>,
    st: Visit, stack: seq<string>, n: string)
    requires byName == MapServerNames(servers)
    requires owner in servers
    requires forall d :: d in deps ==> d in owner.depends
    requires Consistent(st)
    requires Elements(stack) == st.visiting
    requires |stack| >= 1 && stack[|stack| - 1] == owner.name && IsPath(servers, stack)
    requires VisitDependencies(deps, byName, st) == Err(CircularDependency(n))
    ensures OnCycle(servers, n)
    decreases byName.Keys - st.visiting, 1, |deps|
  {
    var d := deps[0];
    var dep := byName[d];
    assert IsLastNamed(servers, dep);
    assert dep in servers;
    var j :| 0 <= j < |servers| && servers[j] == owner;
    assert DependsOn(servers, owner.name, d);
    PathSnoc(servers, stack, d);
    match DepthFirstSearch(dep, byName, st)
    case Err(_) =>
      SearchReportsCycle(servers, dep, byName, st, stack, n);
    case Ok(next) =>
      DepsReportCycle(servers, owner, deps[1..], byName, next, stack, n);
  }

  /** A search started by the loop begins with nothing under way. */
  lemma FirstSearchReportsCycle(servers: seq<Server>, i: int, byName: map<string, Server>, st: Visit, n: string)
    requires LoopInvariant(servers, i, byName, st) && i < |servers|
    requires DepthFirstSearch(servers[i], byName, st) == Err(CircularDependency(n))
    ensures OnCycle(servers, n)
  {
    assert servers[i] in servers;
    assert Elements<string>([]) == {};
    SearchReportsCycle(servers, servers[i], byName, st, [], n);
  }

  /** After a successful search from server `i`, the cycle is found later. */
  lemma {:induction false} LaterSearchReportsCycle(
    servers: seq<Server>, i: int, byName: map<string, Server>, st: Visit, next: Visit, n: string)
    requires LoopInvariant(servers, i, byName, st) && i < |servers|
    requires servers[i].name !in st.visited
    requires DepthFirstSearch(servers[i], byName, st) == Ok(next)
    requires WakeupLoop(servers, i, byName, st) == Err(CircularDependency(n))
    ensures OnCycle(servers, n)
    decreases |servers| - i, 0
  {
    LoopStep(servers, i, byName, st, next);
    assert WakeupLoop(servers, i + 1, byName, next) == Err(CircularDependency(n));
    LoopReportsCycle(servers, i + 1, byName, next, n);
  }

  lemma {:induction false} LoopReportsCycle(servers: seq<Server>, i: int, byName: map<string, Server>, st: Visit, n: string)
    requires LoopInvariant(servers, i, byName, st)
    requires WakeupLoop(servers, i, byName, st) == Err(CircularDependency(n))
    ensures OnCycle(servers, n)
    decreases |servers| - i, 1
  {
    assert i < |servers|;
    var server := servers[i];
    if server.name in st.visited {
      LoopSkip(servers, i, byName, st);
      LoopReportsCycle(servers, i + 1, byName, st, n);
    } else {
      assert server.name in byName;
      var r := DepthFirstSearch(server, byName, st);
      if r.Err? {
        assert r == Err(CircularDependency(n));
        FirstSearchReportsCycle(servers, i, byName, st, n);
      } else {
        LaterSearchReportsCycle(servers, i, byName, st, r.value, n);
      }
    }
  }

  /** The resolver reports `CircularDependency(n)` only when `n` lies on a
      cycle of the `depends` relation. */
  lemma CircularDependencyIsCycle(servers: seq<Server>, n: string)
    ensures DetermineWakeupOrder(servers) == Err(CircularDependency(n)) ==> OnCycle(servers, n)
  {
    if DetermineWakeupOrder(servers) == Err(CircularDependency(n)) {
      var byName := MapServerNames(servers);
      assert Elements<string>([]) == {};
      assert LoopInvariant(servers, 0, byName, Unvisited);
      LoopReportsCycle(servers, 0, byName, Unvisited, n);
    }
  }

  /** A failed resolution always points at a flaw of the graph: an undefined
      reference or a cycle. Equivalently, a graph with every reference defined
      and no cycle always resolves. */
  lemma FailureMeansMalformedGraph(servers: seq<Server>)
    ensures DetermineWakeupOrder(servers).Err? ==> !AllDependenciesDefined(servers) || !Acyclic(servers)
  {
    var r := DetermineWakeupOrder(servers);
    if r.Err? {
      if r.error.CircularDependency? {
        CircularDependencyIsCycle(servers, r.error.name);
        var p :| IsPath(servers, p) && |p| >= 2 && p[0] == r.error.name && p[|p| - 1] == r.error.name;
        assert !Acyclic(servers);
      } else {
        var j :| 0 <= j < |servers| && r.error.name in servers[j].depends;
        assert !AllDependenciesDefined(servers);
      }
    }
  }

  // ---------------------------------------------------------------------------
  // With unique names, a resolved graph is well formed
  // ---------------------------------------------------------------------------

  /** The facts the post-order gives, as one bundle. */
  ghost predicate IsPostOrder(servers: seq<Server>, post: seq<string>)
  {
    && Distinct(post)
    && Elements(post) == Names(servers)
    && forall k :: 0 <= k < |post| ==> ListedAfterDeps(servers, post, k)
  }

  lemma SameNameSameServer(servers: seq<Server>, a: int, b: int)
    requires UniqueNames(servers)
    requires 0 <= a < |servers| && 0 <= b < |servers| && servers[a].name == servers[b].name
    ensures a == b
  {
  }

  /** Every dependency of the server named at position `k` comes earlier. */
  lemma DepsEarlier(servers: seq<Server>, post: seq<string>, j: int, k: int)
    requires UniqueNames(servers) && IsPostOrder(servers, post)
    requires 0 <= j < |servers| && 0 <= k < |post| && post[k] == servers[j].name
    ensures DepsListed(servers[j].depends, post, k)
  {
    assert ListedAfterDeps(servers, post, k);
    var j' :| 0 <= j' < |servers| && servers[j'].name == post[k] && DepsListed(servers[j'].depends, post, k);
    SameNameSameServer(servers, j, j');
  }

  lemma EdgeDescends(servers: seq<Server>, post: seq<string>, x: string, y: string)
    requires UniqueNames(servers) && IsPostOrder(servers, post)
    requires DependsOn(servers, x, y)
    ensures x in post && y in post && IndexOf(post, y) < IndexOf(post, x)
  {
    var j :| 0 <= j < |servers| && servers[j].name == x && y in servers[j].depends;
    assert x in Names(servers);
    assert x in Elements(post);
    var k := IndexOf(post, x);
    DepsEarlier(servers, post, j, k);
    assert y in post[..k];
    var m :| 0 <= m < k && post[m] == y;
    assert IndexOf(post, y) == m;
  }

  lemma {:induction false} PathDescends(servers: seq<Server>, post: seq<string>, p: seq<string>)
    requires UniqueNames(servers) && IsPostOrder(servers, post)
    requires IsPath(servers, p) && |p| >= 2
    ensures p[0] in post && p[|p| - 1] in post
    ensures IndexOf(post, p[|p| - 1]) < IndexOf(post, p[0])
    decreases |p|
  {
    EdgeDescends(servers, post, p[0], p[1]);
    if |p| > 2 {
      PathSuffix(servers, p, 1);
      PathDescends(servers, post, p[1..]);
    }
  }

  /** With unique names, a successful resolution means every reference is
      defined and the graph has no cycle. */
  lemma ResolvedMeansWellFormed(servers: seq<Server>)
    requires UniqueNames(servers)
    ensures DetermineWakeupOrder(servers).Ok? ==> AllDependenciesDefined(servers) && Acyclic(servers)
  {
    var r := WakeupPostOrder(servers);
    if r.Ok? {
      var post := r.value;
      assert IsPostOrder(servers, post);
      forall j, d | 0 <= j < |servers| && d in servers[j].depends
        ensures d in Names(servers)
      {
        assert servers[j].name in Names(servers);
        assert servers[j].name in Elements(post);
        var k := IndexOf(post, servers[j].name);
        DepsEarlier(servers, post, j, k);
        assert d in post[..k];
        assert d in Elements(post);
      }
      forall p | IsPath(servers, p) && |p| >= 2
        ensures p[0] != p[|p| - 1]
      {
        PathDescends(servers, post, p);
      }
    }
  }

  /** With unique names the resolver succeeds exactly on the graphs with every
      reference defined and no cycle. */
  lemma ResolvesIffWellFormed(servers: seq<Server>)
    requires UniqueNames(servers)
    ensures DetermineWakeupOrder(servers).Ok? <==> AllDependenciesDefined(servers) && Acyclic(servers)
  {
    FailureMeansMalformedGraph(servers);
    ResolvedMeansWellFormed(servers);
  }

  // ---------------------------------------------------------------------------
  // Order of the names
  // ---------------------------------------------------------------------------

  /** With unique names, in the post-order every dependency of a server comes
      before the server. */
  lemma PostOrderPutsDependenciesFirst(servers: seq<Server>)
    requires UniqueNames(servers)
    ensures WakeupPostOrder(servers).Ok? ==>
      var post := WakeupPostOrder(servers).value;
      forall j, d :: 0 <= j < |servers| && d in servers[j].depends ==>
        exists p, q :: 0 <= p < q < |post| && post[p] == d && post[q] == servers[j].name
  {
    var r := WakeupPostOrder(servers);
    if r.Ok? {
      var post := r.value;
      assert IsPostOrder(servers, post);
      forall j, d | 0 <= j < |servers| && d in servers[j].depends
        ensures exists p, q :: 0 <= p < q < |post| && post[p] == d && post[q] == servers[j].name
      {
        assert servers[j].name in Names(servers);
        assert servers[j].name in Elements(post);
        var q := IndexOf(post, servers[j].name);
        DepsEarlier(servers, post, j, q);
        assert d in post[..q];
        var p :| 0 <= p < q && post[p] == d;
      }
    }
  }

  /** Reversing a list turns around every pair of a dependency listed before
      its dependent. */
  lemma ReversalFlipsEdges(servers: seq<Server>, post: seq<string>, order: seq<string>)
    requires |order| == |post|
    requires forall i :: 0 <= i < |order| ==> order[i] == post[|order| - 1 - i]
    requires forall j, d :: 0 <= j < |servers| && d in servers[j].depends ==>
      exists p, q :: 0 <= p < q < |post| && post[p] == d && post[q] == servers[j].name
    ensures forall j, d :: 0 <= j < |servers| && d in servers[j].depends ==>
      exists p, q :: 0 <= p < q < |order| && order[p] == servers[j].name && order[q] == d
  {
    forall j, d | 0 <= j < |servers| && d in servers[j].depends
      ensures exists p, q :: 0 <= p < q < |order| && order[p] == servers[j].name && order[q] == d
    {
      var p, q :| 0 <= p < q < |post| && post[p] == d && post[q] == servers[j].name;
      assert order[|post| - 1 - q] == servers[j].name;
      assert order[|post| - 1 - p] == d;
    }
  }

  /** With unique names, in the order the resolver returns every server comes
      before the servers it depends on: the reversal turns the post-order
      around. */
  lemma ReturnedOrderPutsDependentsFirst(servers: seq<Server>)
    requires UniqueNames(servers)
    ensures DetermineWakeupOrder(servers).Ok? ==>
      var order := DetermineWakeupOrder(servers).value;
      forall j, d :: 0 <= j < |servers| && d in servers[j].depends ==>
        exists p, q :: 0 <= p < q < |order| && order[p] == servers[j].name && order[q] == d
  {
    var r := DetermineWakeupOrder(servers);
    if r.Ok? {
      PostOrderPutsDependenciesFirst(servers);
      ReversalFlipsEdges(servers, WakeupPostOrder(servers).value, r.value);
    }
  }
}
