/** Concrete configurations worked out on the model. The ring, the chain, the
    health-check cases and the VLAN tag come from rallyup's unit tests; the
    fan-in and the two shadowed names are configurations worked out from the
    code. */
module Scenarios {
  import opened Base
  import opened Servers
  import DependencyGraph
  import Wol

  /** A server with the given name and dependencies and no checks. */
  function Node(name: string, depends: seq<string>): Server
  {
    Server(name, "00:11:22:33:44:55", "eth0", Some(100), depends, [])
  }

  /** The server names of the scenarios differ from one another. */
  lemma DistinctNames()
    ensures "server1" != "server2" && "server1" != "server3" && "server1" != "server4"
    ensures "server2" != "server3" && "server2" != "server4" && "server3" != "server4"
    ensures "server_a" != "server_b" && "server_a" != "server_c" && "server_b" != "server_c"
  {
    assert "server1"[6] == '1' && "server2"[6] == '2' && "server3"[6] == '3' && "server4"[6] == '4';
    assert "server_a"[7] == 'a' && "server_b"[7] == 'b' && "server_c"[7] == 'c';
  }

  /** The state in which the search from `name` examines its dependencies. */
  function Enter(name: string, st: Visit): Visit
  {
    Visit(st.visited, st.visiting + {name}, st.sorted)
  }

  // ---------------------------------------------------------------------------
  // Single steps of the search
  // ---------------------------------------------------------------------------

  /** A search whose dependencies all succeed finishes the server. */
  lemma SearchFinishes(server: Server, byName: map<string, Server>, st: Visit, after: Visit)
    requires KeyedByName(byName) && server.name in byName && Consistent(st)
    requires server.name !in st.visiting && server.name !in st.visited
    requires VisitDependencies(server.depends, byName, Enter(server.name, st)) == Ok(after)
    ensures DepthFirstSearch(server, byName, st) == Ok(Finish(server.name, after))
  {
  }

  /** A search whose dependencies fail fails the same way. */
  lemma SearchFails(server: Server, byName: map<string, Server>, st: Visit, e: ServerConfigError)
    requires KeyedByName(byName) && server.name in byName && Consistent(st)
    requires server.name !in st.visiting && server.name !in st.visited
    requires VisitDependencies(server.depends, byName, Enter(server.name, st)) == Err(e)
    ensures DepthFirstSearch(server, byName, st) == Err(e)
  {
  }

  /** An empty dependency list leaves the state as it is. */
  lemma VisitsNone(byName: map<string, Server>, st: Visit)
    requires KeyedByName(byName) && Consistent(st)
    ensures VisitDependencies([], byName, st) == Ok(st)
  {
  }

  /** A dependency list whose first search succeeds goes on with the rest. */
  lemma VisitsFirst(deps: seq<string>, byName: map<string, Server>, st: Visit, next: Visit, last: Visit)
    requires KeyedByName(byName) && Consistent(st)
    requires |deps| > 0 && deps[0] in byName
    requires DepthFirstSearch(byName[deps[0]], byName, st) == Ok(next)
    requires VisitDependencies(deps[1..], byName, next) == Ok(last)
    ensures VisitDependencies(deps, byName, st) == Ok(last)
  {
  }

  /** A one-element dependency list is that one search. */
  lemma VisitsOne(d: string, byName: map<string, Server>, st: Visit, next: Visit)
    requires KeyedByName(byName) && d in byName && Consistent(st)
    requires DepthFirstSearch(byName[d], byName, st) == Ok(next)
    ensures VisitDependencies([d], byName, st) == Ok(next)
  {
    assert [d][1..] == [];
  }

  /** A dependency list whose first search fails fails the same way. */
  lemma VisitsFirstFails(deps: seq<string>, byName: map<string, Server>, st: Visit, e: ServerConfigError)
    requires KeyedByName(byName) && Consistent(st)
    requires |deps| > 0 && deps[0] in byName
    requires DepthFirstSearch(byName[deps[0]], byName, st) == Err(e)
    ensures VisitDependencies(deps, byName, st) == Err(e)
  {
  }

  lemma ReverseThree<T>(a: T, b: T, c: T)
    ensures Reverse([a, b, c]) == [c, b, a]
  {
  }

  // ---------------------------------------------------------------------------
  // A chain: server1 depends on server2, which depends on server3
  // ---------------------------------------------------------------------------

  const Chain: seq<Server> := [Node("server1", ["server2"]), Node("server2", ["server3"]), Node("server3", [])]
  const ChainByName: map<string, Server> := map["server1" := Chain[0], "server2" := Chain[1], "server3" := Chain[2]]

  lemma ChainTable()
    ensures MapServerNames(Chain) == ChainByName && KeyedByName(ChainByName)
  {
  }

  /** The states after server3, server2 and server1 finish. */
  const Chain3: Visit := Finish("server3", Enter("server3", Enter("server2", Enter("server1", Unvisited))))
  const Chain2: Visit := Finish("server2", Chain3)
  const Chain1: Visit := Finish("server1", Chain2)

  /** The searches, innermost first: server3, reached with server1 and
      server2 under way, finishes at once. */
  lemma ChainThird()
    ensures DepthFirstSearch(Chain[2], ChainByName, Enter("server2", Enter("server1", Unvisited))) == Ok(Chain3)
  {
    DistinctNames();
    ChainTable();
    VisitsNone(ChainByName, Enter("server3", Enter("server2", Enter("server1", Unvisited))));
    SearchFinishes(Chain[2], ChainByName, Enter("server2", Enter("server1", Unvisited)),
      Enter("server3", Enter("server2", Enter("server1", Unvisited))));
  }

  lemma ChainSecond()
    ensures DepthFirstSearch(Chain[1], ChainByName, Enter("server1", Unvisited)) == Ok(Chain2)
  {
    DistinctNames();
    ChainTable();
    ChainThird();
    VisitsOne("server3", ChainByName, Enter("server2", Enter("server1", Unvisited)), Chain3);
    SearchFinishes(Chain[1], ChainByName, Enter("server1", Unvisited), Chain3);
  }

  lemma ChainFirst()
    ensures DepthFirstSearch(Chain[0], ChainByName, Unvisited) == Ok(Chain1)
  {
    DistinctNames();
    ChainTable();
    ChainSecond();
    VisitsOne("server2", ChainByName, Enter("server1", Unvisited), Chain2);
    SearchFinishes(Chain[0], ChainByName, Unvisited, Chain2);
  }

  /** The loop: the search from server1 lists every server, and the loop
      then skips server2 and server3. */
  lemma ChainLoop()
    ensures WakeupLoop(Chain, 0, MapServerNames(Chain), Unvisited) == Ok(Chain1)
  {
    ChainTable();
    ChainFirst();
    assert Elements<string>([]) == {};
    assert LoopInvariant(Chain, 0, ChainByName, Unvisited);
    LoopStep(Chain, 0, ChainByName, Unvisited, Chain1);
    LoopSkip(Chain, 1, ChainByName, Chain1);
    LoopSkip(Chain, 2, ChainByName, Chain1);
  }

  lemma ChainFinishOrder()
    ensures Chain1.sorted == ["server3", "server2", "server1"]
  {
  }

  lemma ChainPostOrder()
    ensures WakeupPostOrder(Chain) == Ok(["server3", "server2", "server1"])
  {
    ChainLoop();
    ChainFinishOrder();
  }

  /** Three servers in a chain resolve, the first one first. */
  lemma ChainOrder()
    ensures DetermineWakeupOrder(Chain) == Ok(["server1", "server2", "server3"])
  {
    ChainPostOrder();
    ReverseThree("server3", "server2", "server1");
  }

  // ---------------------------------------------------------------------------
  // A ring: server1 -> server2 -> server3 -> server4 -> server1
  // ---------------------------------------------------------------------------

  const Ring1Node: Server := Node("server1", ["server2"])
  const Ring2Node: Server := Node("server2", ["server3"])
  const Ring3Node: Server := Node("server3", ["server4"])
  const Ring4Node: Server := Node("server4", ["server1"])
  const Ring: seq<Server> := [Ring1Node, Ring2Node, Ring3Node, Ring4Node]
  const RingByName: map<string, Server> :=
    map["server1" := Ring1Node, "server2" := Ring2Node, "server3" := Ring3Node, "server4" := Ring4Node]

  lemma RingTable()
    ensures MapServerNames(Ring) == RingByName && KeyedByName(RingByName)
  {
    assert Ring[..3] == [Ring1Node, Ring2Node, Ring3Node];
    assert [Ring1Node, Ring2Node, Ring3Node][..2] == [Ring1Node, Ring2Node];
    assert [Ring1Node, Ring2Node][..1] == [Ring1Node];
    assert [Ring1Node][..0] == [];
    assert MapServerNames([Ring1Node]) == map["server1" := Ring1Node];
    assert MapServerNames([Ring1Node, Ring2Node]) == map["server1" := Ring1Node, "server2" := Ring2Node];
    assert MapServerNames([Ring1Node, Ring2Node, Ring3Node])
      == map["server1" := Ring1Node, "server2" := Ring2Node, "server3" := Ring3Node];
  }

  /** The states with server1, then server2, server3 and server4 under way. */
  const Ring1: Visit := Enter("server1", Unvisited)
  const Ring2: Visit := Enter("server2", Ring1)
  const Ring3: Visit := Enter("server3", Ring2)
  const Ring4: Visit := Enter("server4", Ring3)

  /** The searches, innermost first: from server4 the search re-enters
      server1, which is still under way. */
  lemma RingFourth()
    ensures DepthFirstSearch(Ring[3], RingByName, Ring3) == Err(CircularDependency("server1"))
  {
    DistinctNames();
    RingTable();
    VisitsFirstFails(["server1"], RingByName, Ring4, CircularDependency("server1"));
    SearchFails(Ring[3], RingByName, Ring3, CircularDependency("server1"));
  }

  lemma RingThird()
    ensures DepthFirstSearch(Ring[2], RingByName, Ring2) == Err(CircularDependency("server1"))
  {
    DistinctNames();
    RingTable();
    RingFourth();
    VisitsFirstFails(["server4"], RingByName, Ring3, CircularDependency("server1"));
    SearchFails(Ring[2], RingByName, Ring2, CircularDependency("server1"));
  }

  lemma RingSecond()
    ensures DepthFirstSearch(Ring[1], RingByName, Ring1) == Err(CircularDependency("server1"))
  {
    DistinctNames();
    RingTable();
    RingThird();
    VisitsFirstFails(["server3"], RingByName, Ring2, CircularDependency("server1"));
    SearchFails(Ring[1], RingByName, Ring1, CircularDependency("server1"));
  }

  lemma RingFirst()
    ensures DepthFirstSearch(Ring[0], RingByName, Unvisited) == Err(CircularDependency("server1"))
  {
    DistinctNames();
    RingTable();
    RingSecond();
    VisitsFirstFails(["server2"], RingByName, Ring1, CircularDependency("server1"));
    SearchFails(Ring[0], RingByName, Unvisited, CircularDependency("server1"));
  }

  lemma RingLoop()
    ensures WakeupLoop(Ring, 0, MapServerNames(Ring), Unvisited) == Err(CircularDependency("server1"))
  {
    RingTable();
    RingFirst();
    assert Elements<string>([]) == {};
    assert LoopInvariant(Ring, 0, RingByName, Unvisited);
  }

  /** Four servers in a ring: the search from the first comes back to it, and
      the error names the server it came back to. */
  lemma RingOrder()
    ensures DetermineWakeupOrder(Ring) == Err(CircularDependency("server1"))
  {
    RingLoop();
  }

  // ---------------------------------------------------------------------------
  // A fan-in: server_a depends on server_b and server_c, server_b on server_c
  // ---------------------------------------------------------------------------

  const FanIn: seq<Server> := [
    Node("server_a", ["server_b", "server_c"]), Node("server_b", ["server_c"]), Node("server_c", [])]
  const FanInByName: map<string, Server> :=
    map["server_a" := FanIn[0], "server_b" := FanIn[1], "server_c" := FanIn[2]]

  lemma FanInTable()
    ensures MapServerNames(FanIn) == FanInByName && KeyedByName(FanInByName)
  {
  }

  /** The states after server_c, server_b and server_a finish. */
  const FanInC: Visit := Finish("server_c", Enter("server_c", Enter("server_b", Enter("server_a", Unvisited))))
  const FanInB: Visit := Finish("server_b", FanInC)
  const FanInA: Visit := Finish("server_a", FanInB)

  /** The searches, innermost first: server_c, reached through server_b,
      finishes at once; later, from server_a, it is already finished. */
  lemma FanInLeaf()
    ensures DepthFirstSearch(FanIn[2], FanInByName, Enter("server_b", Enter("server_a", Unvisited))) == Ok(FanInC)
  {
    DistinctNames();
    FanInTable();
    VisitsNone(FanInByName, Enter("server_c", Enter("server_b", Enter("server_a", Unvisited))));
    SearchFinishes(FanIn[2], FanInByName, Enter("server_b", Enter("server_a", Unvisited)),
      Enter("server_c", Enter("server_b", Enter("server_a", Unvisited))));
  }

  lemma FanInMiddle()
    ensures DepthFirstSearch(FanIn[1], FanInByName, Enter("server_a", Unvisited)) == Ok(FanInB)
  {
    DistinctNames();
    FanInTable();
    FanInLeaf();
    VisitsOne("server_c", FanInByName, Enter("server_b", Enter("server_a", Unvisited)), FanInC);
    SearchFinishes(FanIn[1], FanInByName, Enter("server_a", Unvisited), FanInC);
  }

  lemma FanInDependencies()
    ensures VisitDependencies(["server_b", "server_c"], FanInByName, Enter("server_a", Unvisited)) == Ok(FanInB)
  {
    DistinctNames();
    FanInTable();
    FanInMiddle();
    assert DepthFirstSearch(FanInByName["server_c"], FanInByName, FanInB) == Ok(FanInB);
    VisitsOne("server_c", FanInByName, FanInB, FanInB);
    assert ["server_b", "server_c"][1..] == ["server_c"];
    VisitsFirst(["server_b", "server_c"], FanInByName, Enter("server_a", Unvisited), FanInB, FanInB);
  }

  lemma FanInSearch()
    ensures DepthFirstSearch(FanIn[0], FanInByName, Unvisited) == Ok(FanInA)
  {
    DistinctNames();
    FanInTable();
    FanInDependencies();
    SearchFinishes(FanIn[0], FanInByName, Unvisited, FanInB);
  }

  /** The loop: the search from server_a lists every server, and the loop
      then skips server_b and server_c. */
  lemma FanInLoop()
    ensures WakeupLoop(FanIn, 0, MapServerNames(FanIn), Unvisited) == Ok(FanInA)
  {
    FanInTable();
    FanInSearch();
    assert Elements<string>([]) == {};
    assert LoopInvariant(FanIn, 0, FanInByName, Unvisited);
    LoopStep(FanIn, 0, FanInByName, Unvisited, FanInA);
    LoopSkip(FanIn, 1, FanInByName, FanInA);
    LoopSkip(FanIn, 2, FanInByName, FanInA);
  }

  lemma FanInFinishOrder()
    ensures FanInA.sorted == ["server_c", "server_b", "server_a"]
  {
  }

  /** The fan-in configuration: the searches finish in the order c, b, a... */
  lemma FanInPostOrder()
    ensures WakeupPostOrder(FanIn) == Ok(["server_c", "server_b", "server_a"])
  {
    FanInLoop();
    FanInFinishOrder();
  }

  /** ...and the reversal returns a, b, c: each server precedes the servers
      it depends on. */
  lemma FanInOrder()
    ensures DetermineWakeupOrder(FanIn) == Ok(["server_a", "server_b", "server_c"])
  {
    FanInPostOrder();
    ReverseThree("server_c", "server_b", "server_a");
  }

  // ---------------------------------------------------------------------------
  // A shadowed name: the second server_b hides the first one from the table
  // ---------------------------------------------------------------------------

  /** server_b (no dependencies), server_a depending on server_b, and a second
      server_b depending on server_a. The `depends` lists hold the cycle
      server_a, server_b, server_a, but the search from the first server_b
      finishes it before the table's server_b is ever searched. */
  const Shadowed: seq<Server> := [
    Node("server_b", []), Node("server_a", ["server_b"]), Node("server_b", ["server_a"])]
  const ShadowedByName: map<string, Server> := map["server_b" := Shadowed[2], "server_a" := Shadowed[1]]

  lemma ShadowedTable()
    ensures MapServerNames(Shadowed) == ShadowedByName && KeyedByName(ShadowedByName)
  {
  }

  /** The states after the first server_b and after server_a finish. */
  const ShadowedB: Visit := Finish("server_b", Enter("server_b", Unvisited))
  const ShadowedA: Visit := Finish("server_a", Enter("server_a", ShadowedB))

  lemma ShadowedFirst()
    ensures DepthFirstSearch(Shadowed[0], ShadowedByName, Unvisited) == Ok(ShadowedB)
  {
    ShadowedTable();
    VisitsNone(ShadowedByName, Enter("server_b", Unvisited));
    SearchFinishes(Shadowed[0], ShadowedByName, Unvisited, Enter("server_b", Unvisited));
  }

  /** From server_a, the dependency server_b is already finished, so the
      table's server_b, and with it the edge back to server_a, is never
      followed. */
  lemma ShadowedSecond()
    ensures DepthFirstSearch(Shadowed[1], ShadowedByName, ShadowedB) == Ok(ShadowedA)
  {
    DistinctNames();
    ShadowedTable();
    assert DepthFirstSearch(ShadowedByName["server_b"], ShadowedByName, Enter("server_a", ShadowedB))
      == Ok(Enter("server_a", ShadowedB));
    VisitsOne("server_b", ShadowedByName, Enter("server_a", ShadowedB), Enter("server_a", ShadowedB));
    SearchFinishes(Shadowed[1], ShadowedByName, ShadowedB, Enter("server_a", ShadowedB));
  }

  lemma ShadowedLoop()
    ensures WakeupLoop(Shadowed, 0, MapServerNames(Shadowed), Unvisited) == Ok(ShadowedA)
  {
    ShadowedTable();
    ShadowedFirst();
    ShadowedSecond();
    assert Elements<string>([]) == {};
    assert LoopInvariant(Shadowed, 0, ShadowedByName, Unvisited);
    LoopStep(Shadowed, 0, ShadowedByName, Unvisited, ShadowedB);
    LoopStep(Shadowed, 1, ShadowedByName, ShadowedB, ShadowedA);
    LoopSkip(Shadowed, 2, ShadowedByName, ShadowedA);
  }

  lemma ShadowedFinishOrder()
    ensures ShadowedA.sorted == ["server_b", "server_a"]
  {
  }

  lemma ShadowedPostOrder()
    ensures WakeupPostOrder(Shadowed) == Ok(["server_b", "server_a"])
  {
    ShadowedLoop();
    ShadowedFinishOrder();
  }

  lemma ShadowedOrder()
    ensures DetermineWakeupOrder(Shadowed) == Ok(["server_a", "server_b"])
  {
    ShadowedPostOrder();
    assert Reverse(["server_b", "server_a"]) == ["server_a", "server_b"];
  }

  /** The walk server_a, server_b, server_a follows `depends` edges: the
      second one comes from the shadowed server_b. */
  lemma ShadowedHasCycle()
    ensures !DependencyGraph.UniqueNames(Shadowed)
    ensures !DependencyGraph.Acyclic(Shadowed)
  {
    assert Shadowed[0].name == Shadowed[2].name;
    assert DependencyGraph.DependsOn(Shadowed, "server_a", "server_b") by {
      assert "server_b" in Shadowed[1].depends;
    }
    assert DependencyGraph.DependsOn(Shadowed, "server_b", "server_a") by {
      assert "server_a" in Shadowed[2].depends;
    }
    var p := ["server_a", "server_b", "server_a"];
    assert DependencyGraph.IsPath(Shadowed, p);
  }

  /** With a name given twice, the resolver succeeds on a configuration whose
      `depends` lists hold a cycle: this is why the converse theorems assume
      unique names. */
  lemma ShadowedCycleResolves()
    ensures !DependencyGraph.UniqueNames(Shadowed) && !DependencyGraph.Acyclic(Shadowed)
    ensures DetermineWakeupOrder(Shadowed).Ok?
  {
    ShadowedHasCycle();
    ShadowedOrder();
  }

  // ---------------------------------------------------------------------------
  // A shadowed name hiding an undefined reference
  // ---------------------------------------------------------------------------

  /** server_a depending on server_b, a server_b depending on server_c, which
      names no server, and a second server_b without dependencies. The table
      keeps the second server_b, and the loop skips the first one once the
      search from server_a has visited the name. */
  const Dangling: seq<Server> := [
    Node("server_a", ["server_b"]), Node("server_b", ["server_c"]), Node("server_b", [])]
  const DanglingByName: map<string, Server> := map["server_a" := Dangling[0], "server_b" := Dangling[2]]

  lemma DanglingTable()
    ensures MapServerNames(Dangling) == DanglingByName && KeyedByName(DanglingByName)
  {
  }

  /** The states after server_b and server_a finish. */
  const DanglingB: Visit := Finish("server_b", Enter("server_b", Enter("server_a", Unvisited)))
  const DanglingA: Visit := Finish("server_a", DanglingB)

  lemma DanglingLeaf()
    ensures DepthFirstSearch(Dangling[2], DanglingByName, Enter("server_a", Unvisited)) == Ok(DanglingB)
  {
    DistinctNames();
    DanglingTable();
    VisitsNone(DanglingByName, Enter("server_b", Enter("server_a", Unvisited)));
    SearchFinishes(Dangling[2], DanglingByName, Enter("server_a", Unvisited),
      Enter("server_b", Enter("server_a", Unvisited)));
  }

  lemma DanglingSearch()
    ensures DepthFirstSearch(Dangling[0], DanglingByName, Unvisited) == Ok(DanglingA)
  {
    DistinctNames();
    DanglingTable();
    DanglingLeaf();
    VisitsOne("server_b", DanglingByName, Enter("server_a", Unvisited), DanglingB);
    SearchFinishes(Dangling[0], DanglingByName, Unvisited, DanglingB);
  }

  lemma DanglingLoop()
    ensures WakeupLoop(Dangling, 0, MapServerNames(Dangling), Unvisited) == Ok(DanglingA)
  {
    DanglingTable();
    DanglingSearch();
    assert Elements<string>([]) == {};
    assert LoopInvariant(Dangling, 0, DanglingByName, Unvisited);
    LoopStep(Dangling, 0, DanglingByName, Unvisited, DanglingA);
    LoopSkip(Dangling, 1, DanglingByName, DanglingA);
    LoopSkip(Dangling, 2, DanglingByName, DanglingA);
  }

  lemma DanglingFinishOrder()
    ensures DanglingA.sorted == ["server_b", "server_a"]
  {
  }

  lemma DanglingOrder()
    ensures DetermineWakeupOrder(Dangling) == Ok(["server_a", "server_b"])
  {
    DanglingLoop();
    DanglingFinishOrder();
    assert WakeupPostOrder(Dangling) == Ok(["server_b", "server_a"]);
    assert Reverse(["server_b", "server_a"]) == ["server_a", "server_b"];
  }

  /** server_c, listed by the first server_b, names no server. */
  lemma DanglingHasUndefined()
    ensures !DependencyGraph.UniqueNames(Dangling)
    ensures !DependencyGraph.AllDependenciesDefined(Dangling)
  {
    DistinctNames();
    assert Dangling[1].name == Dangling[2].name;
    assert "server_c" in Dangling[1].depends;
    assert "server_c" !in Names(Dangling) by {
      forall x | x in Names(Dangling) ensures x == "server_a" || x == "server_b" {
      }
    }
  }

  /** With a name given twice, the resolver succeeds on a configuration that
      lists a name no server carries: the undefined reference hangs off the
      server_b the table drops. */
  lemma DanglingReferenceResolves()
    ensures !DependencyGraph.UniqueNames(Dangling) && !DependencyGraph.AllDependenciesDefined(Dangling)
    ensures DetermineWakeupOrder(Dangling).Ok?
  {
    DanglingHasUndefined();
    DanglingOrder();
  }

  // ---------------------------------------------------------------------------
  // Health checks
  // ---------------------------------------------------------------------------

  /** An HTTP check with neither a status nor a pattern is rejected. */
  lemma HttpCheckWithoutCriteria(isIp: string -> bool)
    ensures ValidateHealthCheck(Http("http://example.com", None, DefaultRetry, None), isIp)
      == Err(BadHealthCheckDefinition(HttpCheckMessage))
  {
  }

  /** A shell check with neither a return code nor a pattern is rejected. */
  lemma ShellCheckWithoutCriteria(isIp: string -> bool)
    ensures ValidateHealthCheck(Shell("curl something", 120_000_000_000, None, None), isIp)
      == Err(BadHealthCheckDefinition(ShellCheckMessage))
  {
  }

  /** A port check on a string that is not an IP address is rejected. */
  lemma PortCheckOnBadAddress(isIp: string -> bool)
    requires !isIp("invalid_ip")
    ensures ValidateHealthCheck(Port("invalid_ip", 80, DefaultRetry), isIp)
      == Err(BadHealthCheckDefinition(PortCheckMessage))
  {
  }

  /** An HTTP check with a status, a port check on an address, and a shell
      check with a pattern are each accepted. */
  lemma WellFormedChecks(isIp: string -> bool)
    requires isIp("192.168.1.1")
    ensures ValidateHealthCheck(Http("http://example.com", Some(200), DefaultRetry, None), isIp) == Ok(())
    ensures ValidateHealthCheck(Port("192.168.1.1", 80, DefaultRetry), isIp) == Ok(())
    ensures ValidateHealthCheck(Shell("echo Hello", DefaultRetry, None, Some("Hello")), isIp) == Ok(())
  {
  }

  // ---------------------------------------------------------------------------
  // VLAN tag
  // ---------------------------------------------------------------------------

  /** VLAN 0x0101 is tagged as the octets 0x01 0x01. */
  lemma VlanTagExample()
    ensures Wol.VlanToBytes(0x0101) == [0x01, 0x01]
  {
  }
}
