/** The server configuration of rallyup: the servers to wake, their health
    checks, the validation of those checks and the wake-up order computed by a
    depth-first search over the `depends` relation. */
module Servers {
  import opened Base

  /** The configuration errors the resolver and the validator report. */
  datatype ServerConfigError =
    | ParseError(message: string)
    | UndefinedDependency(name: string)
    | CircularDependency(name: string)
    | BadHealthCheckDefinition(message: string)

  /** A retry interval, in nanoseconds (Rust's `std::time::Duration`). */
  type Duration = nat

  /** The retry interval a check gets when its definition names none: ten seconds. */
  const DefaultRetry: Duration := 10_000_000_000

  /** A health check. A regular expression is kept as its pattern text: only
      whether it is present matters to the validation. */
  datatype HealthCheck =
    | Http(url: string, status: Option<u16>, retry: Duration, regex: Option<string>)
    | Port(ip: string, port: u32, retry: Duration)
    | Shell(command: string, retry: Duration, status: Option<u16>, regex: Option<string>)

  /** One entry of the configuration file. */
  datatype Server = Server(
    name: string,
    mac: string,
    interface: string,
    vlan: Option<u16>,
    depends: seq<string>,
    check: seq<HealthCheck>)

  const HttpCheckMessage: string :=
    "HTTP health check requires an HTTP status code to match and/or a Regex to match in the response"
  const PortCheckMessage: string :=
    "Port check requires a valid IP address"
  const ShellCheckMessage: string :=
    "Health check via shell command requires an return code to match and/or a Regex to match in the standard output"

  /** The names of the configured servers. */
  ghost function Names(servers: seq<Server>): set<string>
  {
    set i | 0 <= i < |servers| :: servers[i].name
  }

  // ---------------------------------------------------------------------------
  // Health-check validation
  // ---------------------------------------------------------------------------

  /** A check is well formed when it can ever be judged: an HTTP or shell
      check must compare something (a status or a pattern), and a port check
      must name an address that `isIp` (the standard IP-address parser)
      accepts. */
  ghost predicate WellFormed(hc: HealthCheck, isIp: string -> bool)
  {
    match hc
    case Port(ip, _, _) => isIp(ip)
    case _ => hc.status.Some? || hc.regex.Some?
  }

  /** The message reported for a malformed check of the kind of `hc`. */
  function CheckMessage(hc: HealthCheck): string
  {
    match hc
    case Http(_, _, _, _) => HttpCheckMessage
    case Port(_, _, _) => PortCheckMessage
    case Shell(_, _, _, _) => ShellCheckMessage
  }

  /** Validates one check. */
  function ValidateHealthCheck(hc: HealthCheck, isIp: string -> bool): (r: Result<(), ServerConfigError>)
    ensures hc.Http? ==> (r.Err? <==> hc.status.None? && hc.regex.None?)
    ensures hc.Shell? ==> (r.Err? <==> hc.status.None? && hc.regex.None?)
    ensures hc.Port? ==> (r.Err? <==> !isIp(hc.ip))
    ensures r.Ok? <==> WellFormed(hc, isIp)
    ensures r.Err? ==> r.error == BadHealthCheckDefinition(CheckMessage(hc))
  {
    match hc
    case Http(_, status, _, regex) =>
      if status.None? && regex.None? then Err(BadHealthCheckDefinition(HttpCheckMessage)) else Ok(())
    case Port(ip, _, _) =>
      if !isIp(ip) then Err(BadHealthCheckDefinition(PortCheckMessage)) else Ok(())
    case Shell(_, _, status, regex) =>
      if status.None? && regex.None? then Err(BadHealthCheckDefinition(ShellCheckMessage)) else Ok(())
  }

  /** Every check of server `s` is well formed. */
  ghost predicate ChecksWellFormed(s: Server, isIp: string -> bool)
  {
    forall j :: 0 <= j < |s.check| ==> WellFormed(s.check[j], isIp)
  }

  /** Every check of every server is well formed. */
  ghost predicate AllChecksWellFormed(servers: seq<Server>, isIp: string -> bool)
  {
    forall i :: 0 <= i < |servers| ==> ChecksWellFormed(servers[i], isIp)
  }

  /** Check `j` is the first malformed one of `checks`. */
  ghost predicate FirstMalformed(checks: seq<HealthCheck>, isIp: string -> bool, j: int)
  {
    && 0 <= j < |checks|
    && !WellFormed(checks[j], isIp)
    && forall j' :: 0 <= j' < j ==> WellFormed(checks[j'], isIp)
  }

  /** Validates the checks of one server in order and stops at the first
      malformed one. */
  function ValidateChecks(checks: seq<HealthCheck>, isIp: string -> bool): (r: Result<(), ServerConfigError>)
    ensures r.Ok? <==> forall j :: 0 <= j < |checks| ==> WellFormed(checks[j], isIp)
    ensures r.Err? ==>
      exists j :: FirstMalformed(checks, isIp, j) && r.error == BadHealthCheckDefinition(CheckMessage(checks[j]))
  {
    if |checks| == 0 then Ok(())
    else
      match ValidateHealthCheck(checks[0], isIp)
      case Err(e) =>
        assert FirstMalformed(checks, isIp, 0);
        Err(e)
      case Ok(_) =>
        var rest := ValidateChecks(checks[1..], isIp);
        assert forall j :: 1 <= j < |checks| ==> checks[j] == checks[1..][j - 1];
        assert rest.Err? ==>
          exists j :: FirstMalformed(checks, isIp, j) && rest.error == BadHealthCheckDefinition(CheckMessage(checks[j]))
        by {
          if rest.Err? {
            var j :| FirstMalformed(checks[1..], isIp, j) && rest.error == BadHealthCheckDefinition(CheckMessage(checks[1..][j]));
            assert FirstMalformed(checks, isIp, j + 1);
          }
        }
        rest
  }

  /** Server `i` holds the first malformed check, at position `j`, of all
      checks taken server by server. */
  ghost predicate FirstMalformedServer(servers: seq<Server>, isIp: string -> bool, i: int, j: int)
  {
    && 0 <= i < |servers|
    && (forall i' :: 0 <= i' < i ==> ChecksWellFormed(servers[i'], isIp))
    && FirstMalformed(servers[i].check, isIp, j)
  }

  /** Validates the checks of all servers, server by server and check by
      check, and stops at the first malformed one. */
  function ValidateServers(servers: seq<Server>, isIp: string -> bool): (r: Result<(), ServerConfigError>)
    ensures r.Ok? <==> AllChecksWellFormed(servers, isIp)
    ensures r.Err? ==>
      exists i, j :: FirstMalformedServer(servers, isIp, i, j)
        && r.error == BadHealthCheckDefinition(CheckMessage(servers[i].check[j]))
  {
    if |servers| == 0 then Ok(())
    else
      match ValidateChecks(servers[0].check, isIp)
      case Err(e) =>
        assert exists j ::
            FirstMalformedServer(servers, isIp, 0, j) && e == BadHealthCheckDefinition(CheckMessage(servers[0].check[j]));
        Err(e)
      case Ok(_) =>
        var rest := ValidateServers(servers[1..], isIp);
        assert forall i :: 1 <= i < |servers| ==> servers[i] == servers[1..][i - 1];
        assert rest.Err? ==>
          exists i, j :: FirstMalformedServer(servers, isIp, i, j)
            && rest.error == BadHealthCheckDefinition(CheckMessage(servers[i].check[j]))
        by {
          if rest.Err? {
            var i, j :| FirstMalformedServer(servers[1..], isIp, i, j)
              && rest.error == BadHealthCheckDefinition(CheckMessage(servers[1..][i].check[j]));
            assert FirstMalformedServer(servers, isIp, i + 1, j);
          }
        }
        rest
  }

  // ---------------------------------------------------------------------------
  // Name lookup
  // ---------------------------------------------------------------------------

  /** No server after position `i` has the name of server `i`. */
  ghost predicate LastWithName(servers: seq<Server>, i: int)
    requires 0 <= i < |servers|
  {
    forall j :: i < j < |servers| ==> servers[j].name != servers[i].name
  }

  /** Every key of `byName` is the name of the server it maps to. */
  ghost predicate KeyedByName(byName: map<string, Server>)
  {
    forall k :: k in byName ==> byName[k].name == k
  }

  /** Server `s` is the last server of `servers` that carries its name. */
  ghost predicate IsLastNamed(servers: seq<Server>, s: Server)
  {
    exists i :: 0 <= i < |servers| && servers[i] == s && LastWithName(servers, i)
  }

  /** `m` maps every configured name, and only those, to the last server that
      carries it. */
  ghost predicate IsNameTable(servers: seq<Server>, m: map<string, Server>)
  {
    && m.Keys == Names(servers)
    && KeyedByName(m)
    && forall k :: k in m ==> IsLastNamed(servers, m[k])
  }

  /** The names of a list are the names of all but its last server, plus the
      last one's. */
  lemma NamesSnoc(servers: seq<Server>)
    requires |servers| > 0
    ensures Names(servers) == Names(servers[..|servers| - 1]) + {servers[|servers| - 1].name}
  {
    var n := |servers| - 1;
    var init := servers[..n];
    forall x | x in Names(servers) ensures x in Names(init) + {servers[n].name} {
      var i :| 0 <= i < |servers| && servers[i].name == x;
      if i < n { assert init[i].name == x; }
    }
    forall x | x in Names(init) ensures x in Names(servers) {
      var i :| 0 <= i < n && init[i].name == x;
      assert servers[i].name == x;
    }
  }

  /** Appending a server with another name keeps a server last of its name. */
  lemma LastNamedSnoc(servers: seq<Server>, s: Server)
    requires |servers| > 0
    requires IsLastNamed(servers[..|servers| - 1], s) && s.name != servers[|servers| - 1].name
    ensures IsLastNamed(servers, s)
  {
    var init := servers[..|servers| - 1];
    var i :| 0 <= i < |init| && init[i] == s && LastWithName(init, i);
    assert servers[i] == s;
    assert LastWithName(servers, i);
  }

  lemma NameTableSnoc(servers: seq<Server>, m: map<string, Server>)
    requires |servers| > 0
    requires IsNameTable(servers[..|servers| - 1], m)
    ensures IsNameTable(servers, m[servers[|servers| - 1].name := servers[|servers| - 1]])
  {
    var n := |servers| - 1;
    var last := servers[n];
    var r := m[last.name := last];
    NamesSnoc(servers);
    forall k | k in r
      ensures IsLastNamed(servers, r[k])
    {
      if k == last.name {
        assert LastWithName(servers, n);
      } else {
        LastNamedSnoc(servers, m[k]);
      }
    }
  }

  /** The lookup table from names to servers. Entries are inserted in input
      order, so when two servers share a name the later one is kept. */
  function MapServerNames(servers: seq<Server>): (r: map<string, Server>)
    ensures r.Keys == Names(servers)
    ensures KeyedByName(r)
    ensures forall k :: k in r ==> IsLastNamed(servers, r[k])
  {
    if |servers| == 0 then map[]
    else
      var m := MapServerNames(servers[..|servers| - 1]);
      NameTableSnoc(servers, m);
      m[servers[|servers| - 1].name := servers[|servers| - 1]]
  }

  // ---------------------------------------------------------------------------
  // Depth-first search
  // ---------------------------------------------------------------------------

  /** The state the search threads through its calls: the names whose search
      is finished, the names whose search is under way, and the finished names
      in the order they finished (post-order). */
  datatype Visit = Visit(visited: set<string>, visiting: set<string>, sorted: seq<string>)

  /** The initial state: nothing visited, nothing under way. */
  const Unvisited: Visit := Visit({}, {}, [])

  /** The search state invariant: `visited` holds exactly the names in
      `sorted`, each once, and no name is both visited and under way. */
  ghost predicate Consistent(st: Visit)
  {
    && st.visited == Elements(st.sorted)
    && Distinct(st.sorted)
    && st.visited !! st.visiting
  }

  /** Every name of `deps` occurs before position `i` of `sorted`. */
  ghost predicate DepsListed(deps: seq<string>, sorted: seq<string>, i: int)
    requires 0 <= i <= |sorted|
  {
    forall d :: d in deps ==> d in sorted[..i]
  }

  /** The name at position `i` of `sorted` was pushed after all the
      dependencies of its server: the one `byName` holds for it, or `top`, the
      server a search was started from. */
  ghost predicate PushedAfterDeps(byName: map<string, Server>, top: Server, sorted: seq<string>, i: int)
    requires 0 <= i < |sorted|
  {
    || (sorted[i] in byName && DepsListed(byName[sorted[i]].depends, sorted, i))
    || (sorted[i] == top.name && DepsListed(top.depends, sorted, i))
  }

  /** The name `n` occurs in the `depends` list of `top` or of some server of
      `byName`. */
  ghost predicate Referenced(byName: map<string, Server>, deps: seq<string>, n: string)
  {
    n in deps || exists k :: k in byName && n in byName[k].depends
  }

  /** The errors a search can end with: a reference to an undefined name, or
      the re-entry of a server whose search is under way. */
  ghost predicate SearchError(byName: map<string, Server>, deps: seq<string>, e: ServerConfigError)
  {
    || (e.UndefinedDependency? && e.name !in byName && Referenced(byName, deps, e.name))
    || (e.CircularDependency? && e.name in byName)
  }

  lemma DepsListedExtends(deps: seq<string>, s: seq<string>, t: seq<string>, i: int)
    requires s <= t && 0 <= i <= |s|
    requires DepsListed(deps, s, i)
    ensures DepsListed(deps, t, i)
  {
    assert s[..i] == t[..i];
  }

  /** The state after the search from `name` finishes: `name` moves from
      under way to visited and is appended to `sorted`. */
  function Finish(name: string, after: Visit): Visit
  {
    Visit(after.visited + {name}, after.visiting - {name}, after.sorted + [name])
  }

  /** Finishing a search whose dependencies were all searched keeps the state
      invariant and lists the server after its dependencies. */
  lemma FinishKeepsInvariant(server: Server, byName: map<string, Server>, st: Visit, after: Visit)
    requires KeyedByName(byName) && server.name in byName
    requires Consistent(st) && server.name !in st.visiting && server.name !in st.visited
    requires Consistent(after) && after.visiting == st.visiting + {server.name} && st.sorted <= after.sorted
    requires (forall d :: d in server.depends ==> d in after.visited) && after.visited <= st.visited + byName.Keys
    requires forall i :: |st.sorted| <= i < |after.sorted| ==>
      after.sorted[i] in byName && DepsListed(byName[after.sorted[i]].depends, after.sorted, i)
    ensures var done := Finish(server.name, after);
      && Consistent(done) && done.visiting == st.visiting && st.sorted <= done.sorted
      && server.name in done.visited && done.visited <= st.visited + byName.Keys
      && forall i :: |st.sorted| <= i < |done.sorted| ==> PushedAfterDeps(byName, server, done.sorted, i)
  {
    var done := Finish(server.name, after);
    assert done.sorted[..|after.sorted|] == after.sorted;
    forall i | |st.sorted| <= i < |after.sorted|
      ensures PushedAfterDeps(byName, server, done.sorted, i)
    {
      DepsListedExtends(byName[after.sorted[i]].depends, after.sorted, done.sorted, i);
    }
    assert DepsListed(server.depends, done.sorted, |after.sorted|);
  }

  /** Searches from `server`: fails on re-entry into a server under way, skips
      a finished one, and otherwise searches every dependency in order and then
      appends the server's own name to `sorted`. */
  function DepthFirstSearch(server: Server, byName: map<string, Server>, st: Visit): (r: Result<Visit, ServerConfigError>)
    requires KeyedByName(byName) && server.name in byName
    requires Consistent(st)
    ensures server.name in st.visiting ==> r == Err(CircularDependency(server.name))
    ensures server.name !in st.visiting && server.name in st.visited ==> r == Ok(st)
    ensures r.Ok? ==> Consistent(r.value) && r.value.visiting == st.visiting && st.sorted <= r.value.sorted
    ensures r.Ok? ==> server.name in r.value.visited && r.value.visited <= st.visited + byName.Keys
    ensures r.Ok? ==> forall i :: |st.sorted| <= i < |r.value.sorted| ==> PushedAfterDeps(byName, server, r.value.sorted, i)
    ensures r.Err? ==> SearchError(byName, server.depends, r.error)
    decreases byName.Keys - st.visiting, 0, 0
  {
    if server.name in st.visiting then Err(CircularDependency(server.name))
    else if server.name in st.visited then Ok(st)
    else
      var inner := Visit(st.visited, st.visiting + {server.name}, st.sorted);
      match VisitDependencies(server.depends, byName, inner)
      case Err(e) => Err(e)
      case Ok(after) =>
        FinishKeepsInvariant(server, byName, st, after);
        Ok(Finish(server.name, after))
  }

  /** Searches from each dependency in `deps` in order; a name with no server
      is an `UndefinedDependency` and ends the search at once. */
  function VisitDependencies(deps: seq<string>, byName: map<string, Server>, st: Visit): (r: Result<Visit, ServerConfigError>)
    requires KeyedByName(byName)
    requires Consistent(st)
    ensures r.Ok? ==> Consistent(r.value) && r.value.visiting == st.visiting && st.sorted <= r.value.sorted
    ensures r.Ok? ==> (forall d :: d in deps ==> d in r.value.visited) && r.value.visited <= st.visited + byName.Keys
    ensures r.Ok? ==> forall i :: |st.sorted| <= i < |r.value.sorted| ==>
      r.value.sorted[i] in byName && DepsListed(byName[r.value.sorted[i]].depends, r.value.sorted, i)
    ensures |deps| > 0 && deps[0] !in byName ==> r == Err(UndefinedDependency(deps[0]))
    ensures r.Err? ==> SearchError(byName, deps, r.error)
    decreases byName.Keys - st.visiting, 1, |deps|
  {
    if |deps| == 0 then Ok(st)
    else if deps[0] !in byName then Err(UndefinedDependency(deps[0]))
    else
      match DepthFirstSearch(byName[deps[0]], byName, st)
      case Err(e) => Err(e)
      case Ok(next) =>
        var rest := VisitDependencies(deps[1..], byName, next);
        if rest.Err? then rest
        else
          assert forall i :: |st.sorted| <= i < |next.sorted| ==>
            next.sorted[i] in byName && DepsListed(byName[next.sorted[i]].depends, rest.value.sorted, i) by {
            forall i | |st.sorted| <= i < |next.sorted|
              ensures next.sorted[i] in byName && DepsListed(byName[next.sorted[i]].depends, rest.value.sorted, i)
            {
              assert PushedAfterDeps(byName, byName[deps[0]], next.sorted, i);
              DepsListedExtends(byName[next.sorted[i]].depends, next.sorted, rest.value.sorted, i);
            }
          }
          assert forall i :: |st.sorted| <= i < |next.sorted| ==> rest.value.sorted[i] == next.sorted[i];
          rest
  }

  // ---------------------------------------------------------------------------
  // Wake-up order
  // ---------------------------------------------------------------------------

  /** Some server named `sorted[k]` has all of its dependencies before
      position `k`. */
  ghost predicate ListedAfterDeps(servers: seq<Server>, sorted: seq<string>, k: int)
    requires 0 <= k < |sorted|
  {
    exists j :: 0 <= j < |servers| && servers[j].name == sorted[k] && DepsListed(servers[j].depends, sorted, k)
  }

  /** The errors the resolver reports about a configuration. */
  ghost predicate GraphError(servers: seq<Server>, e: ServerConfigError)
  {
    || (e.UndefinedDependency? && e.name !in Names(servers)
        && exists j :: 0 <= j < |servers| && e.name in servers[j].depends)
    || (e.CircularDependency? && e.name in Names(servers))
  }

  /** The invariant of the loop over the servers, before server `i`. */
  ghost predicate LoopInvariant(servers: seq<Server>, i: int, byName: map<string, Server>, st: Visit)
  {
    && 0 <= i <= |servers|
    && byName == MapServerNames(servers)
    && Consistent(st)
    && st.visiting == {}
    && (forall j :: 0 <= j < i ==> servers[j].name in st.visited)
    && st.visited <= byName.Keys
    && (forall k :: 0 <= k < |st.sorted| ==> ListedAfterDeps(servers, st.sorted, k))
  }

  lemma ListedAfterDepsExtends(servers: seq<Server>, s: seq<string>, t: seq<string>, k: int)
    requires s <= t && 0 <= k < |s|
    requires ListedAfterDeps(servers, s, k)
    ensures ListedAfterDeps(servers, t, k)
  {
    var j :| 0 <= j < |servers| && servers[j].name == s[k] && DepsListed(servers[j].depends, s, k);
    DepsListedExtends(servers[j].depends, s, t, k);
    assert servers[j].name == t[k];
  }

  /** A name appended by the search from server `i` is listed after the
      dependencies of a server of that name. */
  lemma AppendedListedAfterDeps(servers: seq<Server>, i: int, byName: map<string, Server>, sorted: seq<string>, k: int)
    requires 0 <= i < |servers| && byName == MapServerNames(servers)
    requires 0 <= k < |sorted| && PushedAfterDeps(byName, servers[i], sorted, k)
    ensures ListedAfterDeps(servers, sorted, k)
  {
    if sorted[k] in byName && DepsListed(byName[sorted[k]].depends, sorted, k) {
      assert IsLastNamed(servers, byName[sorted[k]]);
      var j :| 0 <= j < |servers| && servers[j] == byName[sorted[k]] && LastWithName(servers, j);
      assert servers[j].name == sorted[k];
    } else {
      assert servers[i].name == sorted[k];
    }
  }

  /** The elements of a prefix are elements of the whole list. */
  lemma PrefixElements<T>(s: seq<T>, t: seq<T>)
    requires s <= t
    ensures Elements(s) <= Elements(t)
  {
    forall x | x in s ensures x in t {
      var i :| 0 <= i < |s| && s[i] == x;
      assert t[i] == x;
    }
  }

  /** A successful search from server `i` keeps the loop invariant. */
  lemma LoopStep(servers: seq<Server>, i: int, byName: map<string, Server>, st: Visit, next: Visit)
    requires LoopInvariant(servers, i, byName, st) && i < |servers|
    requires DepthFirstSearch(servers[i], byName, st) == Ok(next)
    ensures LoopInvariant(servers, i + 1, byName, next)
  {
    PrefixElements(st.sorted, next.sorted);
    forall k | 0 <= k < |next.sorted|
      ensures ListedAfterDeps(servers, next.sorted, k)
    {
      if k < |st.sorted| {
        ListedAfterDepsExtends(servers, st.sorted, next.sorted, k);
      } else {
        AppendedListedAfterDeps(servers, i, byName, next.sorted, k);
      }
    }
  }

  /** A server already visited is skipped by the loop. */
  lemma LoopSkip(servers: seq<Server>, i: int, byName: map<string, Server>, st: Visit)
    requires LoopInvariant(servers, i, byName, st) && i < |servers|
    requires servers[i].name in st.visited
    ensures LoopInvariant(servers, i + 1, byName, st)
    ensures WakeupLoop(servers, i, byName, st) == WakeupLoop(servers, i + 1, byName, st)
  {
  }

  /** An error of the search from server `i` is an error about the whole
      configuration. */
  lemma SearchErrorIsGraphError(servers: seq<Server>, i: int, byName: map<string, Server>, e: ServerConfigError)
    requires 0 <= i < |servers| && byName == MapServerNames(servers)
    requires SearchError(byName, servers[i].depends, e)
    ensures GraphError(servers, e)
  {
    if e.UndefinedDependency? && e.name !in servers[i].depends {
      var k :| k in byName && e.name in byName[k].depends;
      assert IsLastNamed(servers, byName[k]);
      var j :| 0 <= j < |servers| && servers[j] == byName[k] && LastWithName(servers, j);
      assert e.name in servers[j].depends;
    }
  }

  /** The loop over the servers in input order: a search starts from every
      server that is not yet visited. */
  function WakeupLoop(servers: seq<Server>, i: int, byName: map<string, Server>, st: Visit): (r: Result<Visit, ServerConfigError>)
    requires LoopInvariant(servers, i, byName, st)
    ensures r.Ok? ==> LoopInvariant(servers, |servers|, byName, r.value) && st.sorted <= r.value.sorted
    ensures r.Err? ==> GraphError(servers, r.error)
    decreases |servers| - i
  {
    if i == |servers| then Ok(st)
    else if servers[i].name in st.visited then WakeupLoop(servers, i + 1, byName, st)
    else
      match DepthFirstSearch(servers[i], byName, st)
      case Err(e) =>
        SearchErrorIsGraphError(servers, i, byName, e);
        Err(e)
      case Ok(next) =>
        LoopStep(servers, i, byName, st, next);
        WakeupLoop(servers, i + 1, byName, next)
  }

  /** When the loop is done, every configured name has been listed. */
  lemma LoopEndListsAll(servers: seq<Server>, byName: map<string, Server>, st: Visit)
    requires LoopInvariant(servers, |servers|, byName, st)
    ensures Elements(st.sorted) == Names(servers)
  {
    forall x | x in Names(servers) ensures x in st.visited {
      var j :| 0 <= j < |servers| && servers[j].name == x;
    }
  }

  /** The names in the order their searches finished, before the reversal:
      every name once, each after the dependencies of a server of that name. */
  function WakeupPostOrder(servers: seq<Server>): (r: Result<seq<string>, ServerConfigError>)
    ensures r.Ok? ==> Distinct(r.value) && Elements(r.value) == Names(servers)
    ensures r.Ok? ==> forall k :: 0 <= k < |r.value| ==> ListedAfterDeps(servers, r.value, k)
    ensures r.Err? ==> GraphError(servers, r.error)
  {
    var byName := MapServerNames(servers);
    match WakeupLoop(servers, 0, byName, Unvisited)
    case Err(e) => Err(e)
    case Ok(st) =>
      LoopEndListsAll(servers, byName, st);
      Ok(st.sorted)
  }

  /** The elements of `s` in the opposite order (Rust's `Vec::reverse`). */
  function Reverse<T>(s: seq<T>): (r: seq<T>)
    ensures |r| == |s|
    ensures forall i :: 0 <= i < |s| ==> r[i] == s[|s| - 1 - i]
  {
    if |s| == 0 then [] else Reverse(s[1..]) + [s[0]]
  }

  /** Some server named `order[k]` has all of its dependencies after
      position `k`. */
  ghost predicate ListedBeforeDeps(servers: seq<Server>, order: seq<string>, k: int)
    requires 0 <= k < |order|
  {
    exists j :: 0 <= j < |servers| && servers[j].name == order[k]
      && forall d :: d in servers[j].depends ==> d in order[k + 1..]
  }

  /** Reversing a post-order puts every name before the dependencies it
      was listed after. */
  lemma ReversedPostOrder(servers: seq<Server>, post: seq<string>, order: seq<string>)
    requires |order| == |post|
    requires forall i :: 0 <= i < |post| ==> order[i] == post[|post| - 1 - i]
    requires forall k :: 0 <= k < |post| ==> ListedAfterDeps(servers, post, k)
    ensures forall k :: 0 <= k < |order| ==> ListedBeforeDeps(servers, order, k)
  {
    forall k | 0 <= k < |order|
      ensures ListedBeforeDeps(servers, order, k)
    {
      var p := |post| - 1 - k;
      assert ListedAfterDeps(servers, post, p);
      var j :| 0 <= j < |servers| && servers[j].name == post[p] && DepsListed(servers[j].depends, post, p);
      forall d | d in servers[j].depends
        ensures d in order[k + 1..]
      {
        assert d in post[..p];
        var m :| 0 <= m < p && post[m] == d;
        assert order[|post| - 1 - m] == d;
        assert order[k + 1..][|post| - 1 - m - (k + 1)] == d;
      }
    }
  }

  /** A reversal keeps the elements and their distinctness. */
  lemma ReversedKeepsElements<T>(s: seq<T>, r: seq<T>)
    requires |r| == |s|
    requires forall i :: 0 <= i < |s| ==> r[i] == s[|s| - 1 - i]
    ensures Elements(r) == Elements(s)
    ensures Distinct(s) ==> Distinct(r)
  {
    forall x | x in s ensures x in r {
      var m :| 0 <= m < |s| && s[m] == x;
      assert r[|s| - 1 - m] == x;
    }
    if Distinct(s) {
      forall i, j | 0 <= i < j < |r| ensures r[i] != r[j] {
        assert r[i] == s[|s| - 1 - i] && r[j] == s[|s| - 1 - j];
      }
    }
  }

  /** The wake-up order the resolver returns: the post-order reversed once,
      so that every server comes before the servers it depends on. */
  function DetermineWakeupOrder(servers: seq<Server>): (r: Result<seq<string>, ServerConfigError>)
    ensures r.Ok? <==> WakeupPostOrder(servers).Ok?
    ensures r.Err? ==> r == WakeupPostOrder(servers)
    ensures r.Ok? ==>
      && |r.value| == |WakeupPostOrder(servers).value|
      && forall i :: 0 <= i < |r.value| ==> r.value[i] == WakeupPostOrder(servers).value[|r.value| - 1 - i]
    ensures r.Ok? ==> Distinct(r.value) && Elements(r.value) == Names(servers)
    ensures r.Ok? ==> forall k :: 0 <= k < |r.value| ==> ListedBeforeDeps(servers, r.value, k)
    ensures r.Err? ==> GraphError(servers, r.error)
  {
    match WakeupPostOrder(servers)
    case Err(e) => Err(e)
    case Ok(post) =>
      var order := Reverse(post);
      ReversedPostOrder(servers, post, order);
      ReversedKeepsElements(post, order);
      Ok(order)
  }

  /** The validate-then-sort sequence run on a freshly parsed configuration:
      every check of every server is validated first, and only then is the
      wake-up order computed. */
  function ParseServerDependencies(servers: seq<Server>, isIp: string -> bool): (r: Result<(seq<Server>, seq<string>), ServerConfigError>)
    ensures !AllChecksWellFormed(servers, isIp) ==>
      && r.Err?
      && exists i, j ::
           FirstMalformedServer(servers, isIp, i, j) && r.error == BadHealthCheckDefinition(CheckMessage(servers[i].check[j]))
    ensures r.Err? && r.error.BadHealthCheckDefinition? ==> !AllChecksWellFormed(servers, isIp)
    ensures AllChecksWellFormed(servers, isIp) ==>
      (r.Ok? <==> DetermineWakeupOrder(servers).Ok?)
    ensures AllChecksWellFormed(servers, isIp) && r.Err? ==> r.error == DetermineWakeupOrder(servers).error
    ensures r.Ok? ==> r.value.0 == servers && r.value.1 == DetermineWakeupOrder(servers).value
  {
    match ValidateServers(servers, isIp)
    case Err(e) => Err(e)
    case Ok(_) =>
      match DetermineWakeupOrder(servers)
      case Err(e) => Err(e)
      case Ok(order) => Ok((servers, order))
  }
}
