# rallyup core, modelled in Dafny

rallyup wakes a set of servers in dependency order. A YAML file lists the
servers. Each server has a name, a hardware (MAC) address, a network
interface, an optional VLAN, the names of the servers it `depends` on, and
health checks. This project models the two pure parts of the program and
proves properties about them.

- **The configuration resolver** (`src/servers.rs`), in `servers.dfy`:
  - the `HealthCheck`, `Server` and `ServerConfigError` types;
  - the validation of each health check;
  - the name table `map_server_names`;
  - the three-colour depth-first search behind `determine_wakeup_order`;
  - the validate-then-sort sequence of `parse_server_dependencies`.

  The search is two mutually recursive functions, `DepthFirstSearch` and
  `VisitDependencies`. They thread a `Visit` state holding the visited set,
  the visiting set and the post-order list. The loop over the servers is
  `WakeupLoop`. `WakeupPostOrder` is the list the search builds.
  `DetermineWakeupOrder` is that list reversed once, as the code does.
- **The graph reading of the resolver's answer**, in `dependency_graph.dfy`.
  `depends` is treated as a directed graph:
  - a reported `CircularDependency(n)` lies on a real cycle through `n`;
  - a graph whose references are all defined and which has no cycle always
    resolves;
  - with unique server names, the converse holds as well;
  - with unique server names, the post-order lists every dependency before
    its dependent, and the returned order lists every dependent before its
    dependencies.
- **The Wake-on-LAN frame builder** (`src/wol.rs`), in `wol.dfy`:
  - the AMD Magic Packet payload: six 0xFF octets, then sixteen copies of the
    target address;
  - the IEEE 802.1Q tag control information: the VLAN id in the low twelve
    bits, big-endian (clause 9.6 of IEEE 802.1Q);
  - the Ethernet II frame that `build_wol_packet` writes, byte for byte,
    including its order of errors.

  A receiver-side reader, `ParseFrame`, is the partner of the builder. Every
  frame built reads back as broadcast, the interface's address, the masked
  VLAN id and the target address.
- **Worked scenarios**, in `scenarios.dfy`, computed on the model:
  - from rallyup's unit tests: the four-server ring reports
    `CircularDependency("server1")`, the three-server chain resolves, the
    accepted and rejected health checks, and the VLAN 0x0101 tag;
  - a fan-in configuration worked out from the code (server_a depends on
    server_b and server_c, server_b on server_c): it resolves to
    `[server_a, server_b, server_c]`;
  - two configurations with a name given twice, also worked out from the
    code: one resolves although its `depends` lists hold a cycle, the other
    although it refers to a name no server carries.

Things the model takes as inputs:

- IP-address parsing is a predicate parameter `isIp`.
- MAC-address parsing is a partial function parameter `parseMac`.
- The host's interface list is an input sequence `interfaces`.

Points worth stating explicitly:

- **Order direction.** The code pushes each name when its search finishes
  (post-order), so dependencies come first. It then reverses the whole list
  (`src/servers.rs:95-96`; the comment there calls the result the correct
  topological sort). So the returned order puts every server *before* the
  servers it depends on, the reverse of a dependencies-first wake-up order. For the fan-in configuration this gives
  `[server_a, server_b, server_c]` (`Scenarios.FanInOrder`). The model follows
  the code. The "dependencies first" property is proved on the list before
  reversal (`DependencyGraph.PostOrderPutsDependenciesFirst`). The returned
  list gets the reversed property
  (`DependencyGraph.ReturnedOrderPutsDependentsFirst`).
- **Frame size.** The size constants (`src/wol.rs:9-14`) add up to a
  116-octet untagged frame (6 + 6 + 2 + 102) and a 120-octet tagged frame
  (6 + 6 + 2 + 2 + 2 + 102). The payload starts at octet 14 (untagged) or 18
  (tagged) and fills the rest of the frame.
- **Names are not checked for uniqueness.** The name table keeps the last
  server with each name, while the loop goes through the list, not the table,
  and starts a search from each server whose name is not yet visited. A
  repeated name can therefore hide a cycle:
  `[server_b {}, server_a {server_b}, server_b {server_a}]` resolves to
  `[server_a, server_b]` although `depends` holds the cycle server_a,
  server_b, server_a. The first `server_b` finishes first; the search from
  `server_a` then reaches the table's `server_b` only after the name is
  visited, so it returns at once and the edge back to `server_a` is never
  followed (`Scenarios.ShadowedCycleResolves`). A repeated name can also hide
  an undefined reference: `[server_a {server_b}, server_b {server_c},
  server_b {}]` resolves to `[server_a, server_b]` although no server is
  called `server_c`, because the table holds the second `server_b` and the
  loop skips the first one once its name is visited
  (`Scenarios.DanglingReferenceResolves`). This is why the theorems that go
  from a successful resolution to a well-formed graph assume unique names,
  both for the absence of cycles and for every reference being defined.

## Model

| member | source | states |
|---|---|---|
| Servers.ValidateHealthCheck | src/servers.rs:132-168 | An Http or Shell check is rejected iff both `status` and `regex` are absent. A Port check is rejected iff its `ip` is not an IP address. Every other check is accepted. A rejection carries the fixed message for the check's kind. |
| Servers.ValidateChecks | src/servers.rs:180-182 | The checks of one server validate iff every check is well formed. Otherwise the error is the message of the first malformed check. |
| Servers.ValidateServers | src/servers.rs:179-183 | All checks of all servers validate iff every check is well formed. Otherwise the error is the message of the first malformed check, taken server by server. |
| Servers.MapServerNames | src/servers.rs:72-74 | The table's keys are exactly the configured names. Each name maps to a server of that name, and that server is the last one in the list with that name. |
| Servers.DepthFirstSearch | src/servers.rs:100-130 | Re-entering a server still being visited fails with `CircularDependency` naming that server. A server already visited is skipped with the state unchanged. On success the visiting set is unchanged, the visiting and visited sets stay disjoint, each name is listed once, and the server is visited. Every name the search appends is listed after all of that server's dependencies. A failure is either `UndefinedDependency` of a name that is not in the table but is listed by this server or by a server of the table, or `CircularDependency` of a name in the table. |
| Servers.VisitDependencies | src/servers.rs:117-122 | The dependencies are searched in order. A first name with no server fails at once with `UndefinedDependency` naming exactly it, before any later name is searched. On success every dependency is visited, the state invariant holds, and each appended name follows its dependencies. |
| Servers.LoopStep | src/servers.rs:83-93 | A successful search from the next unvisited server keeps the loop invariant. |
| Servers.LoopSkip | src/servers.rs:84 | A server already visited is skipped by the loop and the invariant still holds. |
| Servers.SearchErrorIsGraphError | src/servers.rs:83-93 | An error of one search is an error about the whole configuration: an undefined name that some server lists, or a cycle at a configured name. |
| Servers.WakeupLoop | src/servers.rs:83-93 | The loop over the servers in input order ends with every server visited and the post-order invariant intact, or fails with a configuration error. |
| Servers.WakeupPostOrder | src/servers.rs:76-93 | On success, the list built before the reversal holds every configured name exactly once. Each name is listed after all dependencies of a server with that name. |
| Servers.Reverse | src/servers.rs:96 | Position `i` of the reversal holds position `n-1-i` of the input. |
| Servers.ReversedPostOrder | src/servers.rs:95-97 | Reversing a post-order yields a list where each name comes before all dependencies of a server with that name. |
| Servers.ReversedKeepsElements | src/servers.rs:96 | A reversal keeps the elements and their distinctness. |
| Servers.DetermineWakeupOrder | src/servers.rs:76-98 | It succeeds exactly when the post-order does, and returns that list reversed. The result holds each configured name once, and each name comes before all dependencies of a server with that name. An error is `UndefinedDependency` of a name some server lists but no server has, or `CircularDependency` of a configured name. |
| Servers.ParseServerDependencies | src/servers.rs:179-189 | A malformed check is reported before the graph is looked at, as `BadHealthCheckDefinition` with the message of the first malformed check taken server by server, and that error arises only from a malformed check. When every check is well formed the result is the resolver's result. On success the servers are returned unchanged together with the wake-up order. |
| DependencyGraph.CircularDependencyIsCycle | src/servers.rs:107-109 | A reported `CircularDependency(n)` means a walk of at least one `depends` edge leads from `n` back to `n`. |
| DependencyGraph.FailureMeansMalformedGraph | src/servers.rs:76-130 | A failed resolution means some reference is undefined or the graph has a cycle. Equivalently, a graph with all references defined and no cycle always resolves. |
| DependencyGraph.ResolvedMeansWellFormed | src/servers.rs:76-130 | With unique names, a successful resolution means every reference is defined and the graph is acyclic. |
| DependencyGraph.ResolvesIffWellFormed | src/servers.rs:76-130 | With unique names, the resolver succeeds iff all references are defined and the graph is acyclic. |
| DependencyGraph.PostOrderPutsDependenciesFirst | src/servers.rs:117-127 | With unique names, in the list before reversal every dependency `d` of a server `s` comes before `s`. |
| DependencyGraph.ReturnedOrderPutsDependentsFirst | src/servers.rs:95-97 | With unique names, in the returned order every server comes before each of its dependencies. |
| Wol.CreateWolPayload | src/wol.rs:50-57 | The payload is a magic packet for the address: 102 octets, six 0xFF, then the address, then octets that repeat the one six places before. |
| Wol.MagicPacketBlocks | src/wol.rs:50-57 | Each of the sixteen six-octet blocks of a magic packet is the target address. |
| Wol.MagicPacketIsRepeat | src/wol.rs:51-55 | A payload is the magic packet for `mac` iff it is six 0xFF octets followed by sixteen copies of `mac`. |
| Wol.MagicTarget | src/wol.rs:50-57 | The reader recognises exactly the magic packets and recovers the one address a magic packet wakes. |
| Wol.VlanToBytes | src/wol.rs:59-63 | The tag is two octets, big-endian, of `vlan & 0x0FFF`. The top four bits are zero. An id above 4095 is truncated, not rejected. An id of at most 4095 is kept as it is. |
| Wol.TagVlanId | src/wol.rs:59-63 | A tag read back gives an id of at most twelve bits. |
| Wol.VlanTagRoundTrip | src/wol.rs:59-63 | Reading back the tag written for `vlan` gives `vlan & 0x0FFF`. |
| Wol.FindInterface | src/wol.rs:76-79 | The lookup returns the first interface with the given name, and finds one iff some interface has that name. |
| Wol.WriteAt | src/wol.rs:108 | A slice copy puts the source octets at the offset and changes nothing else. |
| Wol.EtherTypeBytes | src/wol.rs:105 | An EtherType is written as its two big-endian octets. |
| Wol.ParseFrame | src/wol.rs:36-47 | A frame read back is 116 or 120 octets long. Its destination and source are octets 0..6 and 6..12, and a VLAN id read from a tag has at most twelve bits. |
| Wol.FrameRoundTrip | src/wol.rs:87-120 | A frame laid out for a source, a target and an optional VLAN reads back as broadcast, that source, the VLAN id cut to twelve bits, and that target. |
| Wol.BuildWolPacket | src/wol.rs:65-123 | Errors come in a fixed order. An unparseable address gives `InvalidMAC` before any interface lookup. Next, an unknown interface name gives `InterfaceNotFound`. Next, an interface without an address gives `NetworkError`. It succeeds iff none of these applies, and then it returns the first interface of that name. The untagged frame is 116 octets: broadcast, the interface's address, 0x08 0x42, then the magic packet. The tagged frame is 120 octets: broadcast, the interface's address, 0x81 0x00, the masked tag, 0x08 0x42, then the magic packet. The frame reads back as what it was built for. |
| Scenarios.RingOrder | src/servers.rs:196-242 | The ring server1 → server2 → server3 → server4 → server1 fails with `CircularDependency("server1")`. |
| Scenarios.ChainOrder | src/servers.rs:244-280 | The chain server1 → server2 → server3 resolves, to `[server1, server2, server3]`. |
| Scenarios.FanInPostOrder | src/servers.rs:117-127 | For server_a → {server_b, server_c} and server_b → server_c, the searches finish in the order server_c, server_b, server_a. |
| Scenarios.FanInOrder | src/servers.rs:95-97 | The same configuration resolves to `[server_a, server_b, server_c]`. |
| Scenarios.ShadowedCycleResolves | src/servers.rs:72-98 | With server_b given twice, `[server_b {}, server_a {server_b}, server_b {server_a}]` has repeated names and a cycle in `depends`, yet resolves. |
| Scenarios.ShadowedOrder | src/servers.rs:76-98 | That configuration resolves to `[server_a, server_b]`: the search reaches the table's `server_b` only after the first `server_b` is visited, so it returns at once and its edge back to `server_a` is never followed. |
| Scenarios.DanglingReferenceResolves | src/servers.rs:72-98 | `[server_a {server_b}, server_b {server_c}, server_b {}]` has repeated names and a reference to `server_c`, which no server carries, yet resolves. |
| Scenarios.DanglingOrder | src/servers.rs:76-98 | That configuration resolves to `[server_a, server_b]`: the search from `server_a` uses the table's dependency-free `server_b`, and the loop skips the first `server_b` because its name is then visited. |
| Scenarios.HttpCheckWithoutCriteria | src/servers.rs:282-301 | An HTTP check with neither status nor pattern is rejected with the HTTP message. |
| Scenarios.ShellCheckWithoutCriteria | src/servers.rs:303-323 | A shell check with neither return code nor pattern is rejected with the shell message. |
| Scenarios.PortCheckOnBadAddress | src/servers.rs:325-346 | A port check on `invalid_ip` is rejected with the port message. |
| Scenarios.WellFormedChecks | src/servers.rs:348-375 | An HTTP check with a status, a port check on an IP address and a shell check with a pattern are each accepted. |
| Scenarios.VlanTagExample | src/wol.rs:209-243 | VLAN 0x0101 is tagged as the octets 0x01 0x01. |

## Left out

- `send_wol_packet` (`src/wol.rs:125-147`) is left out. Opening a datalink channel and transmitting are network I/O.
- `datalink::interfaces()` is not modelled: the interface list is the input `interfaces`.
- `MacAddr::parse` is not modelled: it is the parameter `parseMac`, a partial function on strings.
- `IpAddr::parse` is not modelled: it is the predicate parameter `isIp`.
- The file read and the YAML deserialisation in `parse_server_dependencies` (`src/servers.rs:173-177`) are left out. They are file I/O and a foreign parser. `ParseServerDependencies` starts from the parsed server list. The `ParseError` variant is kept in the error type, but nothing in the model produces it.
- Regular expressions and retry durations are reduced. A regex is kept only as present or absent (its pattern text). A `humantime` duration is a natural number of nanoseconds, with the ten-second default as a constant. Compiling and matching patterns is foreign code.
- The `WOLPacketError` branch of `build_wol_packet` (`src/wol.rs:90-91`) is not modelled as a branch. `MutableEthernetPacket::new` fails only on a buffer shorter than an Ethernet header, and the buffer here is always 116 or 120 octets. The variant stays in `WolError`.
- Wol.BuildWolPacket: the `NetworkError` it returns carries only the message text, not an `std::io::Error` of kind `Other`.
- `src/main.rs` is a driver with a fixed path and printing; it is not part of this model.
- The health-check polling engine and the orchestrator that wakes servers concurrently are not part of this model.
