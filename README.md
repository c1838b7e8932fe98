# nmap traceroute XML to a topology graph

A Dafny model of `nmapxmltraceroutetodot.py`. The script reads nmap's XML
output and walks every `host` element in document order. For each host
that has a `trace` child, it walks that trace's `hop` elements and adds
one edge per hop to a graph rooted at a node called `scanner`. The graph
is then written to `out.dot`.

The walk carries a single cursor, `lastaddr`, across hops and across
hosts:

- A hop's node identity is its `ipaddr`. When its `host` attribute is
  present and non-empty, the identity is `ipaddr + "_" + host`.
- A hop whose `ttl` attribute is the string `"1"` gets the edge
  `("scanner", identity)`. Any other hop gets `(lastaddr, identity)`.
- After every hop, the cursor moves to that hop's identity.
- A host without an immediate `trace` child is skipped, and the cursor is
  kept. The cursor starts at `scanner`.
- If the document holds no `trace` element anywhere, the script prints a
  hint and exits with status 1 before the loop.

## Files

- `nmap_scan.dfy` (module `NmapScan`): the parsed document and node
  identity. `Hop`, `HostChild`, `Host` and `ScanDocument` describe the
  parsed input. `NodeId` gives a hop's node identity. `IsFirstHop` is the
  ttl test. There are two separate trace tests. `HasTrace` is the
  per-host test: is some immediate child tagged `trace`? `TraceCount` is
  the document-wide test: how many `trace` elements are there at any
  depth?
- `topology.dfy` (module `Topology`): the graph as a value (`Graph`, with
  `WithNode` and `WithEdge`). `TopologyGraph` is the object the script
  mutates in place. Its `AddNode` and `AddEdge` mirror the graph library's
  calls, and adding an edge also adds both of its endpoints as nodes.
- `traceroute_to_dot.dfy` (module `TracerouteToDot`): the specification
  of the walk, a fold over hosts and hops (`StepHop`, `WalkHops`,
  `WalkHost`, `WalkHosts`, `Run`). It also holds the imperative
  `ConvertTraceroute`, whose nested loops follow lines 16–48 and which is
  proved equal to `Run`; its loop over one trace's hops is the method
  `AddTraceEdges`. The walk starts from `Start`: the graph holding only
  `scanner`, with the cursor at it (lines 16–17).
- `trace_properties.dfy` (modules `TraceProperties` and `TraceExamples`):
  the properties of the walk and a few concrete runs.

A few things the code does are easy to misread:

- The ttl test is string equality with `'1'`, not a numeric comparison.
  A missing ttl, or `"01"`, is not a first hop.
- A `host` attribute that is present but empty counts as absent, because
  the code tests its truthiness.
- The early exit looks for a `trace` element anywhere in the document
  (`.//trace`), not only under a host. A `trace` nested deeper inside a
  host passes the exit check, but that host is still skipped
  (`NestedTraceWritesOnlyTheRoot`).
- The graph is built with the library defaults. The code does not ask for
  a directed graph.
- A `trace` with no `hop` makes the script raise an exception. This is
  modelled as the outcome `Aborted`.

## Model

| member | source | states |
|---|---|---|
| `NmapScan.NodeId` | nmapxmltraceroutetodot.py:45-48 | the identity starts with `ipaddr`; it is longer than `ipaddr` exactly when `host` is present and non-empty, and then continues with `_` followed by the host name |
| `NmapScan.NodeIdCollapsesExactly` | nmapxmltraceroutetodot.py:34-38 | when addresses contain no `_`, two hops share a node iff they have the same address and the same effective name (missing and empty names are the same) |
| `NmapScan.FirstTraceHops` | nmapxmltraceroutetodot.py:31 | the result is present iff some immediate child is tagged `trace`, and then it holds the hops of the first such child |
| `NmapScan.HasTrace` | nmapxmltraceroutetodot.py:25-30 | a host passes the per-host test exactly when the lookup of its first `trace` child succeeds |
| `NmapScan.TraceHops` | nmapxmltraceroutetodot.py:31 | the hops walked for a host are those of its first immediate `trace` child; a host without one has none. A `trace` with no `hop` gives no hops, and `HasEmptyTrace` names that case, which `Run` turns into `Aborted` |
| `NmapScan.TraceCount` | nmapxmltraceroutetodot.py:19-30 | the document-wide `trace` count includes every `trace` outside the hosts, and it is positive whenever some host has an immediate `trace` child |
| `NmapScan.ChildrenTraceCountZero` | nmapxmltraceroutetodot.py:19 | a host's children contribute no `trace` exactly when none of them is a `trace` and none holds one deeper down |
| `NmapScan.HostsTraceCountZero` | nmapxmltraceroutetodot.py:19 | the hosts contribute no `trace` exactly when no child of any host is or holds a `trace` |
| `NmapScan.TraceCountZero` | nmapxmltraceroutetodot.py:19 | the document-wide `.//trace` count is zero exactly when there is no `trace` outside the hosts, as a host child, or nested deeper inside a host |
| `NmapScan.NestedTraceIsNotAHostTrace` | nmapxmltraceroutetodot.py:19-30 | the converse fails: a `trace` nested below another child is counted by the document-wide check, but its host has no `trace` child |
| `Topology.WithNode` | nmapxmltraceroutetodot.py:17 | adding a node adds exactly that node and no edge; adding a present node changes nothing |
| `Topology.WithEdge` | nmapxmltraceroutetodot.py:36-44 | adding an edge adds exactly that edge and its two endpoints as nodes; adding a present edge changes nothing |
| `Topology.WithEdgeKeepsRooted` | nmapxmltraceroutetodot.py:36-44 | if every node is the root or an edge endpoint, this still holds after an edge is added |
| `Topology.TopologyGraph.constructor` | nmapxmltraceroutetodot.py:14 | the new graph has no nodes and no edges |
| `Topology.TopologyGraph.AddNode` | nmapxmltraceroutetodot.py:17 | the graph object's new value is `WithNode` of its old value |
| `Topology.TopologyGraph.AddEdge` | nmapxmltraceroutetodot.py:36-44 | the graph object's new value is `WithEdge` of its old value |
| `TracerouteToDot.StepHop` | nmapxmltraceroutetodot.py:32-48 | one hop moves the cursor to the hop's node; a hop that `IsFirstHop` (ttl exactly `"1"`) adds the edge from `scanner`, any other hop the edge from the incoming cursor |
| `TracerouteToDot.WalkHops` | nmapxmltraceroutetodot.py:31-48 | after walking hops, the cursor is the last hop's node, or is unchanged when there are no hops |
| `TracerouteToDot.WalkHost` | nmapxmltraceroutetodot.py:25-48 | a host without an immediate `trace` child leaves graph and cursor unchanged; otherwise the cursor ends at the node of its trace's last hop |
| `TracerouteToDot.Run` | nmapxmltraceroutetodot.py:16-50 | the run exits with status 1 exactly when the document holds no `trace`; it aborts exactly when there is a `trace` and some host's `trace` has no `hop`; otherwise it writes the graph |
| `TracerouteToDot.TagListShowsTrace` | nmapxmltraceroutetodot.py:25-30 | the list of a host's child tags contains `"trace"` exactly when the host has a `trace` child |
| `TracerouteToDot.AddTraceEdges` | nmapxmltraceroutetodot.py:31-48 | the loop over one trace's hops leaves the graph object and the cursor exactly as `WalkHops` does |
| `TracerouteToDot.ConvertTraceroute` | nmapxmltraceroutetodot.py:16-48 | the loops over hosts, child tags and hops, using an in-place graph and the `lastaddr` variable, end with exactly the outcome `Run` gives: exit for no trace, abort on an empty trace, or the walked graph |
| `TraceProperties.WalkHostsIsWalkHops` | nmapxmltraceroutetodot.py:23-31 | walking host by host is the same as walking the concatenated hops of the hosts with a trace, so the cursor carries from one host to the next |
| `TraceProperties.WalkHopsEdges` | nmapxmltraceroutetodot.py:31-48 | walking hops adds exactly one edge per hop, from `scanner` for ttl `"1"`, otherwise from the previous hop's node (or the incoming cursor for the first hop) |
| `TraceProperties.WalkHopsKeepsRooted` | nmapxmltraceroutetodot.py:36-44 | walking hops keeps every node the root or an edge endpoint |
| `TraceProperties.RunBuildsHopEdges` | nmapxmltraceroutetodot.py:16-48 | the written graph's edges are exactly one per processed hop, with the cursor starting at `scanner`; its nodes are `scanner` and the edges' endpoints |
| `TraceProperties.EveryHopAddsItsEdge` | nmapxmltraceroutetodot.py:32-44 | a ttl `"1"` hop is linked from `scanner` whatever the cursor is; any other hop is linked from the previous processed hop's node, or from `scanner` when it is the very first hop |
| `TraceProperties.EveryEdgeComesFromAHop` | nmapxmltraceroutetodot.py:31-48 | every edge's target is some processed hop's node, and its source is `scanner` or the node of the hop processed just before it |
| `TraceProperties.EveryNodeIsRootOrHop` | nmapxmltraceroutetodot.py:16-44 | every node of the written graph is `scanner` or some processed hop's node |
| `TraceProperties.CursorIsLastProcessedHop` | nmapxmltraceroutetodot.py:45-48 | after any hosts, the cursor is the last processed hop's node, or its starting value when no hop was processed |
| `TraceProperties.SkippedHostsKeepWalk` | nmapxmltraceroutetodot.py:25-30 | hosts without a `trace` child leave both the graph and the cursor unchanged; the cursor is not reset |
| `TraceProperties.EdgesOnlyGrow` | nmapxmltraceroutetodot.py:36-44 | walking more hosts never removes an edge |
| `TraceProperties.PrefixEdgesKept` | nmapxmltraceroutetodot.py:23-44 | for `j <= k`, every edge present after the first `j` hosts is still present after the first `k` |
| `TraceProperties.LeadingHopLinksFromCursor` | nmapxmltraceroutetodot.py:39-44 | a leading hop whose ttl is not `"1"` is linked from the incoming cursor |
| `TraceProperties.CursorCarriesAcrossHosts` | nmapxmltraceroutetodot.py:23-44 | when a host's first hop has a ttl other than `"1"`, it is linked from wherever the earlier hosts left the cursor, even across skipped hosts |
| `TraceProperties.NoTraceExitIffNoTrace` | nmapxmltraceroutetodot.py:19-21 | the run takes the status-1 exit exactly when the document holds no `trace` element at any depth |
| `TraceProperties.NoTraceStopsBeforeAnyEdge` | nmapxmltraceroutetodot.py:19-21 | with no `trace` anywhere, the run is the status-1 exit, and no host would have had hops to walk |
| `TraceExamples.SharedFirstHopCollapses` | nmapxmltraceroutetodot.py:32-48 | two hosts that share a first hop give one node for it and edges scanner→A, A→B, A→C; an empty `host` counts as absent |
| `TraceExamples.SkippedHostKeepsCursor` | nmapxmltraceroutetodot.py:23-48 | a host without a trace between two traced hosts leaves the cursor in place, so the later ttl-2 hop is linked from the earlier host's last hop |
| `TraceExamples.UntracedDocumentExits` | nmapxmltraceroutetodot.py:19-21 | a document whose only host has no `trace` at any depth takes the status-1 exit |
| `TraceExamples.OutsideTraceWritesOnlyTheRoot` | nmapxmltraceroutetodot.py:19-30 | a `trace` outside every host passes the exit check, and the graph written holds only `scanner` |
| `TraceExamples.NestedTraceWritesOnlyTheRoot` | nmapxmltraceroutetodot.py:19-30 | a document whose only `trace` is nested deeper passes the exit check but writes a graph that holds only `scanner` |

## Left out

- Loading and navigating the XML (`lxml.objectify.parse`, `findall`,
  `getchildren`, attribute lookup). The model takes an already-parsed
  `ScanDocument`. Hosts are listed flat in document order. A `trace` that
  is not an immediate host child is counted but its position is not kept.
- A hop without an `ipaddr` attribute, which makes the script raise. In
  the model, `Hop.ipaddr` is always present.
- Writing `out.dot` and the DOT text. A `Graph` value stands for what is
  written. The library's default directedness and strictness are not
  modelled, so edges are the ordered pairs passed to `add_edge`.
  Whether `(u, v)` and `(v, u)` end up as one edge in the file is not
  modelled.
- The command-line argument and the printed hint. `NoTraceExit` stands
  for "print the hint and exit with status 1".
- `Aborted` does not carry the exception's type or message.
- The commented-out layout and drawing calls at the end of the script.
