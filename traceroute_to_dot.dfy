/** The script itself: walk every host's traceroute hops in document order,
    carrying one cursor (the last node visited) across hops and hosts, and
    add one edge per hop to the topology graph. */
module TracerouteToDot {
  import opened NmapScan
  import opened Topology

  /** The traversal state: the graph so far and the cursor `lastaddr`. */
  datatype Walk = Walk(graph: Graph, last: string)

  /** How a run ends: exit status 1 with a hint and no output file when the
      document holds no `trace` at all; an uncaught exception (no output
      file) when a host's `trace` has no `hop`; otherwise `out.dot` is
      written from the final graph and the status is 0. */
  datatype RunResult = NoTraceExit | Aborted | WroteDot(graph: Graph)

  /** Before any host: the graph holds only the root, the cursor is at it. */
  const Start: Walk := Walk(Graph({Scanner}, {}), Scanner)

  /** One hop: a first hop is linked from the root whatever the cursor
      is, any other hop from the cursor, and the cursor moves to the hop's
      node. That this edge is the only one added is `StepHopEdges`. */
  function StepHop(w: Walk, h: Hop): (r: Walk)
    ensures r.last == NodeId(h)
    ensures IsFirstHop(h) ==> (Scanner, NodeId(h)) in r.graph.edges
    ensures !IsFirstHop(h) ==> (w.last, NodeId(h)) in r.graph.edges
  {
    var from := if IsFirstHop(h) then Scanner else w.last;
    Walk(WithEdge(w.graph, from, NodeId(h)), NodeId(h))
  }

  /** The hops of one trace, in order; the cursor ends at the last hop's
      node. The edges added, one per hop, are `WalkHopsEdges`. */
  function WalkHops(w: Walk, hops: seq<Hop>): (r: Walk)
    ensures r.last == if hops == [] then w.last else NodeId(hops[|hops| - 1])
    decreases |hops|
  {
    if hops == [] then w
    else
      var n := |hops| - 1;
      StepHop(WalkHops(w, hops[..n]), hops[n])
  }

  /** A host without a `trace` child is skipped: graph and cursor are kept.
      Otherwise the hops of its first `trace` child are walked. */
  function WalkHost(w: Walk, host: Host): (r: Walk)
    ensures !HasTrace(host) ==> r == w
    ensures var hops := TraceHops(host);
            r.last == if hops == [] then w.last else NodeId(hops[|hops| - 1])
  {
    if HasTrace(host) then WalkHops(w, TraceHops(host)) else w
  }

  /** The hosts in document order, the cursor carried from one to the
      next. Its properties are lemmas: `EdgesOnlyGrow` (no edge is removed),
      `SkippedHostsKeepWalk` (hosts without a `trace` child change nothing,
      so the cursor is never reset) and `WalkHostsIsWalkHops`. */
  function WalkHosts(w: Walk, hosts: seq<Host>): (r: Walk)
    decreases |hosts|
  {
    if hosts == [] then w
    else
      var n := |hosts| - 1;
      assert forall k | 0 <= k < n :: hosts[..n][k] == hosts[k];
      WalkHost(WalkHosts(w, hosts[..n]), hosts[n])
  }

  /** What the script does with a document: with no `trace` anywhere it
      exits before walking; a host whose `trace` has no `hop` aborts the
      run; otherwise the graph written holds the root and every edge the
      walk added. */
  function Run(doc: ScanDocument): (r: RunResult)
    ensures r.NoTraceExit? <==> TraceCount(doc) == 0
    ensures r.Aborted? <==> TraceCount(doc) > 0 && exists i | 0 <= i < |doc.hosts| :: HasEmptyTrace(doc.hosts[i])
  {
    if TraceCount(doc) == 0 then NoTraceExit
    else if exists i | 0 <= i < |doc.hosts| :: HasEmptyTrace(doc.hosts[i]) then Aborted
    else WroteDot(WalkHosts(Start, doc.hosts).graph)
  }

  lemma WalkHopsPrefix(w: Walk, hops: seq<Hop>, j: nat)
    requires j < |hops|
    ensures WalkHops(w, hops[..j + 1]) == StepHop(WalkHops(w, hops[..j]), hops[j])
  {
    assert hops[..j + 1][..j] == hops[..j];
  }

  lemma WalkHostsPrefix(w: Walk, hosts: seq<Host>, i: nat)
    requires i < |hosts|
    ensures WalkHosts(w, hosts[..i + 1]) == WalkHost(WalkHosts(w, hosts[..i]), hosts[i])
  {
    assert hosts[..i + 1][..i] == hosts[..i];
  }

  /** No host before index `i` has a `trace` without a `hop`. */
  ghost predicate NoEmptyTraceBefore(hosts: seq<Host>, i: nat)
    requires i <= |hosts|
  {
    forall k | 0 <= k < i :: !HasEmptyTrace(hosts[k])
  }

  /** The list of child tags names `trace` exactly when the host has a
      `trace` child. */
  lemma TagListShowsTrace(tags: seq<string>, host: Host)
    requires |tags| == |host.children|
    requires forall m | 0 <= m < |tags| :: tags[m] == host.children[m].tag
    ensures TraceTag in tags <==> HasTrace(host)
  {
    if TraceTag in tags {
      var m :| 0 <= m < |tags| && tags[m] == TraceTag;
      assert host.children[m].tag == TraceTag;
    }
  }

  lemma NoEmptyTraceExtends(hosts: seq<Host>, i: nat)
    requires i < |hosts| && NoEmptyTraceBefore(hosts, i) && !HasEmptyTrace(hosts[i])
    ensures NoEmptyTraceBefore(hosts, i + 1)
  {
  }

  /** The loop over one trace's hops: an edge per hop into the graph
      object, the cursor moved to each hop's node in turn. */
  method AddTraceEdges(topology: TopologyGraph, lastaddr: string, hops: seq<Hop>) returns (last: string)
    modifies topology
    ensures Walk(topology.Snapshot(), last) == WalkHops(Walk(old(topology.Snapshot()), lastaddr), hops)
  {
    ghost var before := Walk(topology.Snapshot(), lastaddr);
    last := lastaddr;
    for j := 0 to |hops|
      invariant Walk(topology.Snapshot(), last) == WalkHops(before, hops[..j])
    {
      var nhop := hops[j];
      WalkHopsPrefix(before, hops, j);
      if nhop.ttl == Some("1") {
        topology.AddEdge(Scanner, NodeId(nhop));
      } else {
        topology.AddEdge(last, NodeId(nhop));
      }
      last := NodeId(nhop);
    }
    assert hops[..|hops|] == hops;
  }

  /** The script's main loop, over a graph object updated in place. */
  method ConvertTraceroute(doc: ScanDocument) returns (result: RunResult)
    ensures result == Run(doc)
  {
    var topology := new TopologyGraph();
    var lastaddr := Scanner;
    topology.AddNode(lastaddr);

    if TraceCount(doc) == 0 {
      return NoTraceExit;
    }

    for i := 0 to |doc.hosts|
      invariant Walk(topology.Snapshot(), lastaddr) == WalkHosts(Start, doc.hosts[..i])
      invariant NoEmptyTraceBefore(doc.hosts, i)
    {
      var nmaphost := doc.hosts[i];
      var hosttags: seq<string> := [];
      for k := 0 to |nmaphost.children|
        invariant |hosttags| == k
        invariant forall m | 0 <= m < k :: hosttags[m] == nmaphost.children[m].tag
      {
        hosttags := hosttags + [nmaphost.children[k].tag];
      }

      TagListShowsTrace(hosttags, nmaphost);
      WalkHostsPrefix(Start, doc.hosts, i);
      if TraceTag in hosttags {
        var hops := TraceHops(nmaphost);
        if hops == [] {
          return Aborted;
        }
        lastaddr := AddTraceEdges(topology, lastaddr, hops);
      }
      NoEmptyTraceExtends(doc.hosts, i);
    }
    assert doc.hosts[..|doc.hosts|] == doc.hosts;
    result := WroteDot(topology.Snapshot());
  }
}
