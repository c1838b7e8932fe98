/** What the traversal guarantees: one edge per processed hop, whose source
    is the root for a first hop and otherwise the node of the hop processed
    just before it (in this host or an earlier one); the cursor after a run;
    skipped hosts; and the early exit. */
module TraceProperties {
  import opened NmapScan
  import opened Topology
  import opened TracerouteToDot

  /** The hops the script walks, in order: the `trace` hops of every host
      that has a `trace` child, host after host. */
  ghost function ProcessedHops(hosts: seq<Host>): seq<Hop>
    decreases |hosts|
  {
    if hosts == [] then []
    else ProcessedHops(hosts[..|hosts| - 1]) + TraceHops(hosts[|hosts| - 1])
  }

  /** The source of the edge added for hop `i` when the cursor starts at
      `start`: the root for a first hop, otherwise the node of hop `i - 1`
      (or `start` for hop 0). */
  ghost function HopSource(start: string, hops: seq<Hop>, i: int): string
    requires 0 <= i < |hops|
  {
    if IsFirstHop(hops[i]) then Scanner
    else if i == 0 then start
    else NodeId(hops[i - 1])
  }

  /** One edge per hop, from its source to its node. */
  ghost function HopEdges(start: string, hops: seq<Hop>): set<(string, string)> {
    set i | 0 <= i < |hops| :: (HopSource(start, hops, i), NodeId(hops[i]))
  }

  lemma {:induction false} WalkHopsAppend(w: Walk, a: seq<Hop>, b: seq<Hop>)
    ensures WalkHops(w, a + b) == WalkHops(WalkHops(w, a), b)
    decreases |b|
  {
    if b == [] {
      assert a + b == a;
    } else {
      assert (a + b)[..|a + b| - 1] == a + b[..|b| - 1];
      assert (a + b)[|a + b| - 1] == b[|b| - 1];
      WalkHopsAppend(w, a, b[..|b| - 1]);
    }
  }

  /** Walking host by host is walking the processed hops in one go: the
      cursor is carried from one host's trace to the next. */
  lemma {:induction false} WalkHostsIsWalkHops(w: Walk, hosts: seq<Host>)
    ensures WalkHosts(w, hosts) == WalkHops(w, ProcessedHops(hosts))
    decreases |hosts|
  {
    if hosts != [] {
      var init := hosts[..|hosts| - 1];
      WalkHostsIsWalkHops(w, init);
      WalkHopsAppend(w, ProcessedHops(init), TraceHops(hosts[|hosts| - 1]));
    }
  }

  /** The edges of a longer hop sequence: those of its prefix plus the
      edge of its last hop. */
  lemma {:induction false} HopEdgesSnoc(start: string, hops: seq<Hop>)
    requires hops != []
    ensures var n := |hops| - 1;
            HopEdges(start, hops) == HopEdges(start, hops[..n]) + {(HopSource(start, hops, n), NodeId(hops[n]))}
  {
    var n := |hops| - 1;
    var init := hops[..n];
    var last := (HopSource(start, hops, n), NodeId(hops[n]));
    forall e | e in HopEdges(start, hops) ensures e in HopEdges(start, init) + {last} {
      var i :| 0 <= i < |hops| && e == (HopSource(start, hops, i), NodeId(hops[i]));
      if i < n {
        assert e == (HopSource(start, init, i), NodeId(init[i]));
      }
    }
    forall e | e in HopEdges(start, init) ensures e in HopEdges(start, hops) {
      var i :| 0 <= i < |init| && e == (HopSource(start, init, i), NodeId(init[i]));
      assert e == (HopSource(start, hops, i), NodeId(hops[i]));
    }
  }

  /** `StepHop`'s edges in closed form; a proof step, not a property. */
  lemma StepHopEdges(w: Walk, h: Hop)
    ensures StepHop(w, h).graph.edges == w.graph.edges + {(if IsFirstHop(h) then Scanner else w.last, NodeId(h))}
  {
  }

  /** The last hop adds the edge from its `HopSource`. */
  lemma WalkHopsLastEdge(w: Walk, hops: seq<Hop>)
    requires hops != []
    ensures var n := |hops| - 1;
            WalkHops(w, hops).graph.edges ==
            WalkHops(w, hops[..n]).graph.edges + {(HopSource(w.last, hops, n), NodeId(hops[n]))}
  {
    var n := |hops| - 1;
    var mid := WalkHops(w, hops[..n]);
    assert HopSource(w.last, hops, n) == if IsFirstHop(hops[n]) then Scanner else mid.last by {
      if n > 0 {
        assert hops[..n][n - 1] == hops[n - 1];
      }
    }
    StepHopEdges(mid, hops[n]);
  }

  /** Walking hops adds exactly one edge per hop, from `HopSource` to the
      hop's node. */
  lemma {:induction false} WalkHopsEdges(w: Walk, hops: seq<Hop>)
    ensures WalkHops(w, hops).graph.edges == w.graph.edges + HopEdges(w.last, hops)
    decreases |hops|
  {
    if hops == [] {
      assert HopEdges(w.last, hops) == {};
    } else {
      var n := |hops| - 1;
      WalkHopsEdges(w, hops[..n]);
      WalkHopsLastEdge(w, hops);
      HopEdgesSnoc(w.last, hops);
    }
  }

  /** Walking hops keeps every node the root or an edge endpoint. */
  lemma {:induction false} WalkHopsKeepsRooted(w: Walk, hops: seq<Hop>)
    requires RootedAt(w.graph, Scanner)
    ensures RootedAt(WalkHops(w, hops).graph, Scanner)
    decreases |hops|
  {
    if hops != [] {
      var n := |hops| - 1;
      WalkHopsKeepsRooted(w, hops[..n]);
      var mid := WalkHops(w, hops[..n]);
      WithEdgeKeepsRooted(mid.graph, Scanner, if IsFirstHop(hops[n]) then Scanner else mid.last, NodeId(hops[n]));
    }
  }

  /** The graph written for a document: one edge per processed hop, whose
      source is chosen by `HopSource` with the cursor starting at the root;
      its nodes are the root and the edges' endpoints. */
  lemma {:induction false} RunBuildsHopEdges(doc: ScanDocument)
    requires Run(doc).WroteDot?
    ensures Run(doc).graph.edges == HopEdges(Scanner, ProcessedHops(doc.hosts))
    ensures RootedAt(Run(doc).graph, Scanner)
  {
    assert Endpoints(Start.graph.edges) == {};
    WalkHostsIsWalkHops(Start, doc.hosts);
    WalkHopsEdges(Start, ProcessedHops(doc.hosts));
    WalkHopsKeepsRooted(Start, ProcessedHops(doc.hosts));
  }

  /** Every processed hop contributes its edge: from the root when its ttl
      is "1" whatever the cursor is, otherwise from the node of the hop
      processed just before it, or from the root for the very first one. */
  lemma {:induction false} EveryHopAddsItsEdge(doc: ScanDocument, i: nat)
    requires Run(doc).WroteDot? && i < |ProcessedHops(doc.hosts)|
    ensures var hops := ProcessedHops(doc.hosts);
            (IsFirstHop(hops[i]) ==> (Scanner, NodeId(hops[i])) in Run(doc).graph.edges) &&
            (!IsFirstHop(hops[i]) && i == 0 ==> (Scanner, NodeId(hops[i])) in Run(doc).graph.edges) &&
            (!IsFirstHop(hops[i]) && i > 0 ==> (NodeId(hops[i - 1]), NodeId(hops[i])) in Run(doc).graph.edges)
  {
    var hops := ProcessedHops(doc.hosts);
    RunBuildsHopEdges(doc);
    assert (HopSource(Scanner, hops, i), NodeId(hops[i])) in HopEdges(Scanner, hops);
  }

  /** Conversely, every edge comes from some processed hop: its target is
      that hop's node, its source the root or the previous hop's node. */
  lemma {:induction false} EveryEdgeComesFromAHop(doc: ScanDocument, e: (string, string))
    requires Run(doc).WroteDot? && e in Run(doc).graph.edges
    ensures var hops := ProcessedHops(doc.hosts);
            exists i | 0 <= i < |hops| ::
              e.1 == NodeId(hops[i]) && (e.0 == Scanner || (i > 0 && e.0 == NodeId(hops[i - 1])))
  {
    var hops := ProcessedHops(doc.hosts);
    RunBuildsHopEdges(doc);
    var i :| 0 <= i < |hops| && e == (HopSource(Scanner, hops, i), NodeId(hops[i]));
    assert e.1 == NodeId(hops[i]) && (e.0 == Scanner || (i > 0 && e.0 == NodeId(hops[i - 1])));
  }

  /** Every node of the written graph is the root or the node of a
      processed hop. */
  lemma {:induction false} EveryNodeIsRootOrHop(doc: ScanDocument, n: string)
    requires Run(doc).WroteDot? && n in Run(doc).graph.nodes
    ensures var hops := ProcessedHops(doc.hosts);
            n == Scanner || exists i | 0 <= i < |hops| :: n == NodeId(hops[i])
  {
    RunBuildsHopEdges(doc);
    if n != Scanner {
      var g := Run(doc).graph;
      var e :| e in g.edges && (n == e.0 || n == e.1);
      EveryEdgeComesFromAHop(doc, e);
    }
  }

  /** The cursor after any sequence of hosts is the node of the last hop
      processed, or where it started when no hop was processed. */
  lemma {:induction false} CursorIsLastProcessedHop(w: Walk, hosts: seq<Host>)
    ensures var hops := ProcessedHops(hosts);
            WalkHosts(w, hosts).last == if hops == [] then w.last else NodeId(hops[|hops| - 1])
  {
    WalkHostsIsWalkHops(w, hosts);
  }

  /** Hosts without a `trace` child leave the graph and the cursor as they
      were: the cursor is not reset to the root between hosts. */
  lemma {:induction false} SkippedHostsKeepWalk(w: Walk, hosts: seq<Host>)
    requires forall k | 0 <= k < |hosts| :: !HasTrace(hosts[k])
    ensures WalkHosts(w, hosts) == w
    decreases |hosts|
  {
    if hosts != [] {
      SkippedHostsKeepWalk(w, hosts[..|hosts| - 1]);
    }
  }

  lemma {:induction false} WalkHostsAppend(w: Walk, a: seq<Host>, b: seq<Host>)
    ensures WalkHosts(w, a + b) == WalkHosts(WalkHosts(w, a), b)
    decreases |b|
  {
    if b == [] {
      assert a + b == a;
    } else {
      assert (a + b)[..|a + b| - 1] == a + b[..|b| - 1];
      assert (a + b)[|a + b| - 1] == b[|b| - 1];
      WalkHostsAppend(w, a, b[..|b| - 1]);
    }
  }

  /** Edges are only ever added. */
  lemma {:induction false} EdgesOnlyGrow(w: Walk, hosts: seq<Host>)
    ensures w.graph.edges <= WalkHosts(w, hosts).graph.edges
  {
    WalkHostsIsWalkHops(w, hosts);
    WalkHopsEdges(w, ProcessedHops(hosts));
  }

  /** A leading hop whose ttl is not "1" is linked from the cursor. */
  lemma {:induction false} LeadingHopLinksFromCursor(w: Walk, hops: seq<Hop>)
    requires hops != [] && !IsFirstHop(hops[0])
    ensures (w.last, NodeId(hops[0])) in WalkHops(w, hops).graph.edges
  {
    WalkHopsEdges(w, hops);
    assert (HopSource(w.last, hops, 0), NodeId(hops[0])) in HopEdges(w.last, hops);
  }

  /** One host never removes an edge. */
  lemma WalkHostKeepsEdges(w: Walk, host: Host)
    ensures w.graph.edges <= WalkHost(w, host).graph.edges
  {
    if HasTrace(host) {
      WalkHopsEdges(w, TraceHops(host));
    }
  }

  lemma NextHostKeepsEdges(w: Walk, hosts: seq<Host>, i: nat)
    requires i < |hosts|
    ensures WalkHosts(w, hosts[..i]).graph.edges <= WalkHosts(w, hosts[..i + 1]).graph.edges
  {
    WalkHostsPrefix(w, hosts, i);
    WalkHostKeepsEdges(WalkHosts(w, hosts[..i]), hosts[i]);
  }

  /** Walking more of the hosts never removes an edge: the edges after the
      first `j` hosts are kept after the first `k`. */
  lemma {:induction false} PrefixEdgesKept(w: Walk, hosts: seq<Host>, j: nat, k: nat)
    requires j <= k <= |hosts|
    ensures WalkHosts(w, hosts[..j]).graph.edges <= WalkHosts(w, hosts[..k]).graph.edges
    decreases k - j
  {
    if j < k {
      PrefixEdgesKept(w, hosts, j, k - 1);
      NextHostKeepsEdges(w, hosts, k - 1);
    }
  }

  /** A host whose first hop does not have ttl "1" is linked from wherever
      the cursor was left by the hosts before it, possibly another host's
      last hop, across any hosts skipped in between. */
  lemma {:induction false} CursorCarriesAcrossHosts(w: Walk, hosts: seq<Host>, k: nat)
    requires k < |hosts| && HasTrace(hosts[k])
    requires TraceHops(hosts[k]) != [] && !IsFirstHop(TraceHops(hosts[k])[0])
    ensures (WalkHosts(w, hosts[..k]).last, NodeId(TraceHops(hosts[k])[0])) in WalkHosts(w, hosts).graph.edges
  {
    WalkHostsPrefix(w, hosts, k);
    LeadingHopLinksFromCursor(WalkHosts(w, hosts[..k]), TraceHops(hosts[k]));
    PrefixEdgesKept(w, hosts, k + 1, |hosts|);
    assert hosts[..|hosts|] == hosts;
  }

  /** Without any `trace` element the run stops with status 1 before any
      edge is added; no host would have contributed an edge anyway. */
  lemma {:induction false} NoTraceStopsBeforeAnyEdge(doc: ScanDocument)
    requires TraceCount(doc) == 0
    ensures Run(doc) == NoTraceExit
    ensures ProcessedHops(doc.hosts) == []
  {
    NoHostTraceNoHops(doc.hosts);
  }

  /** The status-1 exit is taken exactly when the document holds no
      `trace` element at any depth. */
  lemma NoTraceExitIffNoTrace(doc: ScanDocument)
    ensures Run(doc).NoTraceExit? <==> NoTraceAnywhere(doc)
  {
    TraceCountZero(doc);
  }

  lemma {:induction false} NoHostTraceNoHops(hosts: seq<Host>)
    requires forall k | 0 <= k < |hosts| :: !HasTrace(hosts[k])
    ensures ProcessedHops(hosts) == []
    decreases |hosts|
  {
    if hosts != [] {
      NoHostTraceNoHops(hosts[..|hosts| - 1]);
    }
  }
}

/** Concrete runs of the script. */
module TraceExamples {
  import opened NmapScan
  import opened Topology
  import opened TracerouteToDot

  function TraceOf(hops: seq<Hop>): Host {
    Host([HostChild("status", [], 0), HostChild(TraceTag, hops, 0)])
  }

  lemma TraceOfHops(hops: seq<Hop>)
    ensures HasTrace(TraceOf(hops)) && TraceHops(TraceOf(hops)) == hops
  {
    var cs := TraceOf(hops).children;
    assert cs[0].tag != TraceTag by { assert cs[0].tag[0] == 's'; }
    assert cs[1..][0].tag == TraceTag;
  }

  lemma WalkOneHop(w: Walk, a: Hop)
    ensures WalkHops(w, [a]) == StepHop(w, a)
  {
  }

  lemma WalkTwoHops(w: Walk, a: Hop, b: Hop)
    ensures WalkHops(w, [a, b]) == StepHop(StepHop(w, a), b)
  {
    assert [a, b][..1] == [a];
    WalkOneHop(w, a);
  }

  /** A document with some `trace` and no empty one is walked in full:
      `Run`'s last branch, stated once for the examples below. */
  lemma RunWalksAllHosts(doc: ScanDocument)
    requires TraceCount(doc) > 0
    requires forall i | 0 <= i < |doc.hosts| :: !HasEmptyTrace(doc.hosts[i])
    ensures Run(doc) == WroteDot(WalkHosts(Start, doc.hosts).graph)
  {
  }

  const HopA1: Hop := Hop(Some("1"), "10.0.0.1", None)
  const HopB2: Hop := Hop(Some("2"), "10.0.1.1", Some(""))
  const HopC2: Hop := Hop(Some("2"), "10.0.2.1", Some("gw"))

  lemma FirstTracedHostWalk()
    ensures WalkHosts(Start, [TraceOf([HopA1, HopB2])]) ==
            Walk(Graph({"scanner", "10.0.0.1", "10.0.1.1"},
                       {("scanner", "10.0.0.1"), ("10.0.0.1", "10.0.1.1")}), "10.0.1.1")
  {
    var h1 := TraceOf([HopA1, HopB2]);
    TraceOfHops([HopA1, HopB2]);
    assert [h1][..0] == [];
    assert WalkHosts(Start, [h1]) == WalkHops(Start, [HopA1, HopB2]);
    WalkTwoHops(Start, HopA1, HopB2);
    assert NodeId(HopA1) == "10.0.0.1" && NodeId(HopB2) == "10.0.1.1";
  }

  /** The second host's first hop is already in the graph: only the
      cursor moves. */
  lemma SharedHopRevisited(g: Graph)
    requires g == Graph({"scanner", "10.0.0.1", "10.0.1.1"},
                        {("scanner", "10.0.0.1"), ("10.0.0.1", "10.0.1.1")})
    ensures StepHop(Walk(g, "10.0.1.1"), HopA1) == Walk(g, "10.0.0.1")
  {
    assert NodeId(HopA1) == "10.0.0.1";
  }

  lemma NamedHopNodeId()
    ensures NodeId(HopC2) == "10.0.2.1_gw"
  {
    assert IsNamed(HopC2);
  }

  lemma GatewayHopAdded(g: Graph)
    requires g == Graph({"scanner", "10.0.0.1", "10.0.1.1"},
                        {("scanner", "10.0.0.1"), ("10.0.0.1", "10.0.1.1")})
    ensures StepHop(Walk(g, "10.0.0.1"), HopC2).graph ==
            Graph({"scanner", "10.0.0.1", "10.0.1.1", "10.0.2.1_gw"},
                  {("scanner", "10.0.0.1"), ("10.0.0.1", "10.0.1.1"), ("10.0.0.1", "10.0.2.1_gw")})
  {
    NamedHopNodeId();
  }

  lemma SharedPrefixWalk()
    ensures WalkHosts(Start, [TraceOf([HopA1, HopB2]), TraceOf([HopA1, HopC2])]).graph ==
            Graph({"scanner", "10.0.0.1", "10.0.1.1", "10.0.2.1_gw"},
                  {("scanner", "10.0.0.1"), ("10.0.0.1", "10.0.1.1"), ("10.0.0.1", "10.0.2.1_gw")})
  {
    var h1 := TraceOf([HopA1, HopB2]);
    var h2 := TraceOf([HopA1, HopC2]);
    var g1 := Graph({"scanner", "10.0.0.1", "10.0.1.1"},
                    {("scanner", "10.0.0.1"), ("10.0.0.1", "10.0.1.1")});
    TraceOfHops([HopA1, HopC2]);
    FirstTracedHostWalk();
    WalkHostsSnoc(Start, [h1], h2);
    assert [h1] + [h2] == [h1, h2];
    WalkTwoHops(Walk(g1, "10.0.1.1"), HopA1, HopC2);
    SharedHopRevisited(g1);
    GatewayHopAdded(g1);
  }

  /** Two hosts whose traces share their first hop: the shared hop is one
      node, and the second host's ttl-2 hop is linked from it, not from the
      first host's last hop. An empty host name counts as absent. */
  lemma SharedFirstHopCollapses()
    ensures var doc := ScanDocument([TraceOf([HopA1, HopB2]), TraceOf([HopA1, HopC2])], 0);
            Run(doc) == WroteDot(Graph({"scanner", "10.0.0.1", "10.0.1.1", "10.0.2.1_gw"},
                                       {("scanner", "10.0.0.1"), ("10.0.0.1", "10.0.1.1"),
                                        ("10.0.0.1", "10.0.2.1_gw")}))
  {
    var doc := ScanDocument([TraceOf([HopA1, HopB2]), TraceOf([HopA1, HopC2])], 0);
    TraceOfHops([HopA1, HopB2]);
    TraceOfHops([HopA1, HopC2]);
    assert HasTrace(doc.hosts[0]);
    RunWalksAllHosts(doc);
    SharedPrefixWalk();
  }

  const HopA: Hop := Hop(Some("1"), "A", None)
  const HopB: Hop := Hop(Some("2"), "B", None)
  const HopC: Hop := Hop(Some("2"), "C", None)
  const Untraced: Host := Host([HostChild("status", [], 0)])

  lemma WalkHostsSnoc(w: Walk, hosts: seq<Host>, h: Host)
    ensures WalkHosts(w, hosts + [h]) == WalkHost(WalkHosts(w, hosts), h)
  {
    assert (hosts + [h])[..|hosts|] == hosts;
  }

  lemma TracedHostAB()
    ensures WalkHosts(Start, [TraceOf([HopA, HopB])]) ==
            Walk(Graph({"scanner", "A", "B"}, {("scanner", "A"), ("A", "B")}), "B")
  {
    TraceOfHops([HopA, HopB]);
    WalkHostsSnoc(Start, [], TraceOf([HopA, HopB]));
    assert [] + [TraceOf([HopA, HopB])] == [TraceOf([HopA, HopB])];
    WalkTwoHops(Start, HopA, HopB);
  }

  lemma UntracedHostSkipped()
    ensures WalkHosts(Start, [TraceOf([HopA, HopB]), Untraced]) ==
            Walk(Graph({"scanner", "A", "B"}, {("scanner", "A"), ("A", "B")}), "B")
  {
    assert !HasTrace(Untraced) by { assert Untraced.children[0].tag[0] == 's'; }
    TracedHostAB();
    WalkHostsSnoc(Start, [TraceOf([HopA, HopB])], Untraced);
  }

  lemma SkippedHostWalk()
    ensures WalkHosts(Start, [TraceOf([HopA, HopB]), Untraced, TraceOf([HopC])]) ==
            StepHop(Walk(Graph({"scanner", "A", "B"}, {("scanner", "A"), ("A", "B")}), "B"), HopC)
  {
    var h1 := TraceOf([HopA, HopB]);
    var h3 := TraceOf([HopC]);
    var w := Walk(Graph({"scanner", "A", "B"}, {("scanner", "A"), ("A", "B")}), "B");
    TraceOfHops([HopC]);
    UntracedHostSkipped();
    WalkHostsSnoc(Start, [h1, Untraced], h3);
    assert [h1, Untraced] + [h3] == [h1, Untraced, h3];
    WalkOneHop(w, HopC);
  }

  lemma SkippedHostGraph()
    ensures WalkHosts(Start, [TraceOf([HopA, HopB]), Untraced, TraceOf([HopC])]).graph ==
            Graph({"scanner", "A", "B", "C"}, {("scanner", "A"), ("A", "B"), ("B", "C")})
  {
    SkippedHostWalk();
    assert NodeId(HopC) == "C";
  }

  /** A host without a `trace` child is skipped without resetting the
      cursor: the next host's ttl-2 hop is linked from the last hop of the
      host before the skipped one. */
  lemma SkippedHostKeepsCursor()
    ensures var doc := ScanDocument([TraceOf([HopA, HopB]), Untraced, TraceOf([HopC])], 0);
            Run(doc) == WroteDot(Graph({"scanner", "A", "B", "C"},
                                       {("scanner", "A"), ("A", "B"), ("B", "C")}))
  {
    var doc := ScanDocument([TraceOf([HopA, HopB]), Untraced, TraceOf([HopC])], 0);
    TraceOfHops([HopA, HopB]);
    TraceOfHops([HopC]);
    assert HasTrace(doc.hosts[0]);
    RunWalksAllHosts(doc);
    SkippedHostGraph();
  }

  /** A document whose hosts have no `trace` at any depth takes the
      status-1 exit. */
  lemma UntracedDocumentExits()
    ensures Run(ScanDocument([Untraced], 0)) == NoTraceExit
  {
    var doc := ScanDocument([Untraced], 0);
    assert NoTraceBelow(Untraced.children[0]) by { assert Untraced.children[0].tag[0] == 's'; }
    TraceCountZero(doc);
  }

  /** A `trace` outside every host passes the exit check, but no host is
      walked: only the root is written. */
  lemma OutsideTraceWritesOnlyTheRoot()
    ensures Run(ScanDocument([], 1)) == WroteDot(Graph({"scanner"}, {}))
  {
  }

  /** A `trace` nested below some other child of a host passes the
      document-wide check, but the host is skipped: only the root is
      written. */
  lemma NestedTraceWritesOnlyTheRoot()
    ensures Run(ScanDocument([Host([HostChild("hostscript", [], 1)])], 0)) == WroteDot(Graph({"scanner"}, {}))
  {
  }
}
