/** The parsed nmap XML traceroute document: hosts in document order, the
    immediate children of each host, the hops of a `trace` element, and the
    node identity that a hop receives in the topology graph. */
module NmapScan {

  datatype Option<+T> = None | Some(value: T)

  /** One `hop` element of a `trace`. `ttl` and `host` are attributes that
      may be missing; `ipaddr` is always present. */
  datatype Hop = Hop(ttl: Option<string>, ipaddr: string, host: Option<string>)

  /** An immediate child element of a `host` element: its tag, the `hop`
      elements directly below it (document order), and how many `trace`
      elements lie strictly inside it. */
  datatype HostChild = HostChild(tag: string, hops: seq<Hop>, nestedTraces: nat)

  /** A `host` element, with its immediate children in document order. */
  datatype Host = Host(children: seq<HostChild>)

  /** The whole scan output: every `host` element in document order, and the
      number of `trace` elements that are not inside any host. */
  datatype ScanDocument = ScanDocument(hosts: seq<Host>, tracesOutsideHosts: nat)

  const TraceTag: string := "trace"

  /** The root node of the topology, and the initial cursor. */
  const Scanner: string := "scanner"

  /** A hop is a first hop when its ttl attribute is exactly the string "1";
      a missing ttl, or any other spelling of one, is not. */
  predicate IsFirstHop(h: Hop) {
    h.ttl == Some("1")
  }

  /** The `host` attribute counts only when present and non-empty. */
  predicate IsNamed(h: Hop) {
    h.host.Some? && h.host.value != ""
  }

  /** The node identity of a hop: its address, followed by "_" and its host
      name when it has a non-empty one. */
  function NodeId(h: Hop): (id: string)
    ensures |h.ipaddr| <= |id| && id[..|h.ipaddr|] == h.ipaddr
    ensures IsNamed(h) <==> |id| > |h.ipaddr|
    ensures IsNamed(h) ==> id[|h.ipaddr|] == '_' && id[|h.ipaddr| + 1..] == h.host.value
  {
    if IsNamed(h) then h.ipaddr + "_" + h.host.value else h.ipaddr
  }

  /** Whether one of the host's immediate children is tagged `trace`: the
      test on the list of child tags agrees with whether the `trace`
      child can be reached at all. */
  predicate HasTrace(host: Host)
    ensures HasTrace(host) <==> FirstTraceHops(host.children).Some?
  {
    exists m | 0 <= m < |host.children| :: host.children[m].tag == TraceTag
  }

  /** The hops of the first immediate child tagged `trace`, if any. */
  function FirstTraceHops(cs: seq<HostChild>): (r: Option<seq<Hop>>)
    ensures r.Some? <==> exists m | 0 <= m < |cs| :: cs[m].tag == TraceTag
    ensures r.Some? ==> exists m | 0 <= m < |cs| ::
      cs[m].tag == TraceTag && r.value == cs[m].hops &&
      forall k | 0 <= k < m :: cs[k].tag != TraceTag
  {
    if cs == [] then None
    else if cs[0].tag == TraceTag then Some(cs[0].hops)
    else
      var r := FirstTraceHops(cs[1..]);
      assert forall m | 0 <= m < |cs[1..]| :: cs[1..][m] == cs[m + 1];
      if r.Some? then
        var m :| 0 <= m < |cs[1..]| && cs[1..][m].tag == TraceTag && r.value == cs[1..][m].hops &&
                 forall k | 0 <= k < m :: cs[1..][k].tag != TraceTag;
        assert cs[m + 1].tag == TraceTag && r.value == cs[m + 1].hops;
        assert forall k | 0 <= k < m + 1 :: cs[k].tag != TraceTag;
        r
      else r
  }

  /** The hops the script walks for a host: those of its first `trace`
      child, or none when it has no such child. */
  function TraceHops(host: Host): (hops: seq<Hop>)
    ensures !HasTrace(host) ==> hops == []
    ensures HasTrace(host) ==> exists m | 0 <= m < |host.children| ::
      host.children[m].tag == TraceTag && hops == host.children[m].hops &&
      forall k | 0 <= k < m :: host.children[k].tag != TraceTag
  {
    match FirstTraceHops(host.children)
    case Some(hops) => hops
    case None => []
  }

  /** A host whose first `trace` child holds no `hop`: walking it raises. */
  predicate HasEmptyTrace(host: Host) {
    HasTrace(host) && TraceHops(host) == []
  }

  /** Number of `trace` elements anywhere below one host: positive when
      one of its immediate children is a `trace`. */
  function ChildrenTraceCount(cs: seq<HostChild>): (n: nat)
    ensures (exists m | 0 <= m < |cs| :: cs[m].tag == TraceTag) ==> n > 0
  {
    if cs == [] then 0
    else
      assert forall m | 1 <= m < |cs| :: cs[m] == cs[1..][m - 1];
      (if cs[0].tag == TraceTag then 1 else 0) + cs[0].nestedTraces + ChildrenTraceCount(cs[1..])
  }

  function HostsTraceCount(hosts: seq<Host>): (n: nat)
    ensures forall i | 0 <= i < |hosts| :: HasTrace(hosts[i]) ==> n > 0
  {
    if hosts == [] then 0
    else
      assert forall i | 1 <= i < |hosts| :: hosts[i] == hosts[1..][i - 1];
      ChildrenTraceCount(hosts[0].children) + HostsTraceCount(hosts[1..])
  }

  /** Number of `trace` elements anywhere in the document. The per-host
      test is stricter than this one: a host with a `trace` child always
      makes the count positive. */
  function TraceCount(doc: ScanDocument): (n: nat)
    ensures n >= doc.tracesOutsideHosts
    ensures forall i | 0 <= i < |doc.hosts| :: HasTrace(doc.hosts[i]) ==> n > 0
  {
    doc.tracesOutsideHosts + HostsTraceCount(doc.hosts)
  }

  /** A host child that neither is a `trace` nor holds one. */
  predicate NoTraceBelow(c: HostChild) {
    c.tag != TraceTag && c.nestedTraces == 0
  }

  /** The document holds no `trace` element at any depth. */
  predicate NoTraceAnywhere(doc: ScanDocument) {
    doc.tracesOutsideHosts == 0 &&
    forall i, m | 0 <= i < |doc.hosts| && 0 <= m < |doc.hosts[i].children| ::
      NoTraceBelow(doc.hosts[i].children[m])
  }

  lemma {:induction false} ChildrenTraceCountZero(cs: seq<HostChild>)
    ensures ChildrenTraceCount(cs) == 0 <==> forall m | 0 <= m < |cs| :: NoTraceBelow(cs[m])
    decreases |cs|
  {
    if cs != [] {
      ChildrenTraceCountZero(cs[1..]);
      assert forall m | 1 <= m < |cs| :: cs[m] == cs[1..][m - 1];
    }
  }

  lemma {:induction false} HostsTraceCountZero(hosts: seq<Host>)
    ensures HostsTraceCount(hosts) == 0 <==>
            forall i, m | 0 <= i < |hosts| && 0 <= m < |hosts[i].children| :: NoTraceBelow(hosts[i].children[m])
    decreases |hosts|
  {
    if hosts != [] {
      ChildrenTraceCountZero(hosts[0].children);
      HostsTraceCountZero(hosts[1..]);
      assert forall i | 1 <= i < |hosts| :: hosts[i] == hosts[1..][i - 1];
    }
  }

  /** The document-wide count is zero exactly when no `trace` lies
      anywhere: outside the hosts, as a host child, or deeper inside one. */
  lemma TraceCountZero(doc: ScanDocument)
    ensures TraceCount(doc) == 0 <==> NoTraceAnywhere(doc)
  {
    HostsTraceCountZero(doc.hosts);
  }

  /** The converse of `TraceCount`'s second clause fails: a `trace` nested
      deeper inside a host (or outside every host) is counted, while no
      host has a `trace` child. */
  lemma NestedTraceIsNotAHostTrace()
    ensures var doc := ScanDocument([Host([HostChild("hostnames", [], 1)])], 0);
            TraceCount(doc) == 1 && !HasTrace(doc.hosts[0])
  {
  }

  /** Two hops with the same address and the same (possibly missing or
      empty) name share a node; and when addresses contain no '_' two hops
      share a node only if they agree on address and on effective name. */
  lemma NodeIdCollapsesExactly(a: Hop, b: Hop)
    requires '_' !in a.ipaddr && '_' !in b.ipaddr
    ensures NodeId(a) == NodeId(b) <==>
            a.ipaddr == b.ipaddr && IsNamed(a) == IsNamed(b) &&
            (IsNamed(a) ==> a.host.value == b.host.value)
  {
  }
}
