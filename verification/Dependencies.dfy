/** Dependency edges, the snapshot the suppressor decides on, and the two graphs
    it induces: the resolved graph (child -> parent by explicit edge or label) and
    its restriction to parents that are down. */
module Dependencies {
  import opened Graphs
  import opened Wrappers

  datatype Kind = Host | Monitor

  datatype Node = Node(kind: Kind, id: int)

  datatype Edge = Edge(
    id: int, projectID: int,
    parentHostID: Option<int>, parentMonitorID: Option<int>,
    childHostID: Option<int>, childMonitorID: Option<int>,
    childLabelScope: Option<string>, childLabelValue: Option<string>)

  datatype HostLabels = HostLabels(projectID: int, env: string, role: string)

  datatype Snapshot = Snapshot(
    edges: seq<Edge>, downHosts: set<int>, downMonitors: set<int>,
    hostLabels: map<int, HostLabels>)

  function NodeFromIDs(hostID: Option<int>, monitorID: Option<int>): Option<Node> {
    if hostID.Some? then Some(Node(Host, hostID.value))
    else if monitorID.Some? then Some(Node(Monitor, monitorID.value))
    else None
  }

  function ParentNode(e: Edge): Option<Node> {
    NodeFromIDs(e.parentHostID, e.parentMonitorID)
  }

  function ChildNode(e: Edge): Option<Node> {
    NodeFromIDs(e.childHostID, e.childMonitorID)
  }

  predicate IsSelfMatchParent(e: Edge, n: Node) {
    match n.kind
    case Host => e.parentHostID == Some(n.id)
    case Monitor => e.parentMonitorID == Some(n.id)
  }

  /** An explicit host child wins over a label pair; a label edge reaches only
      hosts of its own project. */
  predicate EdgeMatchesChild(e: Edge, snap: Snapshot, n: Node) {
    match n.kind
    case Host =>
      if e.childHostID.Some? then e.childHostID.value == n.id
      else if e.childLabelScope.Some? && e.childLabelValue.Some? then
        && n.id in snap.hostLabels
        && snap.hostLabels[n.id].projectID == e.projectID
        && (if e.childLabelScope.value == "env" then snap.hostLabels[n.id].env == e.childLabelValue.value
            else if e.childLabelScope.value == "role" then snap.hostLabels[n.id].role == e.childLabelValue.value
            else false)
      else false
    case Monitor => e.childMonitorID == Some(n.id)
  }

  predicate ParentIsDown(e: Edge, snap: Snapshot) {
    if e.parentHostID.Some? then e.parentHostID.value in snap.downHosts
    else if e.parentMonitorID.Some? then e.parentMonitorID.value in snap.downMonitors
    else false
  }

  predicate NodeIsDown(snap: Snapshot, n: Node) {
    match n.kind
    case Host => n.id in snap.downHosts
    case Monitor => n.id in snap.downMonitors
  }

  /** e makes p a parent of c. */
  predicate Resolves(e: Edge, snap: Snapshot, c: Node, p: Node) {
    && !IsSelfMatchParent(e, c)
    && EdgeMatchesChild(e, snap, c)
    && ParentNode(e) == Some(p)
  }

  /** Every node some edge can name or select as a child. */
  ghost function ChildCandidates(snap: Snapshot): set<Node> {
    (set id | id in snap.hostLabels :: Node(Host, id))
    + (set e | e in snap.edges && e.childHostID.Some? :: Node(Host, e.childHostID.value))
    + (set e | e in snap.edges && e.childMonitorID.Some? :: Node(Monitor, e.childMonitorID.value))
  }

  ghost function ResolvedGraph(snap: Snapshot): set<(Node, Node)> {
    set e, c | e in snap.edges && c in ChildCandidates(snap) && ParentNode(e).Some?
               && Resolves(e, snap, c, ParentNode(e).value) :: (c, ParentNode(e).value)
  }

  ghost function DownGraph(snap: Snapshot): set<(Node, Node)> {
    set a | a in ResolvedGraph(snap) && NodeIsDown(snap, a.1)
  }

  lemma ResolvedGraphIff(snap: Snapshot, c: Node, p: Node)
    ensures (c, p) in ResolvedGraph(snap) <==> exists e :: e in snap.edges && Resolves(e, snap, c, p)
  {
    if e :| e in snap.edges && Resolves(e, snap, c, p) {
      assert c in ChildCandidates(snap);
      assert (c, ParentNode(e).value) in ResolvedGraph(snap);
    }
  }

  /** The edge's parent columns hold p; the host column wins. */
  ghost predicate HasParent(e: Edge, p: Node) {
    if p.kind == Host then e.parentHostID == Some(p.id)
    else e.parentHostID == None && e.parentMonitorID == Some(p.id)
  }

  /** The edge names no host but a label that h carries in the edge's own project. */
  ghost predicate Labelled(e: Edge, snap: Snapshot, h: int) {
    && e.childHostID == None && h in snap.hostLabels && snap.hostLabels[h].projectID == e.projectID
    && var labels := snap.hostLabels[h];
       (e.childLabelScope, e.childLabelValue) in {(Some("env"), Some(labels.env)), (Some("role"), Some(labels.role))}
  }

  /** A host's parents, column by column: those of the edges that name the host, and of
      the edges that name no host but a label the host carries in the edge's own project. */
  lemma HostParents(snap: Snapshot, h: int, p: Node)
    ensures (Node(Host, h), p) in ResolvedGraph(snap) <==>
            && p != Node(Host, h)
            && exists e :: e in snap.edges && HasParent(e, p) && (e.childHostID == Some(h) || Labelled(e, snap, h))
  {
    ResolvedGraphIff(snap, Node(Host, h), p);
  }

  /** A monitor's parents: labels do not reach monitors. */
  lemma MonitorParents(snap: Snapshot, m: int, p: Node)
    ensures (Node(Monitor, m), p) in ResolvedGraph(snap) <==>
            exists e :: e in snap.edges && HasParent(e, p) && e.childMonitorID == Some(m) && e.parentMonitorID != Some(m)
  {
    ResolvedGraphIff(snap, Node(Monitor, m), p);
  }

  /** Which of them count: hosts and monitors in the snapshot's two sets of down nodes. */
  lemma DownParentsAre(snap: Snapshot, c: Node, p: Node)
    ensures (c, p) in DownGraph(snap) <==>
            (c, p) in ResolvedGraph(snap) && p.id in (if p.kind == Host then snap.downHosts else snap.downMonitors)
  {
  }

  /** An edge's parent is down as the edge sees it exactly when its node is down. */
  lemma ParentIsDownIsNodeDown(e: Edge, snap: Snapshot)
    ensures ParentIsDown(e, snap) <==> ParentNode(e).Some? && NodeIsDown(snap, ParentNode(e).value)
  {
  }

  /** No node is its own resolved parent, whatever labels say. */
  lemma NoSelfParent(snap: Snapshot, n: Node)
    ensures (n, n) !in ResolvedGraph(snap) && (n, n) !in DownGraph(snap)
  {
    ResolvedGraphIff(snap, n, n);
  }
}
