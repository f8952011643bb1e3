/** The edge store: every serial run of Create, Update and Delete keeps the graph
    of explicit edges free of cycles. */
module EdgeStore {
  import opened Dependencies
  import opened Graphs
  import opened Suppressor
  import opened Wrappers

  datatype Error = InvalidEdge | ForeignNode | SelfLoop | SelfMatch | Duplicate | Cycle | NotFound

  /** The tables a check reads: edges by id, hosts with their project and labels,
      monitors with their project. */
  datatype Tables = Tables(
    edges: map<int, Edge>, nextID: int,
    hosts: map<int, HostLabels>, monitors: map<int, int>)

  // ----- what each check decides -----

  function Count(b: bool): int { if b then 1 else 0 }

  predicate WellShaped(e: Edge) {
    && (e.parentHostID.Some? <==> e.parentMonitorID.None?)
    && (e.childLabelScope.Some? <==> e.childLabelValue.Some?)
    && Count(e.childHostID.Some?) + Count(e.childMonitorID.Some?) + Count(e.childLabelScope.Some?) == 1
    && (e.childLabelScope.Some? ==> e.childLabelScope.value in {"env", "role"})
  }

  predicate Owns(t: Tables, project: int, n: Node) {
    match n.kind
    case Host => n.id in t.hosts && t.hosts[n.id].projectID == project
    case Monitor => n.id in t.monitors && t.monitors[n.id] == project
  }

  predicate NodesBelong(t: Tables, e: Edge) {
    && (e.parentHostID.Some? ==> Owns(t, e.projectID, Node(Host, e.parentHostID.value)))
    && (e.parentMonitorID.Some? ==> Owns(t, e.projectID, Node(Monitor, e.parentMonitorID.value)))
    && (e.childHostID.Some? ==> Owns(t, e.projectID, Node(Host, e.childHostID.value)))
    && (e.childMonitorID.Some? ==> Owns(t, e.projectID, Node(Monitor, e.childMonitorID.value)))
  }

  predicate IsSelfLoop(e: Edge) {
    || (e.parentHostID.Some? && e.parentHostID == e.childHostID)
    || (e.parentMonitorID.Some? && e.parentMonitorID == e.childMonitorID)
  }

  /** A label selector that already matches its own parent host. */
  predicate IsSelfMatch(t: Tables, e: Edge) {
    && e.childLabelScope.Some? && e.childLabelValue.Some? && e.parentHostID.Some?
    && e.parentHostID.value in t.hosts
    && var labels := t.hosts[e.parentHostID.value];
       e.childLabelValue.value ==
         if e.childLabelScope.value == "env" then labels.env
         else if e.childLabelScope.value == "role" then labels.role else ""
  }

  predicate SameArrow(a: Edge, b: Edge) {
    a.(id := b.id) == b
  }

  predicate IsDuplicate(t: Tables, e: Edge, excludeID: int) {
    exists id :: id in t.edges && id != excludeID && SameArrow(t.edges[id], e)
  }

  /** Parent -> child arrows of the explicit edges among the given rows of one project. */
  ghost function RowsGraph(t: Tables, project: int, ids: set<int>): set<(Node, Node)> {
    set id | id in ids && id in t.edges && t.edges[id].projectID == project
             && ParentNode(t.edges[id]).Some? && ChildNode(t.edges[id]).Some?
           :: (ParentNode(t.edges[id]).value, ChildNode(t.edges[id]).value)
  }

  /** One project's explicit edges, one row left out. */
  ghost function ExplicitGraph(t: Tables, project: int, excludeID: int): set<(Node, Node)> {
    RowsGraph(t, project, t.edges.Keys - {excludeID})
  }

  lemma RowsGraphStep(t: Tables, project: int, ids: set<int>, id: int)
    requires id in t.edges
    ensures var e := t.edges[id];
            RowsGraph(t, project, ids + {id}) ==
              RowsGraph(t, project, ids)
              + if e.projectID == project && ParentNode(e).Some? && ChildNode(e).Some?
                then {(ParentNode(e).value, ChildNode(e).value)} else {}
  {
  }

  /** The edge would make its parent depend on itself. */
  ghost predicate ClosesCycle(t: Tables, e: Edge, excludeID: int) {
    && ParentNode(e).Some? && ChildNode(e).Some?
    && Reach(ExplicitGraph(t, e.projectID, excludeID), ChildNode(e).value, ParentNode(e).value)
  }

  /** The first check that refuses the edge, in the order the store runs them. */
  ghost function Refusal(t: Tables, e: Edge, excludeID: int): Option<Error> {
    if !NodesBelong(t, e) then Some(ForeignNode)
    else if IsSelfLoop(e) then Some(SelfLoop)
    else if IsSelfMatch(t, e) then Some(SelfMatch)
    else if IsDuplicate(t, e, excludeID) then Some(Duplicate)
    else if ClosesCycle(t, e, excludeID) then Some(Cycle)
    else None
  }

  ghost function CreateSpec(t: Tables, e: Edge): (Tables, Result<int, Error>) {
    if !WellShaped(e) then (t, Err(InvalidEdge))
    else if Refusal(t, e, 0).Some? then (t, Err(Refusal(t, e, 0).value))
    else (t.(edges := t.edges[t.nextID := e.(id := t.nextID)], nextID := t.nextID + 1), Ok(t.nextID))
  }

  ghost function UpdateSpec(t: Tables, e: Edge): (Tables, Option<Error>) {
    if !WellShaped(e) then (t, Some(InvalidEdge))
    else if !(e.id in t.edges && t.edges[e.id].projectID == e.projectID) then (t, Some(NotFound))
    else if Refusal(t, e, e.id).Some? then (t, Refusal(t, e, e.id))
    else (t.(edges := t.edges[e.id := e]), None)
  }

  function DeleteSpec(t: Tables, project: int, id: int): Tables {
    if id in t.edges && t.edges[id].projectID == project then t.(edges := t.edges - {id}) else t
  }

  // ----- the store -----

  method ValidateShape(e: Edge) returns (ok: bool)
    ensures ok <==> WellShaped(e)
  {
    var parents := 0;
    if e.parentHostID.Some? { parents := parents + 1; }
    if e.parentMonitorID.Some? { parents := parents + 1; }
    if parents != 1 { return false; }
    var hasLabel := e.childLabelScope.Some? || e.childLabelValue.Some?;
    if hasLabel && (e.childLabelScope.None? || e.childLabelValue.None?) { return false; }
    var children := 0;
    if e.childHostID.Some? { children := children + 1; }
    if e.childMonitorID.Some? { children := children + 1; }
    if hasLabel { children := children + 1; }
    if children != 1 { return false; }
    if hasLabel && e.childLabelScope.value != "env" && e.childLabelScope.value != "role" { return false; }
    return true;
  }

  lemma NonEmpty(s: set<int>)
    requires s != {}
    ensures exists x: int :: x in s
  {
    assert (forall x: int :: x !in s) ==> s == {};
  }

  ghost predicate Lists(adj: map<Node, seq<Node>>, g: set<(Node, Node)>) {
    forall p, c :: (p in adj && c in adj[p]) <==> (p, c) in g
  }

  /** Adjacency lists built row by row, in whatever order the rows come. */
  method LoadAdjacency(t: Tables, project: int, excludeID: int) returns (adj: map<Node, seq<Node>>)
    ensures Lists(adj, ExplicitGraph(t, project, excludeID))
  {
    adj := map[];
    var todo := t.edges.Keys - {excludeID};
    ghost var done: set<int> := {};
    while todo != {}
      invariant done + todo == t.edges.Keys - {excludeID}
      invariant Lists(adj, RowsGraph(t, project, done))
      decreases todo
    {
      assert exists id: int :: id in todo by { NonEmpty(todo); }
      var id: int :| id in todo;
      RowsGraphStep(t, project, done, id);
      todo, done := todo - {id}, done + {id};
      var e := t.edges[id];
      var p, c := ParentNode(e), ChildNode(e);
      if e.projectID != project || p.None? || c.None? {
        continue;
      }
      adj := adj[p.value := (if p.value in adj then adj[p.value] else []) + [c.value]];
    }
    assert done == t.edges.Keys - {excludeID};
  }

  /** Breadth-first search below the child; true when it meets the parent. */
  method CheckCycle(t: Tables, e: Edge, excludeID: int) returns (closes: bool)
    ensures closes <==> ClosesCycle(t, e, excludeID)
  {
    var parent, child := ParentNode(e), ChildNode(e);
    if parent.None? || child.None? {
      return false;
    }
    var from, target := child.value, parent.value;
    var rows := LoadAdjacency(t, e.projectID, excludeID);
    var adj := rows[target := (if target in rows then rows[target] else []) + [from]];
    closes := Search(adj, from, target, ExplicitGraph(t, e.projectID, excludeID));
  }

  ghost predicate SearchInvariant(g: set<(Node, Node)>, from: Node, visited: set<Node>, queue: seq<Node>) {
    && from in visited
    && (forall v :: v in visited ==> Reach(g, from, v))
    && (forall v :: v in queue ==> v in visited)
    && (forall v, w :: v in visited && (v, w) in g ==> w in visited || v in queue)
  }

  /** Appends to the queue the neighbours not seen before. */
  method Expand(nexts: seq<Node>, visited: set<Node>, queue: seq<Node>) returns (v: set<Node>, q: seq<Node>)
    ensures v == visited + set n | n in nexts
    ensures queue <= q
    ensures forall n :: n in q <==> n in queue || (n in nexts && n !in visited)
    ensures v == visited ==> q == queue
  {
    v, q := visited, queue;
    for i := 0 to |nexts|
      invariant v == visited + set n | n in nexts[..i]
      invariant queue <= q
      invariant forall n :: n in q <==> n in queue || (n in nexts[..i] && n !in visited)
      invariant v == visited ==> q == queue
    {
      var next := nexts[i];
      assert nexts[..i + 1] == nexts[..i] + [next];
      if next !in v {
        v := v + {next};
        q := q + [next];
      }
    }
    assert nexts[..|nexts|] == nexts;
  }

  lemma SearchStep(g: set<(Node, Node)>, from: Node, visited: set<Node>, queue: seq<Node>,
                   nexts: seq<Node>, v: set<Node>, q: seq<Node>)
    requires queue != [] && SearchInvariant(g, from, visited, queue)
    requires forall n :: n in nexts <==> (queue[0], n) in g
    requires v == visited + set n | n in nexts
    requires queue[1..] <= q
    requires forall n :: n in q <==> n in queue[1..] || (n in nexts && n !in visited)
    ensures SearchInvariant(g, from, v, q)
    ensures v <= visited + Nodes(g)
  {
    var cur := queue[0];
    assert queue == [cur] + queue[1..];
    assert cur in queue;
    forall n | n in nexts ensures Reach(g, from, n) && n in Nodes(g) {
      ReachSelf(g, n);
      ReachStep(g, cur, n, n);
      ReachTrans(g, from, cur, n);
      ReachPlusInNodes(g, cur, n);
    }
  }

  /** The adjacency may hold one arrow more than g, out of the target: the search
      stops at the target and never follows it. */
  method Search(adj: map<Node, seq<Node>>, from: Node, target: Node, ghost g: set<(Node, Node)>)
    returns (found: bool)
    requires forall p, c :: p != target ==> ((p in adj && c in adj[p]) <==> (p, c) in g)
    ensures found <==> Reach(g, from, target)
  {
    var visited := {from};
    var queue := [from];
    ghost var universe := Nodes(g) + {from};
    ReachSelf(g, from);
    while |queue| > 0
      invariant SearchInvariant(g, from, visited, queue)
      invariant visited <= universe
      invariant target in visited ==> target in queue
      decreases universe - visited, |queue|
    {
      var cur := queue[0];
      assert queue == [cur] + queue[1..];
      if cur == target {
        return true;
      }
      var nexts := if cur in adj then adj[cur] else [];
      var v, q := Expand(nexts, visited, queue[1..]);
      SearchStep(g, from, visited, queue, nexts, v, q);
      assert v != visited ==> universe - v < universe - visited;
      visited, queue := v, q;
    }
    if Reach(g, from, target) {
      ClosedContains(g, (iset x | x in visited), from, target);
    }
    return false;
  }

  /** The store as the code holds it: the tables are rows of the database, each
      method one serial transaction on them. */
  class Store {
    var tables: Tables

    constructor (t: Tables)
      ensures tables == t
    {
      tables := t;
    }

    method Check(e: Edge, excludeID: int) returns (refusal: Option<Error>)
      ensures refusal == Refusal(tables, e, excludeID)
    {
      if !NodesBelong(tables, e) { return Some(ForeignNode); }
      if IsSelfLoop(e) { return Some(SelfLoop); }
      if IsSelfMatch(tables, e) { return Some(SelfMatch); }
      if IsDuplicate(tables, e, excludeID) { return Some(Duplicate); }
      var closes := CheckCycle(tables, e, excludeID);
      return if closes then Some(Cycle) else None;
    }

    method Create(e: Edge) returns (r: Result<int, Error>)
      modifies this
      ensures (tables, r) == CreateSpec(old(tables), e)
    {
      var shaped := ValidateShape(e);
      if !shaped { return Err(InvalidEdge); }
      var refusal := Check(e, 0);
      if refusal.Some? { return Err(refusal.value); }
      var id := tables.nextID;
      tables := tables.(edges := tables.edges[id := e.(id := id)], nextID := id + 1);
      return Ok(id);
    }

    method Update(e: Edge) returns (r: Option<Error>)
      modifies this
      ensures (tables, r) == UpdateSpec(old(tables), e)
    {
      var shaped := ValidateShape(e);
      if !shaped { return Some(InvalidEdge); }
      if e.id !in tables.edges || tables.edges[e.id].projectID != e.projectID { return Some(NotFound); }
      var refusal := Check(e, e.id);
      if refusal.Some? { return refusal; }
      tables := tables.(edges := tables.edges[e.id := e]);
      return None;
    }

    method Delete(project: int, id: int)
      modifies this
      ensures tables == DeleteSpec(old(tables), project, id)
    {
      if id in tables.edges && tables.edges[id].projectID == project {
        tables := tables.(edges := tables.edges - {id});
      }
    }
  }

  // ----- every run keeps the graph acyclic -----

  /** Create, Update and Delete, and what happens to the node tables around them:
      a node appears, a host is relabelled, a node goes away with its edges. */
  datatype Op =
    | Create(e: Edge)
    | Update(e: Edge)
    | Delete(project: int, id: int)
    | HostSeen(hostID: int, labels: HostLabels)
    | MonitorAdded(monitorID: int, project: int)
    | NodeRemoved(node: Node)

  ghost predicate Mentions(e: Edge, n: Node) {
    match n.kind
    case Host => e.parentHostID == Some(n.id) || e.childHostID == Some(n.id)
    case Monitor => e.parentMonitorID == Some(n.id) || e.childMonitorID == Some(n.id)
  }

  ghost function Apply(t: Tables, op: Op): Tables {
    match op
    case Create(e) => CreateSpec(t, e).0
    case Update(e) => UpdateSpec(t, e).0
    case Delete(project, id) => DeleteSpec(t, project, id)
    case HostSeen(id, labels) =>
      // a known host keeps its project
      t.(hosts := t.hosts[id := if id in t.hosts then labels.(projectID := t.hosts[id].projectID) else labels])
    case MonitorAdded(id, project) =>
      if id in t.monitors then t else t.(monitors := t.monitors[id := project])
    case NodeRemoved(n) =>
      var left := t.(edges := map id | id in t.edges && !Mentions(t.edges[id], n) :: t.edges[id]);
      if n.kind == Host then left.(hosts := t.hosts - {n.id}) else left.(monitors := t.monitors - {n.id})
  }

  ghost function Run(t: Tables, ops: seq<Op>): Tables
    decreases |ops|
  {
    if ops == [] then t else Apply(Run(t, ops[..|ops| - 1]), ops[|ops| - 1])
  }

  ghost predicate RowInv(t: Tables, id: int)
    requires id in t.edges
  {
    1 <= id < t.nextID && t.edges[id].id == id && WellShaped(t.edges[id]) && NodesBelong(t, t.edges[id])
  }

  ghost predicate Inv(t: Tables) {
    && (forall id :: id in t.edges ==> RowInv(t, id))
    && (forall project :: Acyclic(ExplicitGraph(t, project, 0)))
    && t.nextID >= 1
  }

  lemma InsertKeepsAcyclic(t: Tables, u: Tables, e: Edge, id: int, project: int, excludeID: int)
    requires u.edges == t.edges[id := e.(id := id)]
    requires excludeID == id || (excludeID == 0 && id !in t.edges)
    requires !ClosesCycle(t, e, excludeID) && id != 0 && 0 !in t.edges
    requires Acyclic(ExplicitGraph(t, project, 0))
    requires id in t.edges ==> t.edges[id].projectID == e.projectID
    ensures Acyclic(ExplicitGraph(u, project, 0))
  {
    var before := ExplicitGraph(t, project, excludeID);
    var after := ExplicitGraph(u, project, 0);
    assert before <= ExplicitGraph(t, project, 0);
    AcyclicSubset(before, ExplicitGraph(t, project, 0));
    if e.projectID == project && ParentNode(e).Some? && ChildNode(e).Some? {
      var p, c := ParentNode(e).value, ChildNode(e).value;
      AcyclicInsert(before, p, c);
      assert after <= before + {(p, c)};
      AcyclicSubset(after, before + {(p, c)});
    } else {
      assert after <= before;
      AcyclicSubset(after, before);
    }
  }

  lemma ShrinkKeepsAcyclic(t: Tables, u: Tables)
    requires forall id :: id in u.edges ==> id in t.edges && u.edges[id] == t.edges[id]
    requires forall project :: Acyclic(ExplicitGraph(t, project, 0))
    ensures forall project :: Acyclic(ExplicitGraph(u, project, 0))
  {
    forall project ensures Acyclic(ExplicitGraph(u, project, 0)) {
      assert ExplicitGraph(u, project, 0) <= ExplicitGraph(t, project, 0);
      AcyclicSubset(ExplicitGraph(u, project, 0), ExplicitGraph(t, project, 0));
    }
  }

  lemma CreateKeepsInv(t: Tables, e: Edge)
    requires Inv(t)
    ensures Inv(CreateSpec(t, e).0)
  {
    var u := CreateSpec(t, e).0;
    if CreateSpec(t, e).1.Ok? {
      forall project ensures Acyclic(ExplicitGraph(u, project, 0)) {
        InsertKeepsAcyclic(t, u, e, t.nextID, project, 0);
      }
      forall id | id in u.edges ensures RowInv(u, id) {
        if id != t.nextID { assert RowInv(t, id); }
      }
    }
  }

  lemma UpdateKeepsInv(t: Tables, e: Edge)
    requires Inv(t)
    ensures Inv(UpdateSpec(t, e).0)
  {
    var u := UpdateSpec(t, e).0;
    if UpdateSpec(t, e).1.None? {
      forall project ensures Acyclic(ExplicitGraph(u, project, 0)) {
        assert RowInv(t, e.id);
        InsertKeepsAcyclic(t, u, e, e.id, project, e.id);
      }
      forall id | id in u.edges ensures RowInv(u, id) {
        assert RowInv(t, id);
      }
    }
  }

  lemma OtherKeepsInv(t: Tables, op: Op)
    requires Inv(t) && !op.Create? && !op.Update?
    ensures Inv(Apply(t, op))
  {
    var u := Apply(t, op);
    ShrinkKeepsAcyclic(t, u);
    forall id | id in u.edges ensures RowInv(u, id) {
      assert RowInv(t, id);
    }
  }

  lemma StepKeepsInv(t: Tables, op: Op)
    requires Inv(t)
    ensures Inv(Apply(t, op))
  {
    match op
    case Create(e) => CreateKeepsInv(t, e);
    case Update(e) => UpdateKeepsInv(t, e);
    case _ => OtherKeepsInv(t, op);
  }

  lemma {:induction false} EveryRunKeepsInv(t: Tables, ops: seq<Op>)
    requires Inv(t)
    ensures Inv(Run(t, ops))
    decreases |ops|
  {
    if ops != [] {
      EveryRunKeepsInv(t, ops[..|ops| - 1]);
      StepKeepsInv(Run(t, ops[..|ops| - 1]), ops[|ops| - 1]);
    }
  }

  /** The cycle check refuses no more than it must: a refused edge, had it been
      stored, would have closed a cycle; an accepted one never does. */
  lemma CycleCheckIsExact(t: Tables, e: Edge)
    requires Inv(t) && ParentNode(e).Some? && ChildNode(e).Some?
    ensures ClosesCycle(t, e, 0) <==>
              !Acyclic(ExplicitGraph(t.(edges := t.edges[t.nextID := e.(id := t.nextID)]), e.projectID, 0))
  {
    var u := t.(edges := t.edges[t.nextID := e.(id := t.nextID)]);
    var g := ExplicitGraph(t, e.projectID, 0);
    var p, c := ParentNode(e).value, ChildNode(e).value;
    AcyclicInsert(g, p, c);
    RowsGraphStep(u, e.projectID, t.edges.Keys - {0}, t.nextID);
    assert t.edges.Keys - {0} + {t.nextID} == u.edges.Keys - {0};
    assert RowsGraph(u, e.projectID, t.edges.Keys - {0}) == g;
    assert ExplicitGraph(u, e.projectID, 0) == g + {(p, c)};
  }

  // ----- what is accepted is what fits -----

  /** Two rows of one project differ in a parent, a child or the label. */
  ghost predicate Differ(a: Edge, b: Edge) {
    (a.projectID, a.parentHostID, a.parentMonitorID, a.childHostID, a.childMonitorID, a.childLabelScope, a.childLabelValue)
    != (b.projectID, b.parentHostID, b.parentMonitorID, b.childHostID, b.childMonitorID, b.childLabelScope, b.childLabelValue)
  }

  ghost predicate NoTwoAlike(t: Tables) {
    forall a, b :: a in t.edges && b in t.edges && a != b ==> Differ(t.edges[a], t.edges[b])
  }

  ghost predicate IsIn(t: Tables, n: Node, project: int) {
    if n.kind == Host then n.id in t.hosts && t.hosts[n.id].projectID == project
    else n.id in t.monitors && t.monitors[n.id] == project
  }

  /** The label selects the edge's own parent host, as the snapshot of these hosts resolves it. */
  ghost predicate SelectsItsParent(t: Tables, e: Edge) {
    e.parentHostID.Some? && Labelled(e, Snapshot([], {}, {}, t.hosts), e.parentHostID.value)
  }

  /** The table u with the edge in it keeps what the store promises. */
  ghost predicate FitsIn(t: Tables, u: Tables, e: Edge) {
    && WellShaped(e) && (forall n :: Mentions(e, n) ==> IsIn(t, n, e.projectID))
    && NoTwoAlike(u) && Acyclic(ExplicitGraph(u, e.projectID, 0)) && !SelectsItsParent(t, e)
  }

  function With(t: Tables, id: int, e: Edge): Tables {
    t.(edges := t.edges[id := e.(id := id)])
  }

  lemma IdsInRange(t: Tables)
    requires Inv(t)
    ensures forall id :: id in t.edges ==> 1 <= id < t.nextID
  {
    forall id | id in t.edges ensures 1 <= id < t.nextID { assert RowInv(t, id); }
  }

  lemma NodesBelongMeans(t: Tables, e: Edge)
    ensures NodesBelong(t, e) <==> forall n :: Mentions(e, n) ==> IsIn(t, n, e.projectID)
  {
    if forall n :: Mentions(e, n) ==> IsIn(t, n, e.projectID) {
      assert e.parentHostID.Some? ==> Mentions(e, Node(Host, e.parentHostID.value));
      assert e.parentMonitorID.Some? ==> Mentions(e, Node(Monitor, e.parentMonitorID.value));
      assert e.childHostID.Some? ==> Mentions(e, Node(Host, e.childHostID.value));
      assert e.childMonitorID.Some? ==> Mentions(e, Node(Monitor, e.childMonitorID.value));
    }
  }

  lemma DuplicateMeans(t: Tables, e: Edge, id: int, excludeID: int)
    requires NoTwoAlike(t) && (excludeID == id || (excludeID == 0 && id !in t.edges && 0 !in t.edges))
    ensures IsDuplicate(t, e, excludeID) <==> !NoTwoAlike(With(t, id, e))
  {
    var u := With(t, id, e);
    if k :| k in t.edges && k != excludeID && SameArrow(t.edges[k], e) {
      assert k in u.edges && id in u.edges && !Differ(u.edges[k], u.edges[id]);
    }
    if !NoTwoAlike(u) {
      var a, b :| a in u.edges && b in u.edges && a != b && !Differ(u.edges[a], u.edges[b]);
      var k := if a == id then b else a;
      assert k in t.edges && k != excludeID && SameArrow(t.edges[k], e);
    }
  }

  lemma SameRows(t: Tables, u: Tables, project: int, ids: set<int>)
    requires forall k :: k in ids ==> k in t.edges && k in u.edges && u.edges[k] == t.edges[k]
    ensures RowsGraph(t, project, ids) == RowsGraph(u, project, ids)
  {
  }

  lemma CycleMeans(t: Tables, e: Edge, id: int, excludeID: int)
    requires Inv(t) && (excludeID == id || (excludeID == 0 && id !in t.edges)) && id != 0
    requires id in t.edges ==> t.edges[id].projectID == e.projectID
    ensures ClosesCycle(t, e, excludeID) <==> !Acyclic(ExplicitGraph(With(t, id, e), e.projectID, 0))
  {
    var u, before := With(t, id, e), ExplicitGraph(t, e.projectID, excludeID);
    var rest := t.edges.Keys - {id} - {0};
    IdsInRange(t);
    assert t.edges.Keys - {excludeID} == rest;
    assert forall k :: k in rest ==> k in t.edges && u.edges[k] == t.edges[k];
    SameRows(t, u, e.projectID, rest);
    assert rest + {id} == u.edges.Keys - {0};
    RowsGraphStep(u, e.projectID, rest, id);
    AcyclicSubset(before, ExplicitGraph(t, e.projectID, 0));
    if ParentNode(e).Some? && ChildNode(e).Some? {
      AcyclicInsert(before, ParentNode(e).value, ChildNode(e).value);
      assert ExplicitGraph(u, e.projectID, 0) == before + {(ParentNode(e).value, ChildNode(e).value)};
    } else {
      assert ExplicitGraph(u, e.projectID, 0) == before;
    }
  }

  lemma SelfLoopCloses(t: Tables, e: Edge, excludeID: int)
    requires WellShaped(e) && IsSelfLoop(e)
    ensures ClosesCycle(t, e, excludeID)
  {
    ReachSelf(ExplicitGraph(t, e.projectID, excludeID), ParentNode(e).value);
  }

  lemma AcceptedMeans(t: Tables, e: Edge, id: int, excludeID: int)
    requires Inv(t) && NoTwoAlike(t) && WellShaped(e) && id != 0
    requires excludeID == id || (excludeID == 0 && id !in t.edges)
    requires id in t.edges ==> t.edges[id].projectID == e.projectID
    ensures Refusal(t, e, excludeID).None? <==> FitsIn(t, With(t, id, e), e)
  {
    IdsInRange(t);
    NodesBelongMeans(t, e);
    DuplicateMeans(t, e, id, excludeID);
    CycleMeans(t, e, id, excludeID);
    if IsSelfLoop(e) { SelfLoopCloses(t, e, excludeID); }
    hide IsDuplicate, ClosesCycle, NoTwoAlike, Acyclic, IsSelfLoop;
    assert NodesBelong(t, e) ==> (IsSelfMatch(t, e) <==> SelectsItsParent(t, e));
  }

  /** Create accepts exactly the edges with which the table still keeps all it promises, and
      then adds that row and nothing else; otherwise nothing changes. */
  lemma CreateIsExact(t: Tables, e: Edge)
    requires Inv(t) && NoTwoAlike(t)
    ensures var (t', r) := CreateSpec(t, e); var u := With(t, t.nextID, e);
            && (r.Ok? <==> FitsIn(t, u, e))
            && t' == (if r.Ok? then u.(nextID := t.nextID + 1) else t) && (r.Ok? ==> r.value == t.nextID)
  {
    IdsInRange(t);
    if WellShaped(e) { AcceptedMeans(t, e, t.nextID, 0); }
  }

  /** The same of Update, for a row of the edge's own project. */
  lemma UpdateIsExact(t: Tables, e: Edge)
    requires Inv(t) && NoTwoAlike(t)
    ensures var (t', r) := UpdateSpec(t, e); var u := With(t, e.id, e);
            && (r.None? <==> e.id in t.edges && t.edges[e.id].projectID == e.projectID && FitsIn(t, u, e))
            && t' == if r.None? then u else t
  {
    if WellShaped(e) && e.id in t.edges && t.edges[e.id].projectID == e.projectID {
      assert RowInv(t, e.id);
      AcceptedMeans(t, e, e.id, e.id);
    }
  }

  /** In every serial run no two rows say the same. */
  lemma {:induction false} EveryRunKeepsRowsApart(t: Tables, ops: seq<Op>)
    requires Inv(t) && NoTwoAlike(t)
    ensures NoTwoAlike(Run(t, ops))
    decreases |ops|
  {
    if ops != [] {
      var before, op := Run(t, ops[..|ops| - 1]), ops[|ops| - 1];
      EveryRunKeepsRowsApart(t, ops[..|ops| - 1]);
      EveryRunKeepsInv(t, ops[..|ops| - 1]);
      match op
      case Create(e) => CreateIsExact(before, e);
      case Update(e) => UpdateIsExact(before, e);
      case _ =>
    }
  }

  // ----- what that means for suppression -----

  /** A snapshot of the tables whose stored edges are all explicit. */
  ghost predicate ExplicitSnapshotOf(snap: Snapshot, t: Tables) {
    && (forall e :: e in snap.edges ==> e.id in t.edges && t.edges[e.id] == e && e.childLabelScope.None?)
  }

  ghost function ProjectOf(t: Tables, n: Node): int {
    match n.kind
    case Host => if n.id in t.hosts then t.hosts[n.id].projectID else 0
    case Monitor => if n.id in t.monitors then t.monitors[n.id] else 0
  }

  lemma ExplicitArrow(t: Tables, snap: Snapshot, c: Node, p: Node)
    requires Inv(t) && ExplicitSnapshotOf(snap, t) && (c, p) in ResolvedGraph(snap)
    ensures (c, p) in Reverse(ExplicitGraph(t, ProjectOf(t, c), 0))
    ensures ProjectOf(t, p) == ProjectOf(t, c)
  {
    ResolvedGraphIff(snap, c, p);
    var e :| e in snap.edges && Resolves(e, snap, c, p);
    assert WellShaped(e) && NodesBelong(t, e);
    assert ChildNode(e) == Some(c);
    assert t.edges[e.id] == e;
    assert (p, c) in ExplicitGraph(t, ProjectOf(t, c), 0);
  }

  /** Projects do not share nodes, so acyclic per project is acyclic as a whole. */
  lemma ExplicitSnapshotAcyclic(t: Tables, snap: Snapshot)
    requires Inv(t) && ExplicitSnapshotOf(snap, t)
    ensures Acyclic(ResolvedGraph(snap)) && Acyclic(DownGraph(snap))
  {
    var r := ResolvedGraph(snap);
    forall n ensures !ReachPlus(r, n, n) {
      if ReachPlus(r, n, n) {
        var g := Reverse(ExplicitGraph(t, ProjectOf(t, n), 0));
        ReverseAcyclic(ExplicitGraph(t, ProjectOf(t, n), 0));
        var m :| (n, m) in r && Reach(r, m, n);
        ExplicitArrow(t, snap, n, m);
        var p :| Walk(r, p, m, n);
        WalkStaysInProject(t, snap, p, m, n);
        assert Walk(g, p, m, n);
        ReachStep(g, n, m, n);
      }
    }
    AcyclicSubset(DownGraph(snap), r);
  }

  lemma {:induction false} WalkStaysInProject(t: Tables, snap: Snapshot, p: seq<Node>, a: Node, b: Node)
    requires Inv(t) && ExplicitSnapshotOf(snap, t) && Walk(ResolvedGraph(snap), p, a, b)
    ensures Walk(Reverse(ExplicitGraph(t, ProjectOf(t, a), 0)), p, a, b)
    decreases |p|
  {
    if |p| > 1 {
      assert (p[0], p[1]) in ResolvedGraph(snap);
      ExplicitArrow(t, snap, p[0], p[1]);
      assert Walk(ResolvedGraph(snap), p[1..], p[1], b);
      WalkStaysInProject(t, snap, p[1..], p[1], b);
      var g := Reverse(ExplicitGraph(t, ProjectOf(t, a), 0));
      forall i | 0 <= i < |p| - 1 ensures (p[i], p[i + 1]) in g {
        if i > 0 { assert p[1..][i - 1] == p[i] && p[1..][i] == p[i + 1]; }
      }
    }
  }

  /** After any run from empty tables, on a snapshot without label edges the
      cycle-safe walk decides no more than "some parent is down". */
  lemma StoredGraphIsOneStep(ops: seq<Op>, snap: Snapshot, n: Node)
    requires ExplicitSnapshotOf(snap, Run(Tables(map[], 1, map[], map[]), ops))
    ensures Suppressed(snap, n) <==> exists p :: (n, p) in DownGraph(snap)
  {
    var empty := Tables(map[], 1, map[], map[]);
    assert forall project :: ExplicitGraph(empty, project, 0) == {};
    EveryRunKeepsInv(empty, ops);
    ExplicitSnapshotAcyclic(Run(empty, ops), snap);
    AcyclicIsOneStep(snap, n);
  }
}
