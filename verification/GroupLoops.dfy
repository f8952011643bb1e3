/** When the grouping protocol can hide incidents behind a loop: exactly when the
    resolved parent relation has a cycle. */
module GroupLoops {
  import opened Dependencies
  import opened Graphs
  import opened IncidentGroups
  import opened Suppressor
  import opened Wrappers

  /** The nodes on the cycles through n. */
  ghost function Knot(rel: set<(Node, Node)>, n: Node): set<Node> {
    set x | x in Nodes(rel) && Reach(rel, n, x) && Reach(rel, x, n)
  }

  lemma NextInKnot(rel: set<(Node, Node)>, n: Node, x: Node) returns (y: Node)
    requires ReachPlus(rel, n, n) && x in Knot(rel, n)
    ensures y in Knot(rel, n) && (x, y) in rel
  {
    ReachCases(rel, x, n);
    y :| (x, y) in rel && Reach(rel, y, n);
    ReachSelf(rel, y);
    ReachStep(rel, x, y, y);
    ReachTrans(rel, n, x, y);
    assert (x, y).1 in Nodes(rel);
  }

  /** A parent for each node of the knot, in the knot. */
  ghost predicate Tied(rel: set<(Node, Node)>, knot: set<Node>, up: map<Node, Node>, x: Node) {
    x in up && up[x] in knot && (x, up[x]) in rel
  }

  ghost predicate Ties(rel: set<(Node, Node)>, knot: set<Node>, up: map<Node, Node>) {
    forall x {:trigger Tied(rel, knot, up, x)} :: x in knot ==> Tied(rel, knot, up, x)
  }

  lemma {:induction false} KnotTies(rel: set<(Node, Node)>, n: Node, part: set<Node>) returns (up: map<Node, Node>)
    requires ReachPlus(rel, n, n) && part <= Knot(rel, n)
    ensures forall x {:trigger Tied(rel, Knot(rel, n), up, x)} :: x in part ==> Tied(rel, Knot(rel, n), up, x)
    decreases part
  {
    up := map[];
    if x :| x in part {
      var rest := KnotTies(rel, n, part - {x});
      var y := NextInKnot(rel, n, x);
      up := rest[x := y];
      forall z | z in part ensures Tied(rel, Knot(rel, n), up, z) {
        if z != x { assert Tied(rel, Knot(rel, n), rest, z); }
      }
    }
  }

  /** A snapshot in which the parent alone is down names it as the root. */
  lemma StaleAnswer(snap0: Snapshot, x: Node, y: Node)
    requires (x, y) in ResolvedGraph(snap0)
    ensures Answers(ResolvedGraph(snap0), x, y)
  {
    var snap := snap0.(downHosts := if y.kind.Host? then {y.id} else {}, downMonitors := if y.kind.Monitor? then {y.id} else {});
    var g := DownGraph(snap);
    SameRelation(snap0, snap);
    assert forall a :: a in g ==> a.1 == y;
    NoSelfParent(snap, y);
    assert Terminal(g, y);
    ReachSelf(g, y);
    ReachStep(g, x, y, y);
    assert (x, y).1 in Nodes(g);
    forall r | r in Roots(g, x) ensures r == y {
      var m :| (x, m) in g && Reach(g, m, r);
      ReachCases(g, y, r);
    }
    assert Roots(g, x) == {y};
  }

  /** What the protocol needs to know of a resolved relation: any parent may be answered as
      the root, and no node is its own parent. */
  ghost predicate Pliant(rel: set<(Node, Node)>) {
    forall x, y :: (x, y) in rel ==> x != y && Answers(rel, x, y)
  }

  lemma ResolvedIsPliant(snap0: Snapshot)
    ensures Pliant(ResolvedGraph(snap0))
  {
    forall x, y | (x, y) in ResolvedGraph(snap0) ensures x != y && Answers(ResolvedGraph(snap0), x, y) {
      NoSelfParent(snap0, y);
      StaleAnswer(snap0, x, y);
    }
  }

  lemma SameRelation(a: Snapshot, b: Snapshot)
    requires a.edges == b.edges && a.hostLabels == b.hostLabels
    ensures ResolvedGraph(a) == ResolvedGraph(b)
  {
    forall c, p ensures (c, p) in ResolvedGraph(a) <==> (c, p) in ResolvedGraph(b) {
      ResolvedGraphIff(a, c, p);
      ResolvedGraphIff(b, c, p);
      assert forall e :: Resolves(e, a, c, p) == Resolves(e, b, c, p);
    }
    assert forall x :: x in ResolvedGraph(a) <==> (x.0, x.1) in ResolvedGraph(a);
  }

  function KeyOf(n: Node): Key {
    Key(if n.kind.Host? then HostSource else UptimeSource, n.id)
  }

  const PROJECT := 7

  function Silent(n: Node): Incident { Incident(n, true, PROJECT, true, None) }

  /** Every node of the knot has its open root-kind incident; those in done hang behind
      their parent's, the others behind nothing, and all groups are open. */
  ghost predicate Hanging(db: Db, knot: set<Node>, up: map<Node, Node>, done: set<Node>) {
    && (forall x :: x in knot ==> KeyOf(x) in db.incidents && db.incidents[KeyOf(x)].(groupID := None) == Silent(x))
    && (forall x :: x in knot && x !in done ==> db.incidents[KeyOf(x)].groupID.None?)
    && (forall x :: x in done ==> x in knot && x in up && InOpenGroup(db, KeyOf(x)) && Stand(db, KeyOf(x)) == KeyOf(up[x]))
    && (forall g :: g in db.groups ==>
          g < db.nextGroup && !db.groups[g].resolved && exists x :: x in knot && db.groups[g].root == KeyOf(x))
  }

  lemma KeysDiffer(x: Node, y: Node)
    requires KeyOf(x) == KeyOf(y)
    ensures x == y
  {
  }

  /** One more incident opens. */
  lemma OneOpens(rel: set<(Node, Node)>, path: seq<State>, knot: set<Node>, x: Node) returns (longer: seq<State>)
    requires Stretch(rel, path) && x !in knot && AllOpen(path[|path| - 1].db, knot)
    ensures Stretch(rel, longer) && longer[0] == path[0] && longer[|longer| - 1].pcs == path[|path| - 1].pcs
    ensures AllOpen(longer[|longer| - 1].db, knot + {x})
  {
    var s := path[|path| - 1];
    var db' := s.db.(incidents := s.db.incidents[KeyOf(x) := Silent(x)]);
    assert Opens(s.db, KeyOf(x), Silent(x), db');
    longer := Goes(rel, path, State(db', s.pcs));
  }

  /** The silent incidents of the knot, and nothing else. */
  ghost predicate AllOpen(db: Db, knot: set<Node>) {
    && db.groups == map[]
    && (forall x :: x in knot ==> KeyOf(x) in db.incidents && db.incidents[KeyOf(x)] == Silent(x))
    && (forall k :: k in db.incidents ==> exists x :: x in knot && k == KeyOf(x))
  }

  lemma {:induction false} KnotOpens(rel: set<(Node, Node)>, knot: set<Node>) returns (path: seq<State>)
    ensures Run(rel, path) && path[|path| - 1].pcs == map[1 := Idle] && AllOpen(path[|path| - 1].db, knot)
    decreases knot
  {
    if x :| x in knot {
      var shorter := KnotOpens(rel, knot - {x});
      path := OneOpens(rel, shorter, knot - {x}, x);
      assert knot - {x} + {x} == knot;
    } else {
      path := [State(Db(map[], map[], 1), map[1 := Idle])];
      assert knot == {};
    }
  }

  /** The five statements that hang a node's incident behind its parent's. */
  lemma Attaching(rel: set<(Node, Node)>, db: Db, knot: set<Node>, up: map<Node, Node>, done: set<Node>, x: Node)
    returns (db': Db, gid: int)
    requires Tied(rel, knot, up, x) && Answers(rel, x, up[x]) && x != up[x]
    requires Hanging(db, knot, up, done) && x in knot - done
    ensures var y := up[x]; var k, r := KeyOf(x), KeyOf(up[x]);
            && ActorStep(rel, db, Idle, db, Asked(k, y))
            && ActorStep(rel, db, Asked(k, y), db, Found(k, y, r, PROJECT))
            && ActorStep(rel, db, Found(k, y, r, PROJECT), db, Checked(k, y, r, PROJECT))
            && ActorStep(rel, db, Checked(k, y, r, PROJECT), db', Ensured(k, y, r, PROJECT, gid))
            && ActorStep(rel, db', Ensured(k, y, r, PROJECT, gid), SetGroup(db', PROJECT, k, gid), Idle)
            && Hanging(SetGroup(db', PROJECT, k, gid), knot, up, done + {x})
  {
    assert db.incidents[KeyOf(x)].(groupID := None) == Silent(x);
    assert db.incidents[KeyOf(up[x])].(groupID := None) == Silent(up[x]);
    db', gid := GroupFor(db, knot, up, done, up[x]);
    MemberHangs(db', knot, up, done, x, gid);
  }

  /** The attacher works on a node's incident, from a snapshot that holds only its parent for down. */
  lemma OneAttaches(rel: set<(Node, Node)>, path: seq<State>, knot: set<Node>, up: map<Node, Node>, done: set<Node>, x: Node)
    returns (longer: seq<State>)
    requires Pliant(rel) && Stretch(rel, path) && path[|path| - 1].pcs == map[1 := Idle]
    requires Ties(rel, knot, up) && Hanging(path[|path| - 1].db, knot, up, done) && x in knot - done
    ensures Stretch(rel, longer) && longer[0] == path[0] && longer[|longer| - 1].pcs == map[1 := Idle]
    ensures Hanging(longer[|longer| - 1].db, knot, up, done + {x})
  {
    hide ActorStep, Answers, Step;
    assert Tied(rel, knot, up, x);
    var db, y := path[|path| - 1].db, up[x];
    assert Answers(rel, x, y) && x != y;
    var db', gid := Attaching(rel, db, knot, up, done, x);
    longer := FiveStatements(rel, path, db', KeyOf(x), y, KeyOf(y), gid);
  }

  lemma FiveStatements(rel: set<(Node, Node)>, path: seq<State>, db': Db, k: Key, y: Node, r: Key, gid: int)
    returns (longer: seq<State>)
    requires Stretch(rel, path) && path[|path| - 1].pcs == map[1 := Idle]
    requires var db := path[|path| - 1].db;
             && ActorStep(rel, db, Idle, db, Asked(k, y))
             && ActorStep(rel, db, Asked(k, y), db, Found(k, y, r, PROJECT))
             && ActorStep(rel, db, Found(k, y, r, PROJECT), db, Checked(k, y, r, PROJECT))
             && ActorStep(rel, db, Checked(k, y, r, PROJECT), db', Ensured(k, y, r, PROJECT, gid))
             && ActorStep(rel, db', Ensured(k, y, r, PROJECT, gid), SetGroup(db', PROJECT, k, gid), Idle)
    ensures Stretch(rel, longer) && longer[0] == path[0]
    ensures longer[|longer| - 1] == State(SetGroup(db', PROJECT, k, gid), map[1 := Idle])
  {
    hide ActorStep, Step, SetGroup;
    var db := path[|path| - 1].db;
    longer := Acts(rel, path, 1, db, Asked(k, y));
    longer := Acts(rel, longer, 1, db, Found(k, y, r, PROJECT));
    longer := Acts(rel, longer, 1, db, Checked(k, y, r, PROJECT));
    longer := Acts(rel, longer, 1, db', Ensured(k, y, r, PROJECT, gid));
    longer := Acts(rel, longer, 1, SetGroup(db', PROJECT, k, gid), Idle);
  }

  lemma GroupFor(db: Db, knot: set<Node>, up: map<Node, Node>, done: set<Node>, y: Node) returns (db': Db, gid: int)
    requires Hanging(db, knot, up, done) && y in knot
    ensures EnsureGroup(db, PROJECT, KeyOf(y), y, db', gid) && Hanging(db', knot, up, done)
    ensures gid in db'.groups && !db'.groups[gid].resolved && db'.groups[gid].root == KeyOf(y)
  {
    if g :| g in db.groups && db.groups[g].root == KeyOf(y) {
      db', gid := db, g;
    } else {
      gid := db.nextGroup;
      db' := db.(groups := db.groups[gid := Group(PROJECT, KeyOf(y), y, false)], nextGroup := gid + 1);
    }
  }

  lemma MemberHangs(db: Db, knot: set<Node>, up: map<Node, Node>, done: set<Node>, x: Node, gid: int)
    requires Hanging(db, knot, up, done) && x in knot - done && x in up
    requires gid in db.groups && !db.groups[gid].resolved && db.groups[gid].root == KeyOf(up[x])
    ensures Hanging(SetGroup(db, PROJECT, KeyOf(x), gid), knot, up, done + {x})
  {
    var db' := SetGroup(db, PROJECT, KeyOf(x), gid);
    assert Eligible(db, PROJECT, KeyOf(x)) by {
      assert db.incidents[KeyOf(x)].(groupID := None).project == PROJECT;
    }
    forall z | z in knot ensures z != x ==> KeyOf(z) != KeyOf(x) {
      if KeyOf(z) == KeyOf(x) { KeysDiffer(z, x); }
    }
  }

  lemma {:induction false} KnotAttaches(rel: set<(Node, Node)>, path: seq<State>, knot: set<Node>, up: map<Node, Node>, done: set<Node>)
    returns (longer: seq<State>)
    requires Pliant(rel) && Stretch(rel, path) && path[|path| - 1].pcs == map[1 := Idle] && done <= knot
    requires Ties(rel, knot, up) && Hanging(path[|path| - 1].db, knot, up, done)
    ensures Stretch(rel, longer) && longer[0] == path[0]
    ensures Hanging(longer[|longer| - 1].db, knot, up, knot)
    decreases knot - done
  {
    if x :| x in knot - done {
      longer := OneAttaches(rel, path, knot, up, done, x);
      longer := KnotAttaches(rel, longer, knot, up, done + {x});
    } else {
      assert forall x :: x in knot ==> x !in knot - done;
      assert done == knot;
      longer := path;
    }
  }

  /** Each incident of the knot hides behind the next, so no chain from one ends, and a sweep finds nothing to close. */
  lemma NoChainEnds(rel: set<(Node, Node)>, db: Db, knot: set<Node>, up: map<Node, Node>, n: Node)
    requires Hanging(db, knot, up, knot) && n in knot && Ties(rel, knot, up)
    ensures Sweep(db) == db && !Spoken(db, KeyOf(n))
  {
    forall g | g in db.groups ensures Sweep(db).groups[g] == db.groups[g] {
      var x :| x in knot && db.groups[g].root == KeyOf(x);
      assert db.incidents[KeyOf(x)].(groupID := None).open;
    }
    assert Sweep(db).groups == db.groups;
    forall chain ensures !SpokenFor(db, chain, KeyOf(n)) {
      if SpokenFor(db, chain, KeyOf(n)) {
        var i, at := 0, n;
        while i < |chain| - 1
          invariant 0 <= i <= |chain| - 1 && at in knot && chain[i] == KeyOf(at)
        {
          assert Tied(rel, knot, up, at);
          i, at := i + 1, up[at];
        }
      }
    }
  }

  /** Whatever the cycle: its silent incidents, each attached on a snapshot that misses all
      outages but its parent's, hide each other, and the sweep does not help. */
  lemma EveryCycleHides(rel: set<(Node, Node)>, n: Node) returns (run: seq<State>)
    requires Pliant(rel) && ReachPlus(rel, n, n)
    ensures Run(rel, run) && Stranded(run, KeyOf(n))
  {
    hide ReachPlus, Pliant, Step;
    var knot := Knot(rel, n);
    var up := KnotTies(rel, n, knot);
    NInKnot(rel, n);
    hide Knot;
    run := KnotOpens(rel, knot);
    run := KnotAttaches(rel, run, knot, up, {});
    var db := run[|run| - 1].db;
    NoChainEnds(rel, db, knot, up, n);
    assert db.incidents[KeyOf(n)].(groupID := None).open;
  }

  /** An open incident that after a sweep no chain speaks for. */
  ghost predicate Stranded(run: seq<State>, m: Key)
    requires |run| > 0
  {
    var db := run[|run| - 1].db;
    m in db.incidents && db.incidents[m].open && !Spoken(Sweep(db), m)
  }

  lemma NInKnot(rel: set<(Node, Node)>, n: Node)
    requires ReachPlus(rel, n, n)
    ensures n in Knot(rel, n)
  {
    ReachPlusInNodes(rel, n, n);
    ReachSelf(rel, n);
  }

  /** Every run and one sweep leave every open incident spoken for. */
  ghost predicate NeverHides(rel: set<(Node, Node)>) {
    forall run, m :: Run(rel, run) ==> !Stranded(run, m)
  }

  /** For every relation that edges and labels can resolve to: nothing is ever hidden behind
      a loop if and only if the relation has none. */
  lemma HidesExactlyOnCycles(snap: Snapshot)
    ensures NeverHides(ResolvedGraph(snap)) <==> Acyclic(ResolvedGraph(snap))
  {
    var rel := ResolvedGraph(snap);
    ResolvedIsPliant(snap);
    hide ResolvedGraph, Pliant, Step;
    if Acyclic(rel) {
      forall run, m | Run(rel, run) ensures !Stranded(run, m) {
        if Stranded(run, m) { NothingHiddenBehindALoop(rel, run, m); }
      }
    } else {
      var n :| ReachPlus(rel, n, n);
      var run := EveryCycleHides(rel, n);
    }
  }

  // ----- the smallest case -----

  const HOST_A := Node(Host, 1)
  const HOST_B := Node(Host, 2)

  /** Host 1 is the stored parent of host 2; a label edge makes host 2 a parent of
      host 1. The cycle check sees only the first. */
  const LABEL_LOOP := Snapshot(
    [Edge(1, 7, Some(1), None, Some(2), None, None, None),
     Edge(2, 7, Some(2), None, None, None, Some("role"), Some("db"))],
    {}, {}, map[1 := HostLabels(7, "prod", "db"), 2 := HostLabels(7, "prod", "web")])

  lemma LabelLoopRelation()
    ensures ResolvedGraph(LABEL_LOOP) == {(HOST_B, HOST_A), (HOST_A, HOST_B)}
  {
    var snap := LABEL_LOOP;
    forall c, p ensures (c, p) in ResolvedGraph(snap) <==> (c, p) in {(HOST_B, HOST_A), (HOST_A, HOST_B)} {
      ResolvedGraphIff(snap, c, p);
      assert snap.edges[0] in snap.edges && snap.edges[1] in snap.edges;
    }
  }

  /** One stored edge and one label edge are enough. */
  lemma CyclicRelationCanHideForever() returns (run: seq<State>)
    ensures ResolvedGraph(LABEL_LOOP) == {(HOST_B, HOST_A), (HOST_A, HOST_B)}
    ensures Run(ResolvedGraph(LABEL_LOOP), run) && Stranded(run, KeyOf(HOST_A))
  {
    hide ResolvedGraph, Pliant, Step;
    var rel := ResolvedGraph(LABEL_LOOP);
    LabelLoopRelation();
    ReachSelf(rel, HOST_A);
    ReachStep(rel, HOST_B, HOST_A, HOST_A);
    ReachStep(rel, HOST_A, HOST_B, HOST_A);
    ResolvedIsPliant(LABEL_LOOP);
    run := EveryCycleHides(rel, HOST_A);
  }
}
