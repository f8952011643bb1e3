/** Incident groups: a member is hidden behind the incident of its top-most down
    ancestor. The statements of the group store are the atomic steps; any number
    of attachers, retro-attachers and janitors interleave them. */
module IncidentGroups {
  import opened Dependencies
  import opened Graphs
  import opened Suppressor
  import opened Wrappers

  datatype Source = HostSource | UptimeSource | MetricSource | SloSource

  datatype Key = Key(source: Source, id: int)

  /** rootKind: the incident that says "the node itself is down", a silent host or
      a monitor's downtime; at most one of these is open on a node. */
  datatype Incident = Incident(node: Node, rootKind: bool, project: int, open: bool, groupID: Option<int>)

  datatype Group = Group(project: int, root: Key, rootNode: Node, resolved: bool)

  datatype Db = Db(incidents: map<Key, Incident>, groups: map<int, Group>, nextGroup: int)

  // ----- the atomic statements -----

  predicate InOpenGroup(db: Db, k: Key) {
    && k in db.incidents && db.incidents[k].groupID.Some?
    && db.incidents[k].groupID.value in db.groups
    && !db.groups[db.incidents[k].groupID.value].resolved
  }

  /** The open incident that makes a node a root; no row when it has closed since. */
  predicate IsRootIncident(db: Db, n: Node, k: Key) {
    k in db.incidents && db.incidents[k].open && db.incidents[k].rootKind && db.incidents[k].node == n
  }

  predicate Eligible(db: Db, project: int, k: Key) {
    k in db.incidents && db.incidents[k].project == project && !InOpenGroup(db, k)
  }

  /** INSERT .. ON CONFLICT (root) DO NOTHING, then read the winner. */
  predicate EnsureGroup(db: Db, project: int, root: Key, rootNode: Node, db': Db, gid: int) {
    if exists g :: g in db.groups && db.groups[g].root == root then
      gid in db.groups && db.groups[gid].root == root && db' == db
    else
      && gid == db.nextGroup
      && db' == db.(groups := db.groups[gid := Group(project, root, rootNode, false)], nextGroup := gid + 1)
  }

  function SetGroup(db: Db, project: int, k: Key, gid: int): Db {
    if Eligible(db, project, k)
    then db.(incidents := db.incidents[k := db.incidents[k].(groupID := Some(gid))])
    else db
  }

  function Resolve(db: Db, root: Key): Db {
    db.(groups := map g | g in db.groups ::
      if db.groups[g].root == root then db.groups[g].(resolved := true) else db.groups[g])
  }

  /** Closes every open group whose root incident is no longer open. */
  function Sweep(db: Db): Db {
    db.(groups := map g | g in db.groups ::
      if db.groups[g].root in db.incidents && db.incidents[db.groups[g].root].open
      then db.groups[g] else db.groups[g].(resolved := true))
  }

  /** Old resolved groups without open members may go. */
  predicate Purgeable(db: Db, gids: set<int>) {
    forall g :: g in gids && g in db.groups ==>
      db.groups[g].resolved && forall k :: k in db.incidents && db.incidents[k].groupID == Some(g) ==> !db.incidents[k].open
  }

  function Close(db: Db, k: Key): Db {
    if k in db.incidents then db.(incidents := db.incidents[k := db.incidents[k].(open := false)]) else db
  }

  /** A new incident; the partial unique index refuses a second open root-kind one on a node. */
  ghost predicate Opens(db: Db, k: Key, i: Incident, db': Db) {
    && k !in db.incidents && i.open && i.groupID.None?
    && (i.rootKind ==> forall o :: !IsRootIncident(db, i.node, o))
    && db' == db.(incidents := db.incidents[k := i])
  }

  // ----- the protocol -----

  /** Where an actor stands between two statements. Attach: Asked, Found, Checked,
      Ensured. OnRootOpened: Retro, Matched, RetroEnsured. */
  datatype Pc =
    | Idle
    | Asked(member: Key, rootNode: Node)
    | Found(member: Key, rootNode: Node, root: Key, project: int)
    | Checked(member: Key, rootNode: Node, root: Key, project: int)
    | Ensured(member: Key, rootNode: Node, root: Key, project: int, gid: int)
    | Retro(rootNode: Node, root: Key, project: int, grp: Option<int>)
    | Matched(rootNode: Node, root: Key, project: int, grp: Option<int>, member: Key)
    | RetroEnsured(rootNode: Node, root: Key, project: int, gid: int, member: Key)

  datatype State = State(db: Db, pcs: map<int, Pc>)

  /** DownRoot answers from some snapshot of the fixed relation, as stale as it likes:
      nothing is assumed about which nodes it holds for down. */
  ghost predicate Answers(rel: set<(Node, Node)>, n: Node, root: Node) {
    exists snap :: ResolvedGraph(snap) == rel && DownRoot(snap, n) == Some(root)
  }

  ghost predicate ActorStep(rel: set<(Node, Node)>, db: Db, pc: Pc, db': Db, pc': Pc) {
    match pc
    case Idle =>
      db' == db &&
      match pc' {
        case Asked(member, rootNode) => member in db.incidents && Answers(rel, db.incidents[member].node, rootNode)
        case Retro(rootNode, root, _, grp) => IsRootIncident(db, rootNode, root) && grp.None?
        case _ => false
      }
    case Asked(member, rootNode) =>
      && db' == db && pc'.Found? && pc'.member == member && pc'.rootNode == rootNode
      && IsRootIncident(db, rootNode, pc'.root) && pc'.root != member
      && pc'.project == db.incidents[pc'.root].project
    case Found(member, rootNode, root, project) =>
      db' == db && Eligible(db, project, member) && pc' == Checked(member, rootNode, root, project)
    case Checked(member, rootNode, root, project) =>
      && pc'.Ensured? && pc' == Ensured(member, rootNode, root, project, pc'.gid)
      && EnsureGroup(db, project, root, rootNode, db', pc'.gid) && !db'.groups[pc'.gid].resolved
    case Ensured(member, rootNode, root, project, gid) =>
      db' == SetGroup(db, project, member, gid) && pc' == Idle
    case Retro(rootNode, root, project, grp) =>
      && db' == db && pc'.Matched? && pc' == Matched(rootNode, root, project, grp, pc'.member)
      && pc'.member in db.incidents && pc'.member != root
      && Answers(rel, db.incidents[pc'.member].node, rootNode)
    case Matched(rootNode, root, project, grp, member) =>
      && pc'.RetroEnsured? && pc' == RetroEnsured(rootNode, root, project, pc'.gid, member)
      && (if grp.Some? then db' == db && pc'.gid == grp.value
          else EnsureGroup(db, project, root, rootNode, db', pc'.gid) && !db'.groups[pc'.gid].resolved)
    case RetroEnsured(rootNode, root, project, gid, member) =>
      db' == SetGroup(db, project, member, gid) && pc' == Retro(rootNode, root, project, Some(gid))
  }

  ghost predicate EnvironmentStep(db: Db, db': Db) {
    || (exists k, i :: Opens(db, k, i, db'))
    || (exists k :: db' == Close(db, k))
    || (exists root :: db' == Resolve(db, root))
    || db' == Sweep(db)
    || (exists gids :: Purgeable(db, gids) && db' == db.(groups := db.groups - gids))
  }

  /** One actor takes a statement, gives up (any error, any early return, a
      crash), or the world around them moves. */
  ghost predicate Step(rel: set<(Node, Node)>, s: State, s': State) {
    || (exists a, pc' :: a in s.pcs && ActorStep(rel, s.db, s.pcs[a], s'.db, pc') && s'.pcs == s.pcs[a := pc'])
    || (exists a :: a in s.pcs && s'.db == s.db && s'.pcs == s.pcs[a := Idle])
    || (EnvironmentStep(s.db, s'.db) && s'.pcs == s.pcs)
  }

  ghost predicate Start(s: State) {
    s.db == Db(map[], map[], 1) && forall a :: a in s.pcs ==> s.pcs[a] == Idle
  }

  ghost predicate Run(rel: set<(Node, Node)>, run: seq<State>) {
    |run| > 0 && Start(run[0]) && forall i :: 0 <= i < |run| - 1 ==> Step(rel, run[i], run[i + 1])
  }

  /** A stretch of a run, from any state. */
  ghost predicate Stretch(rel: set<(Node, Node)>, path: seq<State>) {
    |path| > 0 && forall i :: 0 <= i < |path| - 1 ==> Step(rel, path[i], path[i + 1])
  }

  lemma Goes(rel: set<(Node, Node)>, path: seq<State>, s': State) returns (longer: seq<State>)
    requires Stretch(rel, path) && Step(rel, path[|path| - 1], s')
    ensures Stretch(rel, longer) && longer[0] == path[0] && longer[|longer| - 1] == s'
  {
    hide Step;
    longer := path + [s'];
    forall i | 0 <= i < |longer| - 1 ensures Step(rel, longer[i], longer[i + 1]) {
      if i < |path| - 1 { assert longer[i] == path[i] && longer[i + 1] == path[i + 1]; }
    }
  }

  /** A stretch goes on with one statement of actor a. */
  lemma Acts(rel: set<(Node, Node)>, path: seq<State>, a: int, db': Db, pc': Pc) returns (longer: seq<State>)
    requires Stretch(rel, path)
    requires var s := path[|path| - 1]; a in s.pcs && ActorStep(rel, s.db, s.pcs[a], db', pc')
    ensures var s := path[|path| - 1];
            Stretch(rel, longer) && longer[0] == path[0] && longer[|longer| - 1] == State(db', s.pcs[a := pc'])
  {
    var s := path[|path| - 1];
    longer := Goes(rel, path, State(db', s.pcs[a := pc']));
  }

  lemma GivesUp(rel: set<(Node, Node)>, path: seq<State>, a: int) returns (longer: seq<State>)
    requires Stretch(rel, path) && a in path[|path| - 1].pcs
    ensures var s := path[|path| - 1];
            Stretch(rel, longer) && longer[0] == path[0] && longer[|longer| - 1] == State(s.db, s.pcs[a := Idle])
  {
    var s := path[|path| - 1];
    longer := Goes(rel, path, State(s.db, s.pcs[a := Idle]));
  }

  // ----- the invariant -----

  /** root may stand for member: another incident, on the same node or on one
      strictly above it, and of the root kind. */
  ghost predicate Linked(rel: set<(Node, Node)>, db: Db, member: Key, root: Key) {
    && member in db.incidents && root in db.incidents && member != root
    && db.incidents[root].rootKind
    && var m, r := db.incidents[member].node, db.incidents[root].node;
       m == r || ReachPlus(rel, m, r)
  }

  ghost predicate RootAt(db: Db, root: Key, rootNode: Node) {
    root in db.incidents && db.incidents[root].rootKind && db.incidents[root].node == rootNode
  }

  ghost predicate MayHold(db: Db, root: Key, gid: int) {
    gid < db.nextGroup && (gid in db.groups ==> db.groups[gid].root == root)
  }

  ghost predicate PcInv(rel: set<(Node, Node)>, db: Db, pc: Pc) {
    match pc
    case Idle => true
    case Asked(member, rootNode) =>
      member in db.incidents && (db.incidents[member].node == rootNode || ReachPlus(rel, db.incidents[member].node, rootNode))
    case Found(member, rootNode, root, _) => Linked(rel, db, member, root) && RootAt(db, root, rootNode)
    case Checked(member, rootNode, root, _) => Linked(rel, db, member, root) && RootAt(db, root, rootNode)
    case Ensured(member, rootNode, root, _, gid) => Linked(rel, db, member, root) && MayHold(db, root, gid)
    case Retro(rootNode, root, _, grp) => RootAt(db, root, rootNode) && (grp.Some? ==> MayHold(db, root, grp.value))
    case Matched(rootNode, root, _, grp, member) =>
      Linked(rel, db, member, root) && RootAt(db, root, rootNode) && (grp.Some? ==> MayHold(db, root, grp.value))
    case RetroEnsured(rootNode, root, _, gid, member) =>
      Linked(rel, db, member, root) && RootAt(db, root, rootNode) && MayHold(db, root, gid)
  }

  ghost predicate DbInv(rel: set<(Node, Node)>, db: Db) {
    && (forall g :: g in db.groups ==> g < db.nextGroup && RootAt(db, db.groups[g].root, db.groups[g].rootNode))
    && (forall k :: k in db.incidents && db.incidents[k].groupID.Some? ==>
          var g := db.incidents[k].groupID.value;
          g < db.nextGroup && (g in db.groups ==> Linked(rel, db, k, db.groups[g].root)))
    && (forall n, a, b :: IsRootIncident(db, n, a) && IsRootIncident(db, n, b) ==> a == b)
  }

  ghost predicate Inv(rel: set<(Node, Node)>, s: State) {
    DbInv(rel, s.db) && forall a :: a in s.pcs ==> PcInv(rel, s.db, s.pcs[a])
  }

  /** What every statement leaves alone: incidents stay, never reopen, and keep
      node, kind and project; group ids are never reused. */
  ghost predicate Grows(db: Db, db': Db) {
    && db.nextGroup <= db'.nextGroup
    && (forall k :: k in db.incidents ==>
          (k in db'.incidents
           && db'.incidents[k].(groupID := None, open := false) == db.incidents[k].(groupID := None, open := false)))
    && (forall g :: g in db'.groups && g < db.nextGroup ==> g in db.groups && db'.groups[g].root == db.groups[g].root)
  }

  lemma PcInvGrows(rel: set<(Node, Node)>, db: Db, db': Db, pc: Pc)
    requires PcInv(rel, db, pc) && Grows(db, db')
    ensures PcInv(rel, db', pc)
  {
  }

  lemma AnswerIsHigher(rel: set<(Node, Node)>, n: Node, root: Node)
    requires Answers(rel, n, root)
    ensures root == n || ReachPlus(rel, n, root)
  {
    var snap :| ResolvedGraph(snap) == rel && DownRoot(snap, n) == Some(root);
    DownRootProperties(snap, n);
    if root != n {
      var m :| (n, m) in DownGraph(snap) && Reach(DownGraph(snap), m, root);
      ReachMonotone(DownGraph(snap), rel, m, root);
      ReachStep(rel, n, m, root);
    }
  }

  lemma SetGroupKeeps(rel: set<(Node, Node)>, db: Db, project: int, member: Key, root: Key, gid: int)
    requires DbInv(rel, db) && Linked(rel, db, member, root) && MayHold(db, root, gid)
    ensures DbInv(rel, SetGroup(db, project, member, gid)) && Grows(db, SetGroup(db, project, member, gid))
  {
    var db' := SetGroup(db, project, member, gid);
    assert Grows(db, db');
    forall n, a | IsRootIncident(db', n, a) ensures IsRootIncident(db, n, a) {}
  }

  lemma EnsureGroupKeeps(rel: set<(Node, Node)>, db: Db, project: int, root: Key, rootNode: Node, db': Db, gid: int)
    requires DbInv(rel, db) && RootAt(db, root, rootNode) && EnsureGroup(db, project, root, rootNode, db', gid)
    ensures DbInv(rel, db') && Grows(db, db') && MayHold(db', root, gid)
  {
    assert Grows(db, db');
    forall n, a | IsRootIncident(db', n, a) ensures IsRootIncident(db, n, a) {}
  }

  lemma ActorStepKeeps(rel: set<(Node, Node)>, db: Db, pc: Pc, db': Db, pc': Pc)
    requires DbInv(rel, db) && PcInv(rel, db, pc) && ActorStep(rel, db, pc, db', pc')
    ensures DbInv(rel, db') && Grows(db, db') && PcInv(rel, db', pc')
  {
    match pc
    case Idle =>
      if pc'.Asked? { AnswerIsHigher(rel, db.incidents[pc'.member].node, pc'.rootNode); }
    case Asked(_, _) =>
    case Found(_, _, _, _) =>
    case Checked(member, rootNode, root, project) =>
      EnsureGroupKeeps(rel, db, project, root, rootNode, db', pc'.gid);
      PcInvGrows(rel, db, db', pc);
    case Ensured(member, _, root, project, gid) => SetGroupKeeps(rel, db, project, member, root, gid);
    case Retro(rootNode, _, _, _) =>
      AnswerIsHigher(rel, db.incidents[pc'.member].node, rootNode);
    case Matched(rootNode, root, project, grp, member) =>
      if grp.None? {
        EnsureGroupKeeps(rel, db, project, root, rootNode, db', pc'.gid);
        PcInvGrows(rel, db, db', pc);
      }
    case RetroEnsured(_, root, project, gid, member) =>
      SetGroupKeeps(rel, db, project, member, root, gid);
      PcInvGrows(rel, db, db', pc);
  }

  lemma OpensKeeps(rel: set<(Node, Node)>, db: Db, k: Key, i: Incident, db': Db)
    requires DbInv(rel, db) && Opens(db, k, i, db')
    ensures DbInv(rel, db') && Grows(db, db')
  {
    assert Grows(db, db');
    forall n, a | IsRootIncident(db', n, a) ensures IsRootIncident(db, n, a) || (a == k && i.rootKind && i.node == n) {}
  }

  lemma CloseKeeps(rel: set<(Node, Node)>, db: Db, k: Key)
    requires DbInv(rel, db)
    ensures DbInv(rel, Close(db, k)) && Grows(db, Close(db, k))
  {
    var db' := Close(db, k);
    assert Grows(db, db');
    forall n, a | IsRootIncident(db', n, a) ensures IsRootIncident(db, n, a) {}
  }

  lemma GroupsOnlyKeeps(rel: set<(Node, Node)>, db: Db, db': Db)
    requires DbInv(rel, db) && db'.incidents == db.incidents && db'.nextGroup == db.nextGroup
    requires forall g :: g in db'.groups ==> g in db.groups && db'.groups[g].(resolved := true) == db.groups[g].(resolved := true)
    ensures DbInv(rel, db') && Grows(db, db')
  {
    assert Grows(db, db');
    forall g | g in db'.groups
      ensures db'.groups[g].root == db.groups[g].root && db'.groups[g].rootNode == db.groups[g].rootNode
    {
      assert db'.groups[g].(resolved := true).root == db.groups[g].(resolved := true).root;
      assert db'.groups[g].(resolved := true).rootNode == db.groups[g].(resolved := true).rootNode;
    }
    forall n, a | IsRootIncident(db', n, a) ensures IsRootIncident(db, n, a) {}
  }

  lemma EnvironmentStepKeeps(rel: set<(Node, Node)>, db: Db, db': Db)
    requires DbInv(rel, db) && EnvironmentStep(db, db')
    ensures DbInv(rel, db') && Grows(db, db')
  {
    if k, i :| Opens(db, k, i, db') {
      OpensKeeps(rel, db, k, i, db');
    } else if k :| db' == Close(db, k) {
      CloseKeeps(rel, db, k);
    } else {
      GroupsOnlyKeeps(rel, db, db');
    }
  }

  lemma StepKeepsInv(rel: set<(Node, Node)>, s: State, s': State)
    requires Inv(rel, s) && Step(rel, s, s')
    ensures Inv(rel, s')
  {
    if a, pc' :| a in s.pcs && ActorStep(rel, s.db, s.pcs[a], s'.db, pc') && s'.pcs == s.pcs[a := pc'] {
      ActorStepKeeps(rel, s.db, s.pcs[a], s'.db, pc');
      OthersKeep(rel, s, s', a);
    } else if a :| a in s.pcs && s'.db == s.db && s'.pcs == s.pcs[a := Idle] {
    } else {
      EnvironmentStepKeeps(rel, s.db, s'.db);
      forall b | b in s'.pcs ensures PcInv(rel, s'.db, s'.pcs[b]) {
        PcInvGrows(rel, s.db, s'.db, s.pcs[b]);
      }
    }
  }

  lemma OthersKeep(rel: set<(Node, Node)>, s: State, s': State, a: int)
    requires Inv(rel, s) && Grows(s.db, s'.db)
    requires a in s.pcs && a in s'.pcs && s'.pcs == s.pcs[a := s'.pcs[a]]
    ensures forall b :: b in s'.pcs && b != a ==> PcInv(rel, s'.db, s'.pcs[b])
  {
    forall b | b in s'.pcs && b != a ensures PcInv(rel, s'.db, s'.pcs[b]) {
      PcInvGrows(rel, s.db, s'.db, s.pcs[b]);
    }
  }

  /** Every assignment in every interleaving points strictly upwards or to the
      node's own root-kind incident. */
  lemma {:induction false} EveryRunKeepsInv(rel: set<(Node, Node)>, run: seq<State>)
    requires Run(rel, run)
    ensures Inv(rel, run[|run| - 1])
    decreases |run|
  {
    if |run| > 1 {
      var head := run[..|run| - 1];
      EveryRunKeepsInv(rel, head);
      assert Step(rel, run[|run| - 2], run[|run| - 2 + 1]);
      StepKeepsInv(rel, run[|run| - 2], run[|run| - 1]);
    }
  }

  // ----- first wins, and within one project -----

  /** k's group is g, and g is there and not resolved. */
  ghost predicate MemberOf(db: Db, k: Key, g: int) {
    k in db.incidents && db.incidents[k].groupID == Some(g) && g in db.groups && !db.groups[g].resolved
  }

  /** No statement of anybody moves a member of a group that is not resolved. */
  lemma MembersStay(rel: set<(Node, Node)>, s: State, s': State, k: Key, g: int)
    requires Step(rel, s, s') && MemberOf(s.db, k, g)
    ensures k in s'.db.incidents && s'.db.incidents[k].groupID == Some(g)
  {
  }

  /** So in any run an incident leaves a group only after that group was resolved or purged. */
  lemma {:induction false} FirstGroupWins(rel: set<(Node, Node)>, path: seq<State>, i: nat, j: nat, k: Key, g: int)
    returns (m: nat)
    requires Stretch(rel, path) && i <= j < |path| && MemberOf(path[i].db, k, g)
    requires k in path[j].db.incidents ==> path[j].db.incidents[k].groupID != Some(g)
    ensures i < m < j && k in path[m].db.incidents && path[m].db.incidents[k].groupID == Some(g)
    ensures g !in path[m].db.groups || path[m].db.groups[g].resolved
    decreases j - i
  {
    hide Step;
    assert Step(rel, path[i], path[i + 1]);
    MembersStay(rel, path[i], path[i + 1], k, g);
    if MemberOf(path[i + 1].db, k, g) {
      m := FirstGroupWins(rel, path, i + 1, j, k, g);
    } else {
      m := i + 1;
    }
  }

  /** And an incident's group changes only by an actor at work on that incident and on the
      incident's own project. */
  lemma OnlyWithinTheProject(rel: set<(Node, Node)>, s: State, s': State, k: Key)
    requires Step(rel, s, s') && k in s.db.incidents
    ensures k in s'.db.incidents
    ensures s'.db.incidents[k].groupID != s.db.incidents[k].groupID ==>
              exists a :: a in s.pcs && (s.pcs[a].Ensured? || s.pcs[a].RetroEnsured?) && s.pcs[a].member == k
                          && s.pcs[a].project == s.db.incidents[k].project
                          && s'.db.incidents[k].groupID == Some(s.pcs[a].gid)
  {
  }

  /** An actor takes an incident for a root only while it is open, of the root kind and on
      that node, and never for its own. */
  lemma RootsAreOpenWhenTaken(rel: set<(Node, Node)>, s: State, s': State, a: int)
    requires Step(rel, s, s') && a in s.pcs && a in s'.pcs
    requires (s.pcs[a].Asked? && s'.pcs[a].Found?) || (s.pcs[a].Idle? && s'.pcs[a].Retro?)
    ensures var pc := s'.pcs[a];
            && pc.root in s.db.incidents && s.db.incidents[pc.root].open && s.db.incidents[pc.root].rootKind
            && s.db.incidents[pc.root].node == pc.rootNode
            && (pc.Found? ==> pc.root != pc.member && pc.project == s.db.incidents[pc.root].project)
  {
  }

  ghost predicate ResolvedNow(s: State, s': State, g: int) {
    g in s.db.groups && g in s'.db.groups && !s.db.groups[g].resolved && s'.db.groups[g].resolved
  }

  ghost predicate RootOpen(db: Db, g: int)
    requires g in db.groups
  {
    db.groups[g].root in db.incidents && db.incidents[db.groups[g].root].open
  }

  /** No statement resolves the groups of two open roots, none reopens a group, and none
      removes one that is not resolved or still has an open member. */
  lemma GroupsEndWithTheirRoot(rel: set<(Node, Node)>, s: State, s': State, g: int, h: int)
    requires Inv(rel, s) && Step(rel, s, s') && g in s.db.groups && h in s.db.groups
    ensures ResolvedNow(s, s', g) && ResolvedNow(s, s', h) && RootOpen(s.db, g) && RootOpen(s.db, h) ==>
              s.db.groups[g].root == s.db.groups[h].root
    ensures g in s'.db.groups && s.db.groups[g].resolved ==> s'.db.groups[g].resolved
    ensures g !in s'.db.groups ==>
              && s.db.groups[g].resolved
              && forall k :: k in s.db.incidents && s.db.incidents[k].groupID == Some(g) ==> !s.db.incidents[k].open
  {
  }

  // ----- nothing is hidden behind a loop -----

  /** The incident that stands for k while k is a member of an open group. */
  function Stand(db: Db, k: Key): Key
    requires InOpenGroup(db, k)
  {
    db.groups[db.incidents[k].groupID.value].root
  }

  /** From m to the incident that finally speaks for it: each is open and hidden by
      the next, the last is open and hidden by none. */
  ghost predicate SpokenFor(db: Db, chain: seq<Key>, m: Key) {
    && |chain| > 0 && chain[0] == m
    && (forall i :: 0 <= i < |chain| ==> chain[i] in db.incidents && db.incidents[chain[i]].open)
    && (forall i :: 0 <= i < |chain| - 1 ==> InOpenGroup(db, chain[i]) && chain[i + 1] == Stand(db, chain[i]))
    && !InOpenGroup(db, chain[|chain| - 1])
  }

  ghost predicate Spoken(db: Db, m: Key) {
    exists chain :: SpokenFor(db, chain, m)
  }

  ghost predicate Swept(db: Db) {
    forall g :: g in db.groups && !db.groups[g].resolved ==>
      db.groups[g].root in db.incidents && db.incidents[db.groups[g].root].open
  }

  lemma SweepSweeps(db: Db)
    ensures Swept(Sweep(db))
  {
  }

  /** One step up: an open member of a swept group has an open stand-in, on a node
      strictly above it or on the same node with m not of the root kind. */
  lemma StandIsHigher(rel: set<(Node, Node)>, db: Db, m: Key)
    requires DbInv(rel, db) && Swept(db) && InOpenGroup(db, m) && db.incidents[m].open
    ensures var r := Stand(db, m);
            && r in db.incidents && db.incidents[r].open && db.incidents[r].rootKind
            && (ReachPlus(rel, db.incidents[m].node, db.incidents[r].node)
                || (db.incidents[m].node == db.incidents[r].node && !db.incidents[m].rootKind))
  {
    var r := Stand(db, m);
    assert Linked(rel, db, m, r);
    if db.incidents[m].node == db.incidents[r].node && db.incidents[m].rootKind {
      assert IsRootIncident(db, db.incidents[m].node, m) && IsRootIncident(db, db.incidents[m].node, r);
    }
  }

  lemma {:induction false} ChainEnds(rel: set<(Node, Node)>, db: Db, m: Key) returns (chain: seq<Key>)
    requires Acyclic(rel) && DbInv(rel, db) && Swept(db)
    requires m in db.incidents && db.incidents[m].open
    ensures SpokenFor(db, chain, m)
    decreases |Above(rel, db.incidents[m].node)|, !db.incidents[m].rootKind
  {
    if !InOpenGroup(db, m) {
      chain := [m];
    } else {
      StandIsHigher(rel, db, m);
      var r := Stand(db, m);
      if db.incidents[m].node != db.incidents[r].node || db.incidents[m].rootKind {
        AboveShrinks(rel, db.incidents[m].node, db.incidents[r].node);
      }
      var rest := ChainEnds(rel, db, r);
      chain := [m] + rest;
    }
  }

  /** On an acyclic relation, after any interleaving and one sweep, every open
      incident is spoken for by an open incident that nothing hides. */
  lemma NothingHiddenBehindALoop(rel: set<(Node, Node)>, run: seq<State>, m: Key)
    requires Acyclic(rel) && Run(rel, run)
    requires m in run[|run| - 1].db.incidents && run[|run| - 1].db.incidents[m].open
    ensures Spoken(Sweep(run[|run| - 1].db), m)
  {
    var db := run[|run| - 1].db;
    EveryRunKeepsInv(rel, run);
    assert EnvironmentStep(db, Sweep(db));
    EnvironmentStepKeeps(rel, db, Sweep(db));
    SweepSweeps(db);
    var chain := ChainEnds(rel, Sweep(db), m);
  }
}
