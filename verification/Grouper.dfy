/** Attach and OnRootOpened as the code runs them when nothing interleaves. */
module Grouper {
  import opened Dependencies
  import opened IncidentGroups
  import opened Suppressor
  import opened Wrappers

  /** The two unique indexes: one group per root incident, one open root-kind incident per node. */
  ghost predicate Unique(db: Db) {
    && (forall g, h :: g in db.groups && h in db.groups && db.groups[g].root == db.groups[h].root ==> g == h)
    && (forall n, a, b :: IsRootIncident(db, n, a) && IsRootIncident(db, n, b) ==> a == b)
    && (forall g :: g in db.groups ==> g < db.nextGroup)
    && (forall k :: k in db.incidents && db.incidents[k].groupID.Some? ==> db.incidents[k].groupID.value < db.nextGroup)
  }

  ghost predicate GroupClosed(db: Db, root: Key) {
    exists g :: g in db.groups && db.groups[g].root == root && db.groups[g].resolved
  }

  /** k belongs behind root: root is the incident of its top-most down ancestor and is not k. */
  ghost predicate Behind(db: Db, snap: Snapshot, k: Key, root: Key) {
    && k in db.incidents && root != k
    && DownRoot(snap, db.incidents[k].node).Some?
    && IsRootIncident(db, DownRoot(snap, db.incidents[k].node).value, root)
  }

  /** A candidate of the retro pass: open, in the project, in no open group, and not
      an uptime incident, which joins only through its own hook. */
  predicate Candidate(db: Db, project: int, k: Key) {
    k in db.incidents && db.incidents[k].open && k.source != UptimeSource && Eligible(db, project, k)
  }

  ghost predicate Drawn(db: Db, snap: Snapshot, project: int, root: Key, rootNode: Node, k: Key) {
    Candidate(db, project, k) && k != root && DownRoot(snap, db.incidents[k].node) == Some(rootNode)
  }

  /** k is in no group, or in one that is gone or resolved. */
  ghost predicate Ungrouped(db: Db, k: Key) {
    k in db.incidents && forall g :: !MemberOf(db, k, g)
  }

  /** Who may be moved, column by column; anyone else stays. */
  lemma WhoMayBeMoved(db: Db, snap: Snapshot, project: int, root: Key, rootNode: Node, k: Key)
    ensures Eligible(db, project, k) <==> Ungrouped(db, k) && db.incidents[k].project == project
    ensures Drawn(db, snap, project, root, rootNode, k) <==>
            && Ungrouped(db, k) && db.incidents[k].project == project && db.incidents[k].open
            && k.source in {HostSource, MetricSource, SloSource} && k != root
            && DownRoot(snap, db.incidents[k].node) == Some(rootNode)
  {
    if InOpenGroup(db, k) { assert MemberOf(db, k, db.incidents[k].groupID.value); }
  }

  /** Only group ids of members in moved may differ, and only the group of root may be new. */
  ghost predicate OnlyMoves(db: Db, db': Db, moved: set<Key>, root: Key) {
    && db'.incidents.Keys == db.incidents.Keys
    && (forall k :: k in db.incidents ==>
          db'.incidents[k] == if k in moved then db.incidents[k].(groupID := db'.incidents[k].groupID) else db.incidents[k])
    && (forall g :: g in db.groups ==> g in db'.groups && db'.groups[g] == db.groups[g])
    && (forall g :: g in db'.groups && g !in db.groups ==> db'.groups[g].root == root)
  }

  lemma EnsureFacts(db: Db, project: int, root: Key, rootNode: Node, db': Db, gid: int)
    requires Unique(db) && EnsureGroup(db, project, root, rootNode, db', gid)
    ensures Unique(db') && db'.incidents == db.incidents && db.nextGroup <= db'.nextGroup
    ensures gid in db'.groups && db'.groups[gid].root == root
    ensures db'.groups[gid].resolved <==> GroupClosed(db, root)
    ensures db'.groups[gid].resolved ==> db' == db
    ensures OnlyMoves(db, db', {}, root)
    ensures forall k :: InOpenGroup(db', k) <==> InOpenGroup(db, k)
  {
    forall n, a | IsRootIncident(db', n, a) ensures IsRootIncident(db, n, a) {}
  }

  lemma SetFacts(db: Db, project: int, k: Key, gid: int)
    requires Unique(db) && Eligible(db, project, k) && gid in db.groups && !db.groups[gid].resolved
    ensures var db' := SetGroup(db, project, k, gid);
            && Unique(db') && InOpenGroup(db', k) && Stand(db', k) == db.groups[gid].root
            && OnlyMoves(db, db', {k}, db.groups[gid].root)
            && (forall o :: o != k ==> (InOpenGroup(db', o) <==> InOpenGroup(db, o)))
            && (forall o :: o != k && InOpenGroup(db, o) ==> Stand(db', o) == Stand(db, o))
            && (forall n, a :: IsRootIncident(db', n, a) <==> IsRootIncident(db, n, a))
  {
    var db' := SetGroup(db, project, k, gid);
    forall n, a ensures IsRootIncident(db', n, a) <==> IsRootIncident(db, n, a) {}
  }

  /** The retro pass after moving some of the drawn candidates. */
  ghost predicate Progress(before: Db, db: Db, moved: set<Key>, root: Key, grp: Option<int>) {
    && Unique(db) && before.nextGroup <= db.nextGroup
    && (grp.None? ==> db == before && moved == {})
    && (grp.Some? ==> grp.value in db.groups && db.groups[grp.value].root == root && !db.groups[grp.value].resolved)
    && (forall k :: k in moved ==> InOpenGroup(db, k) && Stand(db, k) == root)
    && (forall k :: k !in moved ==> (InOpenGroup(db, k) <==> InOpenGroup(before, k)))
    && OnlyMoves(before, db, moved, root)
  }

  lemma ProgressStep(before: Db, db: Db, moved: set<Key>, root: Key, gid: int, project: int, c: Key)
    requires Progress(before, db, moved, root, Some(gid)) && Candidate(before, project, c) && c !in moved
    ensures Eligible(db, project, c)
    ensures Progress(before, SetGroup(db, project, c, gid), moved + {c}, root, Some(gid))
  {
    SetFacts(db, project, c, gid);
  }

  /** path leads, by statements of the protocol on snap's relation, from a state to one where
      the tables are db and actor a stands at pc, the others as they were. */
  ghost predicate Leads(snap: Snapshot, path: seq<State>, from: State, db: Db, a: int, pc: Pc) {
    Stretch(ResolvedGraph(snap), path) && path[0] == from && path[|path| - 1] == State(db, from.pcs[a := pc])
  }

  /** Whatever the other actors are at, the idle actor a can do what a call did. */
  ghost predicate ProtocolDoes(snap: Snapshot, from: State, a: int, db': Db) {
    exists path :: Leads(snap, path, from, db', a, Idle)
  }

  lemma Stands(snap: Snapshot, from: State, a: int) returns (path: seq<State>)
    requires a in from.pcs && from.pcs[a].Idle?
    ensures Leads(snap, path, from, from.db, a, Idle)
  {
    path := [from];
    assert from.pcs[a := Idle] == from.pcs;
  }

  lemma Takes(snap: Snapshot, path: seq<State>, from: State, db: Db, a: int, pc: Pc, db': Db, pc': Pc)
    returns (longer: seq<State>)
    requires Leads(snap, path, from, db, a, pc) && ActorStep(ResolvedGraph(snap), db, pc, db', pc')
    ensures Leads(snap, longer, from, db', a, pc')
  {
    hide ActorStep, Step;
    longer := Acts(ResolvedGraph(snap), path, a, db', pc');
    assert from.pcs[a := pc][a := pc'] == from.pcs[a := pc'];
  }

  lemma Stops(snap: Snapshot, path: seq<State>, from: State, db: Db, a: int, pc: Pc) returns (longer: seq<State>)
    requires Leads(snap, path, from, db, a, pc)
    ensures Leads(snap, longer, from, db, a, Idle)
  {
    hide Step;
    longer := GivesUp(ResolvedGraph(snap), path, a);
    assert from.pcs[a := pc][a := Idle] == from.pcs[a := Idle];
  }

  /** The five statements of a call of Attach that goes through. */
  lemma AttachIsProtocolRun(snap: Snapshot, from: State, a: int, k: Key, root: Key, rootNode: Node, project: int, db': Db, gid: int)
    requires a in from.pcs && from.pcs[a].Idle? && k in from.db.incidents && root != k
    requires DownRoot(snap, from.db.incidents[k].node) == Some(rootNode) && IsRootIncident(from.db, rootNode, root)
    requires project == from.db.incidents[root].project && Eligible(from.db, project, k)
    requires EnsureGroup(from.db, project, root, rootNode, db', gid) && !db'.groups[gid].resolved
    ensures ProtocolDoes(snap, from, a, SetGroup(db', project, k, gid))
  {
    hide Leads, ResolvedGraph;
    var db := from.db;
    assert Answers(ResolvedGraph(snap), db.incidents[k].node, rootNode);
    var path := Stands(snap, from, a);
    path := Takes(snap, path, from, db, a, Idle, db, Asked(k, rootNode));
    path := Takes(snap, path, from, db, a, Asked(k, rootNode), db, Found(k, rootNode, root, project));
    path := Takes(snap, path, from, db, a, Found(k, rootNode, root, project), db, Checked(k, rootNode, root, project));
    path := Takes(snap, path, from, db, a, Checked(k, rootNode, root, project), db', Ensured(k, rootNode, root, project, gid));
    path := Takes(snap, path, from, db', a, Ensured(k, rootNode, root, project, gid), SetGroup(db', project, k, gid), Idle);
  }

  /** The three statements by which a retro pass draws one candidate in. */
  lemma JoinIsProtocolRun(snap: Snapshot, path: seq<State>, from: State, a: int, db: Db, root: Key, rootNode: Node, project: int,
                          grp: Option<int>, c: Key, db': Db, gid: int) returns (longer: seq<State>)
    requires Leads(snap, path, from, db, a, Retro(rootNode, root, project, grp))
    requires c in db.incidents && c != root && DownRoot(snap, db.incidents[c].node) == Some(rootNode)
    requires if grp.Some? then db' == db && gid == grp.value
             else EnsureGroup(db, project, root, rootNode, db', gid) && !db'.groups[gid].resolved
    ensures Leads(snap, longer, from, SetGroup(db', project, c, gid), a, Retro(rootNode, root, project, Some(gid)))
  {
    hide Leads, ResolvedGraph;
    assert Answers(ResolvedGraph(snap), db.incidents[c].node, rootNode);
    var matched := Matched(rootNode, root, project, grp, c);
    longer := Takes(snap, path, from, db, a, Retro(rootNode, root, project, grp), db, matched);
    longer := Takes(snap, longer, from, db, a, matched, db', RetroEnsured(rootNode, root, project, gid, c));
    longer := Takes(snap, longer, from, db', a, RetroEnsured(rootNode, root, project, gid, c),
                    SetGroup(db', project, c, gid), Retro(rootNode, root, project, Some(gid)));
  }

  class Grouper {
    var db: Db

    constructor (db: Db)
      ensures this.db == db
    {
      this.db := db;
    }

    method RootIncident(n: Node) returns (k: Option<Key>)
      ensures k.Some? ==> IsRootIncident(db, n, k.value)
      ensures k.None? ==> forall o :: !IsRootIncident(db, n, o)
      ensures k.Some? <==> exists o :: o in db.incidents && db.incidents[o].open && db.incidents[o].rootKind && db.incidents[o].node == n
      ensures k.Some? ==> var i := db.incidents[k.value]; i.open && i.rootKind && i.node == n
    {
      if o :| o in db.incidents && IsRootIncident(db, n, o) {
        return Some(o);
      }
      return None;
    }

    method Ensure(project: int, root: Key, rootNode: Node) returns (gid: int)
      modifies this
      ensures EnsureGroup(old(db), project, root, rootNode, db, gid)
    {
      if g :| g in db.groups && db.groups[g].root == root {
        return g;
      }
      gid := db.nextGroup;
      db := db.(groups := db.groups[gid := Group(project, root, rootNode, false)], nextGroup := gid + 1);
    }

    method Set(project: int, k: Key, gid: int) returns (done: bool)
      modifies this
      ensures db == SetGroup(old(db), project, k, gid) && (done <==> Eligible(old(db), project, k))
    {
      done := Eligible(db, project, k);
      db := SetGroup(db, project, k, gid);
    }

    /** A new incident joins its root's group, or nothing at all changes: in
        particular no empty group is left behind. Whatever the other actors are at, the
        call is a run of the protocol by an idle actor a. */
    method Attach(snap: Snapshot, k: Key, ghost a: int, ghost pcs: map<int, Pc>) returns (attached: bool)
      requires Unique(db) && k in db.incidents && a in pcs && pcs[a].Idle?
      modifies this
      ensures Unique(db) && ProtocolDoes(snap, State(old(db), pcs), a, db)
      ensures attached <==>
                exists root :: Behind(old(db), snap, k, root) && Eligible(old(db), old(db).incidents[root].project, k)
                               && !GroupClosed(old(db), root)
      ensures forall m, g :: MemberOf(old(db), m, g) ==> m in db.incidents && db.incidents[m] == old(db).incidents[m]
      ensures !attached ==> db == old(db)
      ensures attached ==> InOpenGroup(db, k) && Behind(db, snap, k, Stand(db, k)) && OnlyMoves(old(db), db, {k}, Stand(db, k))
    {
      hide Leads, ResolvedGraph;
      ghost var standing := Stands(snap, State(db, pcs), a);
      var rootNode := DownRootFromSnapshot(snap, db.incidents[k].node);
      if rootNode.None? { return false; }
      var found := RootIncident(rootNode.value);
      if found.None? { return false; }
      var root := found.value;
      if root == k { return false; }
      var project := db.incidents[root].project;
      if !Eligible(db, project, k) { return false; }
      ghost var before := db;
      var gid := Ensure(project, root, rootNode.value);
      EnsureFacts(before, project, root, rootNode.value, db, gid);
      if db.groups[gid].resolved { return false; }
      SetFacts(db, project, k, gid);
      assert Behind(before, snap, k, root);
      AttachIsProtocolRun(snap, State(before, pcs), a, k, root, rootNode.value, project, db, gid);
      attached := Set(project, k, gid);
    }

    /** The tail of the retro loop: make the group on first use, then move c in. */
    method Join(ghost before: Db, ghost moved: set<Key>, root: Key, rootNode: Node, project: int,
                grp: Option<int>, c: Key)
      returns (closed: bool, grp': Option<int>, ghost between: Db)
      requires Progress(before, db, moved, root, grp) && Candidate(before, project, c) && c !in moved
      modifies this
      ensures closed ==> GroupClosed(before, root) && grp.None? && db == before
      ensures !closed ==> grp'.Some? && Progress(before, db, moved + {c}, root, grp')
      ensures !closed ==>
                && (if grp.Some? then between == old(db) && grp' == grp
                    else EnsureGroup(old(db), project, root, rootNode, between, grp'.value) && !between.groups[grp'.value].resolved)
                && db == SetGroup(between, project, c, grp'.value)
      ensures !closed && grp.None? ==> !GroupClosed(before, root)
    {
      grp' := grp;
      if grp.None? {
        var gid := Ensure(project, root, rootNode);
        EnsureFacts(before, project, root, rootNode, db, gid);
        if db.groups[gid].resolved {
          return true, None, db;
        }
        grp' := Some(gid);
      }
      ProgressStep(before, db, moved, root, grp'.value, project, c);
      between := db;
      var done := Set(project, c, grp'.value);
      closed := false;
    }

    /** Every candidate the new root draws joins its group, and no one else moves;
        when that root's group is already closed nothing happens. For a root incident that
        is open at the call this is a run of the protocol, too. */
    method OnRootOpened(snap: Snapshot, root: Key, rootNode: Node, project: int, ghost a: int, ghost pcs: map<int, Pc>)
      requires Unique(db) && a in pcs && pcs[a].Idle?
      modifies this
      ensures Unique(db)
      ensures IsRootIncident(old(db), rootNode, root) ==> ProtocolDoes(snap, State(old(db), pcs), a, db)
      ensures GroupClosed(old(db), root) ==> db == old(db)
      ensures !GroupClosed(old(db), root) ==>
                forall k :: Drawn(old(db), snap, project, root, rootNode, k) ==> InOpenGroup(db, k) && Stand(db, k) == root
      ensures forall m, g :: MemberOf(old(db), m, g) ==> m in db.incidents && db.incidents[m] == old(db).incidents[m]
      ensures var drawn := set k | k in old(db).incidents && Drawn(old(db), snap, project, root, rootNode, k);
              OnlyMoves(old(db), db, drawn, root) && (drawn == {} ==> db == old(db))
    {
      ghost var before := db;
      ghost var drawn := set k | k in before.incidents && Drawn(before, snap, project, root, rootNode, k);
      var cands := set k | k in db.incidents && Candidate(db, project, k);
      ghost var all := cands;
      ghost var moved: set<Key> := {};
      var grp: Option<int> := None;
      hide Leads, ResolvedGraph;
      ghost var from, live := State(db, pcs), IsRootIncident(db, rootNode, root);
      ghost var path := Stands(snap, from, a);
      if live { path := Takes(snap, path, from, db, a, Idle, db, Retro(rootNode, root, project, None)); }
      while cands != {}
        invariant cands <= all
        invariant moved <= drawn && drawn <= moved + cands && moved !! cands
        invariant Progress(before, db, moved, root, grp)
        invariant grp.Some? ==> !GroupClosed(before, root) && moved != {}
        invariant live ==> Leads(snap, path, from, db, a, Retro(rootNode, root, project, grp))
        decreases cands
      {
        var c :| c in cands;
        cands := cands - {c};
        var dr := DownRootFromSnapshot(snap, db.incidents[c].node);
        if c == root || dr != Some(rootNode) {
          continue;
        }
        assert c in drawn;
        ghost var now := db;
        var closed, grp', between := Join(before, moved, root, rootNode, project, grp, c);
        if closed {
          if live { path := Stops(snap, path, from, db, a, Retro(rootNode, root, project, grp)); }
          return;
        }
        if live { path := JoinIsProtocolRun(snap, path, from, a, now, root, rootNode, project, grp, c, between, grp'.value); }
        grp, moved := grp', moved + {c};
      }
      if live { path := Stops(snap, path, from, db, a, Retro(rootNode, root, project, grp)); }
      assert moved == drawn;
    }
  }
}
