/** The suppressor's upward walks over one snapshot. */
module Suppressor {
  import opened Dependencies
  import opened Graphs
  import opened Wrappers

  // ----- what the walks mean -----

  /** Down ancestors of n, at least one step up, that have no down parent. */
  ghost function Roots(g: set<(Node, Node)>, n: Node): set<Node> {
    set r | r in Nodes(g) && ReachPlus(g, n, r) && Terminal(g, r)
  }

  ghost predicate Suppressed(snap: Snapshot, n: Node) {
    exists r :: ReachPlus(DownGraph(snap), n, r) && Terminal(DownGraph(snap), r)
  }

  predicate Before(a: Node, b: Node) {
    if a.kind != b.kind then a.kind == Host else a.id < b.id
  }

  ghost predicate IsLeast(s: set<Node>, m: Node) {
    m in s && forall x :: x in s ==> !Before(x, m)
  }

  lemma {:induction false} LeastExists(s: set<Node>) returns (m: Node)
    requires s != {}
    ensures IsLeast(s, m)
    decreases |s|
  {
    var x :| x in s;
    if s == {x} {
      m := x;
    } else {
      var m' := LeastExists(s - {x});
      m := if Before(x, m') then x else m';
      forall y | y in s ensures !Before(y, m) {
        assert y == x || y in s - {x};
      }
    }
  }

  ghost function Least(s: set<Node>): (m: Node)
    requires s != {}
    ensures IsLeast(s, m)
  {
    assert exists m :: IsLeast(s, m) by { var m := LeastExists(s); }
    var m :| IsLeast(s, m);
    m
  }

  ghost function DownRoot(snap: Snapshot, n: Node): Option<Node> {
    var roots := Roots(DownGraph(snap), n);
    if roots != {} then Some(Least(roots))
    else if NodeIsDown(snap, n) then Some(n)
    else None
  }

  lemma SuppressedIffRoots(snap: Snapshot, n: Node)
    ensures Suppressed(snap, n) <==> Roots(DownGraph(snap), n) != {}
  {
    var g := DownGraph(snap);
    if r :| ReachPlus(g, n, r) && Terminal(g, r) {
      ReachPlusInNodes(g, n, r);
      assert r in Roots(g, n);
    }
    if Roots(g, n) != {} {
      var r :| r in Roots(g, n);
    }
  }

  // ----- the walks -----

  method MatchingParents(snap: Snapshot, n: Node) returns (out: seq<Edge>)
    ensures forall e :: e in out <==>
              e in snap.edges && !IsSelfMatchParent(e, n) && EdgeMatchesChild(e, snap, n)
  {
    out := [];
    for i := 0 to |snap.edges|
      invariant forall e :: e in out <==>
                  e in snap.edges[..i] && !IsSelfMatchParent(e, n) && EdgeMatchesChild(e, snap, n)
    {
      var e := snap.edges[i];
      if IsSelfMatchParent(e, n) {
        continue;
      }
      if EdgeMatchesChild(e, snap, n) {
        out := out + [e];
      }
    }
  }

  method DownParents(snap: Snapshot, n: Node) returns (out: seq<Node>)
    ensures forall p :: p in out <==> (n, p) in DownGraph(snap)
  {
    out := [];
    var matching := MatchingParents(snap, n);
    for i := 0 to |matching|
      invariant forall p :: p in out <==>
                  exists e :: e in matching[..i] && ParentIsDown(e, snap) && ParentNode(e) == Some(p)
    {
      var e := matching[i];
      if !ParentIsDown(e, snap) {
        continue;
      }
      var p := ParentNode(e);
      if p.Some? {
        out := out + [p.value];
      }
    }
    forall p ensures p in out <==> (n, p) in DownGraph(snap) {
      ResolvedGraphIff(snap, n, p);
      if (n, p) in DownGraph(snap) {
        var e :| e in snap.edges && Resolves(e, snap, n, p);
        assert e in matching[..|matching|] && ParentIsDown(e, snap);
      }
      if p in out {
        var e :| e in matching[..|matching|] && ParentIsDown(e, snap) && ParentNode(e) == Some(p);
        assert Resolves(e, snap, n, p);
      }
    }
  }

  /** What both walks keep: visited nodes other than the start are reached from
      it, and every arrow out of a visited node leads to a visited or a stacked one. */
  ghost predicate WalkInvariant(g: set<(Node, Node)>, start: Node, visited: set<Node>, stack: seq<Node>) {
    && start in visited
    && (forall p :: p in stack ==> ReachPlus(g, start, p) && p in Nodes(g))
    && (forall v :: v in visited && v != start ==> ReachPlus(g, start, v))
    && (forall v, w :: v in visited && (v, w) in g ==> w in visited || w in stack)
  }

  lemma WalkPop(g: set<(Node, Node)>, start: Node, visited: set<Node>, stack: seq<Node>)
    requires stack != [] && WalkInvariant(g, start, visited, stack)
    ensures var p := stack[|stack| - 1]; var rest := stack[..|stack| - 1];
            && WalkInvariant(g, start, visited, rest + [p])
            && (p in visited ==> WalkInvariant(g, start, visited, rest))
            && p in Nodes(g)
  {
    var p := stack[|stack| - 1];
    var rest := stack[..|stack| - 1];
    assert stack == rest + [p] && p in stack;
  }

  lemma WalkPush(g: set<(Node, Node)>, start: Node, visited: set<Node>, stack: seq<Node>,
                 p: Node, parents: seq<Node>)
    requires WalkInvariant(g, start, visited, stack + [p])
    requires forall q :: q in parents <==> (p, q) in g
    ensures WalkInvariant(g, start, visited + {p}, stack + parents)
    ensures parents == [] <==> Terminal(g, p)
    ensures parents == [] ==> WalkInvariant(g, start, visited + {p}, stack)
  {
    assert p in stack + [p];
    assert parents == [] ==> stack + parents == stack;
    forall q | q in parents ensures ReachPlus(g, start, q) && q in Nodes(g) {
      ReachSelf(g, q);
      ReachStep(g, p, q, q);
      ReachPlusTrans(g, start, p, q);
      ReachPlusInNodes(g, start, q);
    }
    if parents != [] { assert parents[0] in parents; }
  }

  lemma WalkEnd(g: set<(Node, Node)>, start: Node, visited: set<Node>, r: Node)
    requires WalkInvariant(g, start, visited, [])
    requires ReachPlus(g, start, r)
    ensures r in visited
  {
    var m :| (start, m) in g && Reach(g, m, r);
    ClosedContains(g, (iset x | x in visited), m, r);
  }

  method ParentDownFromSnapshot(snap: Snapshot, start: Node) returns (down: bool)
    ensures down <==> Suppressed(snap, start)
  {
    ghost var g := DownGraph(snap);
    var visited: set<Node> := {start};
    var stack := DownParents(snap, start);
    WalkStart(g, start, stack);
    while |stack| > 0
      invariant WalkInvariant(g, start, visited, stack)
      invariant forall v :: v in visited && v != start ==> !Terminal(g, v)
      decreases Nodes(g) - visited, |stack|
    {
      var p := stack[|stack| - 1];
      WalkPop(g, start, visited, stack);
      stack := stack[..|stack| - 1];
      if p in visited {
        continue;
      }
      var pp := DownParents(snap, p);
      WalkPush(g, start, visited, stack, p, pp);
      visited := visited + {p};
      if |pp| == 0 {
        return true;
      }
      stack := stack + pp;
    }
    if Suppressed(snap, start) {
      var r :| ReachPlus(g, start, r) && Terminal(g, r);
      WalkEnd(g, start, visited, r);
    }
    return false;
  }

  lemma WalkStart(g: set<(Node, Node)>, start: Node, parents: seq<Node>)
    requires forall q :: q in parents <==> (start, q) in g
    ensures WalkInvariant(g, start, {start}, parents)
  {
    forall q | q in parents ensures ReachPlus(g, start, q) && q in Nodes(g) {
      ReachSelf(g, q);
      ReachStep(g, start, q, q);
      ReachPlusInNodes(g, start, q);
    }
  }

  ghost predicate Collected(g: set<(Node, Node)>, start: Node, visited: set<Node>, roots: seq<Node>) {
    forall v :: v in roots <==> v in visited && v != start && Terminal(g, v)
  }

  lemma CollectStep(g: set<(Node, Node)>, start: Node, visited: set<Node>, roots: seq<Node>, p: Node)
    requires start in visited && p !in visited && Collected(g, start, visited, roots)
    ensures Terminal(g, p) ==> Collected(g, start, visited + {p}, roots + [p])
    ensures !Terminal(g, p) ==> Collected(g, start, visited + {p}, roots)
  {
  }

  lemma WalkRoots(g: set<(Node, Node)>, start: Node, visited: set<Node>, roots: seq<Node>)
    requires WalkInvariant(g, start, visited, [])
    requires Collected(g, start, visited, roots)
    ensures Roots(g, start) == set v | v in roots
    ensures roots == [] <==> Roots(g, start) == {}
  {
    forall r ensures r in roots <==> r in Roots(g, start) {
      if r in Roots(g, start) { WalkEnd(g, start, visited, r); }
      if r in roots { ReachPlusInNodes(g, start, r); }
    }
    if roots != [] { assert roots[0] in Roots(g, start); }
  }

  lemma LeastUnique(s: set<Node>, m: Node)
    requires IsLeast(s, m)
    ensures s != {} && m == Least(s)
  {
    assert !Before(m, Least(s)) && !Before(Least(s), m);
  }

  /** The first element after sorting by kind and id. */
  method LeastOf(roots: seq<Node>) returns (m: Node)
    requires roots != []
    ensures m in roots && forall x :: x in roots ==> !Before(x, m)
  {
    m := roots[0];
    for i := 1 to |roots|
      invariant m in roots && forall x :: x in roots[..i] ==> !Before(x, m)
    {
      if Before(roots[i], m) {
        m := roots[i];
      }
      assert roots[..i + 1] == roots[..i] + [roots[i]];
    }
  }

  /** The walking half of DownRootFromSnapshot: every root above start. */
  method CollectRoots(snap: Snapshot, start: Node) returns (roots: seq<Node>)
    ensures Roots(DownGraph(snap), start) == set v | v in roots
    ensures roots == [] <==> Roots(DownGraph(snap), start) == {}
  {
    ghost var g := DownGraph(snap);
    roots := [];
    var visited: set<Node> := {start};
    var stack := DownParents(snap, start);
    WalkStart(g, start, stack);
    while |stack| > 0
      invariant WalkInvariant(g, start, visited, stack)
      invariant Collected(g, start, visited, roots)
      decreases Nodes(g) - visited, |stack|
    {
      var p := stack[|stack| - 1];
      WalkPop(g, start, visited, stack);
      stack := stack[..|stack| - 1];
      if p in visited {
        continue;
      }
      var pp := DownParents(snap, p);
      WalkPush(g, start, visited, stack, p, pp);
      CollectStep(g, start, visited, roots, p);
      visited := visited + {p};
      if |pp| == 0 {
        roots := roots + [p];
        continue;
      }
      stack := stack + pp;
    }
    WalkRoots(g, start, visited, roots);
  }

  method DownRootFromSnapshot(snap: Snapshot, start: Node) returns (root: Option<Node>)
    ensures root == DownRoot(snap, start)
  {
    var roots := CollectRoots(snap, start);
    if |roots| == 0 {
      if NodeIsDown(snap, start) {
        return Some(start);
      }
      return None;
    }
    var m := LeastOf(roots);
    LeastUnique(Roots(DownGraph(snap), start), m);
    return Some(m);
  }

  // ----- properties -----

  /** One step of the walk: a down parent silences a node when it is itself a
      root or is itself silenced. */
  lemma SuppressedUnfold(snap: Snapshot, n: Node)
    ensures Suppressed(snap, n) <==>
              exists p :: (n, p) in DownGraph(snap) && (Terminal(DownGraph(snap), p) || Suppressed(snap, p))
  {
    var g := DownGraph(snap);
    if r :| ReachPlus(g, n, r) && Terminal(g, r) {
      var p :| (n, p) in g && Reach(g, p, r);
      ReachCases(g, p, r);
      assert (n, p) in g && (Terminal(g, p) || Suppressed(snap, p));
    }
    if p :| (n, p) in g && (Terminal(g, p) || Suppressed(snap, p)) {
      if Terminal(g, p) {
        ReachSelf(g, p);
        ReachStep(g, n, p, p);
      } else {
        var r :| ReachPlus(g, p, r) && Terminal(g, r);
        var m :| (p, m) in g && Reach(g, m, r);
        ReachStep(g, p, m, r);
        ReachStep(g, n, p, r);
      }
    }
  }

  /** Whoever is silenced has an ancestor that is down and does page. */
  lemma SuppressedHasPagingAncestor(snap: Snapshot, n: Node) returns (r: Node)
    requires Suppressed(snap, n)
    ensures ReachPlus(DownGraph(snap), n, r) && NodeIsDown(snap, r) && !Suppressed(snap, r) && r != n
  {
    var g := DownGraph(snap);
    r :| ReachPlus(g, n, r) && Terminal(g, r);
    ReachedIsDown(snap, n, r);
  }

  lemma ReachedIsDown(snap: Snapshot, n: Node, r: Node)
    requires ReachPlus(DownGraph(snap), n, r)
    ensures NodeIsDown(snap, r)
  {
    var g := DownGraph(snap);
    var m :| (n, m) in g && Reach(g, m, r);
    ClosedContains(g, (iset x | NodeIsDown(snap, x)), m, r);
  }

  /** Down nodes that only have each other as down parents all page: a loop of
      outages is never a silent one. */
  lemma RootlessSetPages(snap: Snapshot, loop: set<Node>, n: Node)
    requires forall c, p :: c in loop && (c, p) in DownGraph(snap) ==> p in loop
    requires forall c :: c in loop ==> !Terminal(DownGraph(snap), c)
    requires n in loop
    ensures !Suppressed(snap, n)
    ensures DownRoot(snap, n) == if NodeIsDown(snap, n) then Some(n) else None
  {
    ClosedSetHasNoTerminal(DownGraph(snap), loop, n);
    SuppressedIffRoots(snap, n);
  }

  lemma ClosedSetHasNoTerminal(g: set<(Node, Node)>, loop: set<Node>, n: Node)
    requires forall c, p :: c in loop && (c, p) in g ==> p in loop
    requires forall c :: c in loop ==> !Terminal(g, c)
    requires n in loop
    ensures forall r :: ReachPlus(g, n, r) ==> !Terminal(g, r)
  {
    forall r | ReachPlus(g, n, r) ensures !Terminal(g, r) {
      var m :| (n, m) in g && Reach(g, m, r);
      ClosedContains(g, (iset x | x in loop), m, r);
    }
  }

  /** The chosen root is down, pages, is its own root, and differs from the
      node asked about exactly when that node is silenced. */
  lemma DownRootProperties(snap: Snapshot, n: Node)
    ensures DownRoot(snap, n).None? <==> !NodeIsDown(snap, n) && !Suppressed(snap, n)
    ensures DownRoot(snap, n).Some? ==>
              var r := DownRoot(snap, n).value;
              && NodeIsDown(snap, r) && !Suppressed(snap, r)
              && (r != n <==> Suppressed(snap, n))
              && (r != n ==> ReachPlus(DownGraph(snap), n, r))
              && DownRoot(snap, r) == Some(r)
  {
    var g := DownGraph(snap);
    SuppressedIffRoots(snap, n);
    if Suppressed(snap, n) {
      var r := Least(Roots(g, n));
      ReachedIsDown(snap, n, r);
      assert Roots(g, r) == {};
      assert r != n;
    }
  }

  /** With nothing else in its way, a label edge whose parent is down silences exactly the
      hosts of its project that carry the label, and makes the parent their root. */
  lemma LabelEdgeSilences(snap: Snapshot, e: Edge, p: Node, h: int)
    requires e in snap.edges && HasParent(e, p) && p != Node(Host, h) && NodeIsDown(snap, p)
    requires forall q :: (p, q) !in DownGraph(snap)
    requires e.childHostID == None
             && forall o :: o in snap.edges && o != e ==> o.childHostID != Some(h) && !Labelled(o, snap, h)
    ensures Suppressed(snap, Node(Host, h)) <==>
            h in snap.hostLabels && snap.hostLabels[h].projectID == e.projectID && e.childLabelValue.Some?
            && ((e.childLabelScope == Some("env") && snap.hostLabels[h].env == e.childLabelValue.value)
                || (e.childLabelScope == Some("role") && snap.hostLabels[h].role == e.childLabelValue.value))
    ensures Suppressed(snap, Node(Host, h)) ==> DownRoot(snap, Node(Host, h)) == Some(p)
  {
    var g, n := DownGraph(snap), Node(Host, h);
    forall q ensures (n, q) in g <==> q == p && Labelled(e, snap, h) {
      HostParents(snap, h, q);
      DownParentsAre(snap, n, q);
      if Labelled(e, snap, h) && q == p { assert e in snap.edges && HasParent(e, p); }
    }
    SuppressedUnfold(snap, n);
    SuppressedUnfold(snap, p);
    assert Terminal(g, p);
    assert Suppressed(snap, n) <==> (n, p) in g;
    DownRootProperties(snap, n);
    if Suppressed(snap, n) {
      var r := DownRoot(snap, n).value;
      var m :| (n, m) in g && Reach(g, m, r);
      ReachCases(g, p, r);
    }
  }

  /** The chosen root spelled out: no root that is reached has a lower id on its own kind,
      and a monitor is chosen only where no host is reached. */
  lemma HostsFirstThenLowestId(snap: Snapshot, n: Node, r: Node)
    requires ReachPlus(DownGraph(snap), n, r) && forall q :: (r, q) !in DownGraph(snap)
    ensures DownRoot(snap, n).Some?
    ensures var chosen := DownRoot(snap, n).value;
            && (chosen.kind == r.kind ==> chosen.id <= r.id)
            && (chosen.kind == Monitor ==> r.kind == Monitor)
            && ReachPlus(DownGraph(snap), n, chosen)
  {
    ReachPlusInNodes(DownGraph(snap), n, r);
    assert r in Roots(DownGraph(snap), n);
  }

  /** Among all reachable roots the least by (host first, id) is taken, so the
      order in which edges are stored decides nothing. */
  lemma EdgeOrderIrrelevant(a: Snapshot, b: Snapshot, n: Node)
    requires forall e :: e in a.edges <==> e in b.edges
    requires a.downHosts == b.downHosts && a.downMonitors == b.downMonitors && a.hostLabels == b.hostLabels
    ensures Suppressed(a, n) <==> Suppressed(b, n)
    ensures DownRoot(a, n) == DownRoot(b, n)
    ensures forall r :: ReachPlus(DownGraph(a), n, r) && Terminal(DownGraph(a), r) ==>
              DownRoot(b, n).Some? && !Before(r, DownRoot(b, n).value)
  {
    forall c, p ensures (c, p) in ResolvedGraph(a) <==> (c, p) in ResolvedGraph(b) {
      ResolvedGraphIff(a, c, p);
      ResolvedGraphIff(b, c, p);
      assert forall e :: Resolves(e, a, c, p) <==> Resolves(e, b, c, p);
    }
    assert ResolvedGraph(a) == ResolvedGraph(b);
    assert DownGraph(a) == DownGraph(b);
    forall r | ReachPlus(DownGraph(a), n, r) && Terminal(DownGraph(a), r) ensures r in Roots(DownGraph(b), n) {
      ReachPlusInNodes(DownGraph(a), n, r);
    }
  }

  /** Without cycles among down nodes the whole walk is the one-step test. */
  lemma AcyclicIsOneStep(snap: Snapshot, n: Node)
    requires Acyclic(DownGraph(snap))
    ensures Suppressed(snap, n) <==> !Terminal(DownGraph(snap), n)
  {
    var g := DownGraph(snap);
    if !Terminal(g, n) {
      var p :| (n, p) in g;
      var t := TerminalExists(g, p);
      ReachStep(g, n, p, t);
    }
  }
}
