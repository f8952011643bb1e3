/** Finite directed graphs given as sets of arrows, with the few facts about
    reachability that the dependency modules share. */
module Graphs {

  /** p is a walk in g from a to b; a single node is a walk to itself. */
  ghost predicate Walk<N(!new)>(g: set<(N, N)>, p: seq<N>, a: N, b: N) {
    && |p| >= 1 && p[0] == a && p[|p| - 1] == b
    && forall i :: 0 <= i < |p| - 1 ==> (p[i], p[i + 1]) in g
  }

  ghost predicate Reach<N(!new)>(g: set<(N, N)>, a: N, b: N) {
    exists p :: Walk(g, p, a, b)
  }

  /** b is reached from a by at least one arrow. */
  ghost predicate ReachPlus<N(!new)>(g: set<(N, N)>, a: N, b: N) {
    exists m :: (a, m) in g && Reach(g, m, b)
  }

  ghost predicate Acyclic<N(!new)>(g: set<(N, N)>) {
    forall n :: !ReachPlus(g, n, n)
  }

  ghost predicate Terminal<N(!new)>(g: set<(N, N)>, n: N) {
    forall m :: (n, m) !in g
  }

  lemma ReachSelf<N(!new)>(g: set<(N, N)>, a: N)
    ensures Reach(g, a, a)
  {
    assert Walk(g, [a], a, a);
  }

  lemma ReachStep<N(!new)>(g: set<(N, N)>, a: N, m: N, b: N)
    requires (a, m) in g && Reach(g, m, b)
    ensures Reach(g, a, b) && ReachPlus(g, a, b)
  {
    var p :| Walk(g, p, m, b);
    assert Walk(g, [a] + p, a, b);
  }

  /** A set that keeps every arrow that starts inside it contains all it reaches. */
  lemma ClosedContains<N(!new)>(g: set<(N, N)>, inside: iset<N>, a: N, b: N)
    requires forall x, y :: (x, y) in g && x in inside ==> y in inside
    requires a in inside && Reach(g, a, b)
    ensures b in inside
  {
    var p :| Walk(g, p, a, b);
    var i := 0;
    while i < |p| - 1
      invariant 0 <= i <= |p| - 1
      invariant p[i] in inside
    {
      assert (p[i], p[i + 1]) in g;
      i := i + 1;
    }
  }

  lemma ReachTrans<N(!new)>(g: set<(N, N)>, a: N, b: N, c: N)
    requires Reach(g, a, b) && Reach(g, b, c)
    ensures Reach(g, a, c)
  {
    var p, q :| Walk(g, p, a, b) && Walk(g, q, b, c);
    var r := p + q[1..];
    forall i | 0 <= i < |r| - 1 ensures (r[i], r[i + 1]) in g {
      if i == |p| - 1 { assert (q[0], q[1]) in g; }
      else if i >= |p| { assert (q[i + 1 - |p|], q[i + 2 - |p|]) in g; }
    }
    assert Walk(g, r, a, c);
  }

  lemma ReachCases<N(!new)>(g: set<(N, N)>, a: N, b: N)
    requires Reach(g, a, b)
    ensures a == b || ReachPlus(g, a, b)
  {
    var p :| Walk(g, p, a, b);
    if |p| > 1 {
      assert (p[0], p[1]) in g;
      assert Walk(g, p[1..], p[1], b);
    }
  }

  lemma ReachPlusTrans<N(!new)>(g: set<(N, N)>, a: N, b: N, c: N)
    requires ReachPlus(g, a, b) && Reach(g, b, c)
    ensures ReachPlus(g, a, c) && Reach(g, a, c)
  {
    var m :| (a, m) in g && Reach(g, m, b);
    ReachTrans(g, m, b, c);
    ReachStep(g, a, m, c);
  }

  lemma ReachMonotone<N(!new)>(g: set<(N, N)>, h: set<(N, N)>, a: N, b: N)
    requires g <= h && Reach(g, a, b)
    ensures Reach(h, a, b)
  {
    var p :| Walk(g, p, a, b);
    assert Walk(h, p, a, b);
  }

  lemma AcyclicSubset<N(!new)>(g: set<(N, N)>, h: set<(N, N)>)
    requires g <= h && Acyclic(h)
    ensures Acyclic(g)
  {
    forall n ensures !ReachPlus(g, n, n) {
      if ReachPlus(g, n, n) {
        var m :| (n, m) in g && Reach(g, m, n);
        ReachMonotone(g, h, m, n);
        ReachStep(h, n, m, n);
      }
    }
  }

  /** A walk that may use one extra arrow either does not need it or splits at its use. */
  lemma {:induction false} WalkSplit<N(!new)>(g: set<(N, N)>, u: N, v: N, p: seq<N>, a: N, b: N)
    requires Walk(g + {(u, v)}, p, a, b)
    ensures Reach(g, a, b) || (Reach(g, a, u) && Reach(g, v, b))
    decreases |p|
  {
    if |p| == 1 {
      ReachSelf(g, a);
    } else {
      var m := p[1];
      assert (p[0], p[1]) in g + {(u, v)};
      assert Walk(g + {(u, v)}, p[1..], m, b);
      WalkSplit(g, u, v, p[1..], m, b);
      if (a, m) in g {
        if Reach(g, m, b) { ReachStep(g, a, m, b); } else { ReachStep(g, a, m, u); }
      } else {
        ReachSelf(g, a);
      }
    }
  }

  /** Adding u -> v keeps a graph acyclic exactly when v does not already reach u. */
  lemma AcyclicInsert<N(!new)>(g: set<(N, N)>, u: N, v: N)
    requires Acyclic(g)
    ensures Acyclic(g + {(u, v)}) <==> !Reach(g, v, u)
  {
    var h := g + {(u, v)};
    if Reach(g, v, u) {
      ReachMonotone(g, h, v, u);
      assert (u, v) in h;
      assert ReachPlus(h, u, u);
    } else {
      forall n ensures !ReachPlus(h, n, n) {
        if ReachPlus(h, n, n) {
          var m :| (n, m) in h && Reach(h, m, n);
          var p :| Walk(h, p, m, n);
          WalkSplit(g, u, v, p, m, n);
          if (n, m) in g {
            if Reach(g, m, n) {
              ReachStep(g, n, m, n);
            } else {
              ReachStep(g, n, m, u);
              ReachTrans(g, v, n, u);
            }
          }
        }
      }
    }
  }

  ghost function Nodes<N>(g: set<(N, N)>): set<N> {
    (set e | e in g :: e.0) + (set e | e in g :: e.1)
  }

  /** Everything strictly beyond n. */
  ghost function Above<N(!new)>(g: set<(N, N)>, n: N): set<N> {
    set m | m in Nodes(g) && ReachPlus(g, n, m)
  }

  lemma ReachPlusInNodes<N(!new)>(g: set<(N, N)>, a: N, b: N)
    requires ReachPlus(g, a, b)
    ensures b in Nodes(g)
  {
    var m :| (a, m) in g && Reach(g, m, b);
    assert (a, m).1 in Nodes(g);
    forall x, y | (x, y) in g ensures y in Nodes(g) { assert (x, y).1 in Nodes(g); }
    ClosedContains(g, (iset x | x in Nodes(g)), m, b);
  }

  /** In an acyclic graph what lies beyond shrinks along every arrow path: the
      measure that ends every upward walk. */
  lemma AboveShrinks<N(!new)>(g: set<(N, N)>, a: N, b: N)
    requires Acyclic(g) && ReachPlus(g, a, b)
    ensures Above(g, b) < Above(g, a) && |Above(g, b)| < |Above(g, a)|
  {
    ReachPlusInNodes(g, a, b);
    forall m | m in Above(g, b) ensures m in Above(g, a) {
      var k :| (b, k) in g && Reach(g, k, m);
      ReachStep(g, b, k, m);
      ReachPlusTrans(g, a, b, m);
    }
    assert b in Above(g, a) && b !in Above(g, b);
    SubsetSize(Above(g, b), Above(g, a));
  }

  lemma SubsetSize<T>(a: set<T>, b: set<T>)
    requires a < b
    ensures |a| < |b|
  {
    var x :| x in b && x !in a;
    assert b == a + (b - a);
    assert |b| == |a| + |b - a|;
  }

  lemma {:induction false} TerminalExists<N(!new)>(g: set<(N, N)>, n: N) returns (t: N)
    requires Acyclic(g)
    ensures Reach(g, n, t) && Terminal(g, t)
    decreases |Above(g, n)|
  {
    if Terminal(g, n) {
      ReachSelf(g, n);
      t := n;
    } else {
      var m :| (n, m) in g;
      ReachSelf(g, m);
      ReachStep(g, n, m, m);
      AboveShrinks(g, n, m);
      t := TerminalExists(g, m);
      ReachStep(g, n, m, t);
    }
  }

  ghost function Reverse<N>(g: set<(N, N)>): set<(N, N)> {
    set a | a in g :: (a.1, a.0)
  }

  lemma {:induction false} ReverseReach<N(!new)>(g: set<(N, N)>, a: N, b: N)
    requires Reach(Reverse(g), a, b)
    ensures Reach(g, b, a)
  {
    var p :| Walk(Reverse(g), p, a, b);
    var q := seq(|p|, i requires 0 <= i < |p| => p[|p| - 1 - i]);
    forall i | 0 <= i < |q| - 1 ensures (q[i], q[i + 1]) in g {
      var k := |p| - 2 - i;
      assert (p[k], p[k + 1]) in Reverse(g);
    }
    assert Walk(g, q, b, a);
  }

  lemma ReverseAcyclic<N(!new)>(g: set<(N, N)>)
    requires Acyclic(g)
    ensures Acyclic(Reverse(g))
  {
    forall n ensures !ReachPlus(Reverse(g), n, n) {
      if ReachPlus(Reverse(g), n, n) {
        var m :| (n, m) in Reverse(g) && Reach(Reverse(g), m, n);
        ReverseReach(g, m, n);
        ReachSelf(g, n);
        ReachStep(g, m, n, n);
        ReachPlusTrans(g, m, n, m);
      }
    }
  }
}
