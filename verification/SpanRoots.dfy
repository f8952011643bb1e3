/** Which transaction each span of a batch belongs to: the nearest root above it, or the
    first root of its trace when the chain of parents does not lead to one. */
module SpanRoots {
  import opened Wrappers

  const MAX_MEMBERS := 1000
  const MAX_HOPS := 64

  /** Ids are positive, 0 stands for the empty or all-zero id; inbound is the server or
      consumer kind, inTime says that the span lies in the storage window. */
  datatype Span = Span(trace: nat, id: nat, parent: nat, inbound: bool, inTime: bool)

  /** A transaction: its root and its child spans, by position in the batch. */
  datatype Transaction = Transaction(root: nat, members: seq<nat>)

  type Key = (nat, nat)

  predicate IsRoot(s: Span) {
    s.parent == 0 || s.inbound
  }

  predicate Opens(s: Span) {
    IsRoot(s) && s.inTime
  }

  /** A span id may repeat: the last one of the batch wins. */
  function Parents(batch: seq<Span>): map<Key, nat> {
    if batch == [] then map[]
    else var s := batch[|batch| - 1]; Parents(batch[..|batch| - 1])[(s.trace, s.id) := s.parent]
  }

  /** The positions of the roots that open transactions, in batch order. */
  function Roots(batch: seq<Span>): seq<nat> {
    if batch == [] then [] else
      var n := |batch| - 1;
      Roots(batch[..n]) + if Opens(batch[n]) then [n] else []
  }

  /** The transaction a root's key stands for; the last one wins. */
  function RootOf(batch: seq<Span>): map<Key, nat> {
    if batch == [] then map[] else
      var n := |batch| - 1;
      var earlier := RootOf(batch[..n]);
      if Opens(batch[n]) then earlier[(batch[n].trace, batch[n].id) := |Roots(batch[..n])|] else earlier
  }

  /** A trace's first transaction. */
  function FirstRoot(batch: seq<Span>): map<nat, nat> {
    if batch == [] then map[] else
      var n := |batch| - 1;
      var earlier := FirstRoot(batch[..n]);
      if Opens(batch[n]) && batch[n].trace !in earlier then earlier[batch[n].trace := |Roots(batch[..n])|] else earlier
  }

  lemma OneSpanMore(batch: seq<Span>, n: nat)
    requires n < |batch|
    ensures var s, b := batch[n], batch[..n];
            && Parents(batch[..n + 1]) == Parents(b)[(s.trace, s.id) := s.parent]
            && Roots(batch[..n + 1]) == Roots(b) + (if Opens(s) then [n] else [])
            && RootOf(batch[..n + 1]) == (if Opens(s) then RootOf(b)[(s.trace, s.id) := |Roots(b)|] else RootOf(b))
            && FirstRoot(batch[..n + 1]) ==
               if Opens(s) && s.trace !in FirstRoot(b) then FirstRoot(b)[s.trace := |Roots(b)|] else FirstRoot(b)
  {
    assert batch[..n + 1][..n] == batch[..n];
  }

  lemma {:induction false} RootsAreSpans(batch: seq<Span>, n: nat)
    requires n <= |batch|
    ensures forall i :: 0 <= i < |Roots(batch[..n])| ==> Roots(batch[..n])[i] < n && Opens(batch[Roots(batch[..n])[i]])
    ensures forall k :: 0 <= k < n && Opens(batch[k]) ==> k in Roots(batch[..n])
  {
    if n > 0 {
      RootsAreSpans(batch, n - 1);
      OneSpanMore(batch, n - 1);
    }
  }

  /** Both maps name transactions of the trace they are asked about, and know every trace that has one. */
  lemma {:induction false} MapsLeadHome(batch: seq<Span>, n: nat)
    requires n <= |batch|
    ensures var roots := Roots(batch[..n]);
            && (forall i :: 0 <= i < |roots| ==> roots[i] < n)
            && (forall k :: k in RootOf(batch[..n]) ==> RootOf(batch[..n])[k] < |roots| && batch[roots[RootOf(batch[..n])[k]]].trace == k.0)
            && (forall t :: t in FirstRoot(batch[..n]) ==>
                  FirstRoot(batch[..n])[t] < |roots| && batch[roots[FirstRoot(batch[..n])[t]]].trace == t)
            && (forall k :: 0 <= k < n && Opens(batch[k]) ==> batch[k].trace in FirstRoot(batch[..n]))
  {
    if n > 0 {
      MapsLeadHome(batch, n - 1);
      OneSpanMore(batch, n - 1);
      hide Roots, RootOf, FirstRoot, Parents;
    }
  }

  /** The transactions are those of the spans in time that have no parent or come from
      outside, in batch order. */
  lemma {:induction false} RootsSpelled(batch: seq<Span>, n: nat, k: nat)
    requires n <= |batch|
    ensures k in Roots(batch[..n]) <==> k < n && batch[k].inTime && (batch[k].parent == 0 || batch[k].inbound)
  {
    RootsAreSpans(batch, n);
    if k in Roots(batch[..n]) {
      var i :| 0 <= i < |Roots(batch[..n])| && Roots(batch[..n])[i] == k;
    }
  }

  lemma {:induction false} RootsAscend(batch: seq<Span>, n: nat, i: nat, j: nat)
    requires n <= |batch| && i < j < |Roots(batch[..n])|
    ensures Roots(batch[..n])[i] < Roots(batch[..n])[j]
  {
    if n > 0 {
      OneSpanMore(batch, n - 1);
      RootsAreSpans(batch, n - 1);
      hide Roots;
      if j < |Roots(batch[..n - 1])| { RootsAscend(batch, n - 1, i, j); }
    }
  }

  /** A key's parent is that of its last span. */
  lemma {:induction false} ParentsByPosition(batch: seq<Span>, n: nat, k: nat)
    requires k < n <= |batch| && LastOfKey(batch, n, k)
    ensures KeyAt(batch, k) in Parents(batch[..n]) && Parents(batch[..n])[KeyAt(batch, k)] == batch[k].parent
  {
    OneSpanMore(batch, n - 1);
    hide Parents;
    if k < n - 1 {
      ParentsByPosition(batch, n - 1, k);
      assert KeyAt(batch, n - 1) != KeyAt(batch, k);
    }
  }

  lemma {:induction false} ParentsOnlyOfSpans(batch: seq<Span>, n: nat, key: Key)
    requires n <= |batch| && key in Parents(batch[..n])
    ensures exists k :: 0 <= k < n && KeyAt(batch, k) == key
  {
    if n > 0 {
      OneSpanMore(batch, n - 1);
      hide Parents;
      if key == KeyAt(batch, n - 1) {
      } else {
        ParentsOnlyOfSpans(batch, n - 1, key);
      }
    }
  }

  /** A key's transaction is that of its last root. */
  lemma {:induction false} RootOfByPosition(batch: seq<Span>, n: nat, k: nat)
    requires k < n <= |batch| && LastRootOfKey(batch, n, k)
    ensures var roots, rootOf, key := Roots(batch[..n]), RootOf(batch[..n]), KeyAt(batch, k);
            key in rootOf && rootOf[key] < |roots| && roots[rootOf[key]] == k
  {
    OneSpanMore(batch, n - 1);
    hide Roots, RootOf;
    if k < n - 1 {
      RootOfByPosition(batch, n - 1, k);
      if Opens(batch[n - 1]) { assert KeyAt(batch, n - 1) != KeyAt(batch, k); }
    }
  }

  lemma {:induction false} RootOfOnlyOfRoots(batch: seq<Span>, n: nat, key: Key)
    requires n <= |batch| && key in RootOf(batch[..n])
    ensures exists k :: 0 <= k < n && Opens(batch[k]) && KeyAt(batch, k) == key
  {
    if n > 0 {
      OneSpanMore(batch, n - 1);
      hide RootOf;
      if Opens(batch[n - 1]) && key == KeyAt(batch, n - 1) {
      } else {
        RootOfOnlyOfRoots(batch, n - 1, key);
      }
    }
  }

  /** A trace's first transaction is that of its first root. */
  lemma {:induction false} FirstRootByPosition(batch: seq<Span>, n: nat, k: nat)
    requires k < n <= |batch| && FirstRootOfTrace(batch, k)
    ensures var roots, first, t := Roots(batch[..n]), FirstRoot(batch[..n]), batch[k].trace;
            t in first && first[t] < |roots| && roots[first[t]] == k
  {
    OneSpanMore(batch, n - 1);
    if k < n - 1 {
      hide Roots, FirstRoot;
      FirstRootByPosition(batch, n - 1, k);
    } else {
      NoFirstRootYet(batch, k, k);
    }
  }

  lemma {:induction false} NoFirstRootYet(batch: seq<Span>, n: nat, k: nat)
    requires n <= k < |batch| && FirstRootOfTrace(batch, k)
    ensures batch[k].trace !in FirstRoot(batch[..n])
  {
    if n > 0 {
      NoFirstRootYet(batch, n - 1, k);
      OneSpanMore(batch, n - 1);
    }
  }

  function KeyAt(batch: seq<Span>, k: nat): Key
    requires k < |batch|
  {
    (batch[k].trace, batch[k].id)
  }

  ghost predicate LastOfKey(batch: seq<Span>, n: nat, k: nat)
    requires k < n <= |batch|
  {
    forall j :: k < j < n ==> KeyAt(batch, j) != KeyAt(batch, k)
  }

  ghost predicate LastRootOfKey(batch: seq<Span>, n: nat, k: nat)
    requires k < n <= |batch|
  {
    Opens(batch[k]) && forall j :: k < j < n && Opens(batch[j]) ==> KeyAt(batch, j) != KeyAt(batch, k)
  }

  ghost predicate FirstRootOfTrace(batch: seq<Span>, k: nat)
    requires k < |batch|
  {
    Opens(batch[k]) && forall j :: 0 <= j < k && Opens(batch[j]) ==> batch[j].trace != batch[k].trace
  }

  /** k steps up from id; a parent that is not in the batch leads nowhere. */
  function Up(parents: map<Key, nat>, trace: nat, id: nat, k: nat): nat {
    if k == 0 then id
    else
      var below := Up(parents, trace, id, k - 1);
      if (trace, below) in parents then parents[(trace, below)] else 0
  }

  /** The k-th span id above is a root's, and none below it is. */
  ghost predicate Nearest(parents: map<Key, nat>, rootOf: map<Key, nat>, trace: nat, parent: nat, k: nat) {
    && Up(parents, trace, parent, k) != 0 && (trace, Up(parents, trace, parent, k)) in rootOf
    && forall j: nat :: j < k ==> Up(parents, trace, parent, j) != 0 && (trace, Up(parents, trace, parent, j)) !in rootOf
  }

  /** The transaction a span belongs to. */
  ghost function Owner(parents: map<Key, nat>, rootOf: map<Key, nat>, firstRoot: map<nat, nat>, trace: nat, parent: nat): Option<nat> {
    if exists k: nat :: k < MAX_HOPS && Nearest(parents, rootOf, trace, parent, k) then
      var k: nat :| k < MAX_HOPS && Nearest(parents, rootOf, trace, parent, k);
      Some(rootOf[(trace, Up(parents, trace, parent, k))])
    else if trace in firstRoot then Some(firstRoot[trace]) else None
  }

  lemma NearestIsOne(parents: map<Key, nat>, rootOf: map<Key, nat>, trace: nat, parent: nat, k: nat, m: nat)
    requires Nearest(parents, rootOf, trace, parent, k) && Nearest(parents, rootOf, trace, parent, m)
    ensures k == m
  {
  }

  /** The climb; the limit on hops also ends a loop of parents. */
  method OwningRoot(trace: nat, parent: nat, parents: map<Key, nat>, rootOf: map<Key, nat>, firstRoot: map<nat, nat>)
    returns (i: Option<nat>)
    ensures i == Owner(parents, rootOf, firstRoot, trace, parent)
  {
    var id, hop: nat := parent, 0;
    while id != 0 && hop < MAX_HOPS
      invariant id == Up(parents, trace, parent, hop) && hop <= MAX_HOPS
      invariant forall j: nat :: j < hop ==> Up(parents, trace, parent, j) != 0 && (trace, Up(parents, trace, parent, j)) !in rootOf
      decreases MAX_HOPS - hop
    {
      if (trace, id) in rootOf {
        assert Nearest(parents, rootOf, trace, parent, hop);
        forall k: nat | Nearest(parents, rootOf, trace, parent, k) ensures k == hop {
          NearestIsOne(parents, rootOf, trace, parent, k, hop);
        }
        return Some(rootOf[(trace, id)]);
      }
      id := if (trace, id) in parents then parents[(trace, id)] else 0;
      hop := hop + 1;
    }
    i := if trace in firstRoot then Some(firstRoot[trace]) else None;
  }

  ghost function OwnerAt(batch: seq<Span>, k: nat): Option<nat>
    requires k < |batch|
  {
    Owner(Parents(batch), RootOf(batch), FirstRoot(batch), batch[k].trace, batch[k].parent)
  }

  /** The child spans of transaction i among the first n of the batch. */
  ghost function Members(batch: seq<Span>, n: nat, i: nat): seq<nat>
    requires n <= |batch|
  {
    if n == 0 then [] else
      var earlier := Members(batch, n - 1, i);
      var s := batch[n - 1];
      if !IsRoot(s) && OwnerAt(batch, n - 1) == Some(i) && |earlier| < MAX_MEMBERS && s.inTime then earlier + [n - 1]
      else earlier
  }

  method MapSpans(batch: seq<Span>) returns (txs: seq<Transaction>)
    ensures |txs| == |Roots(batch)|
    ensures forall i :: 0 <= i < |txs| ==> txs[i] == Transaction(Roots(batch)[i], Members(batch, |batch|, i))
  {
    hide Owner, Roots, RootOf, FirstRoot;
    var parents: map<Key, nat>, rootOf: map<Key, nat>, firstRoot: map<nat, nat>;
    parents, txs, rootOf, firstRoot := Index(batch);
    for n := 0 to |batch|
      invariant |txs| == |Roots(batch)|
      invariant forall i :: 0 <= i < |txs| ==> txs[i] == Transaction(Roots(batch)[i], Members(batch, n, i))
    {
      var s := batch[n];
      if IsRoot(s) {
        continue;
      }
      var owner := OwningRoot(s.trace, s.parent, parents, rootOf, firstRoot);
      if owner.None? {
        continue;
      }
      var i := owner.value;
      OwnerIsRoot(batch, n);
      if |txs[i].members| >= MAX_MEMBERS || !s.inTime {
        continue;
      }
      txs := txs[i := txs[i].(members := txs[i].members + [n])];
    }
  }

  /** The first two passes: parents, then a transaction for each root. */
  method Index(batch: seq<Span>)
    returns (parents: map<Key, nat>, txs: seq<Transaction>, rootOf: map<Key, nat>, firstRoot: map<nat, nat>)
    ensures parents == Parents(batch) && rootOf == RootOf(batch) && firstRoot == FirstRoot(batch)
    ensures |txs| == |Roots(batch)| && forall i :: 0 <= i < |txs| ==> txs[i] == Transaction(Roots(batch)[i], [])
  {
    parents, txs, rootOf, firstRoot := map[], [], map[], map[];
    assert batch[..0] == [];
    Nothing();
    hide Roots, RootOf, FirstRoot, Parents;
    for n := 0 to |batch|
      invariant parents == Parents(batch[..n])
    {
      OneSpanMore(batch, n);
      parents := parents[(batch[n].trace, batch[n].id) := batch[n].parent];
    }
    for n := 0 to |batch|
      invariant rootOf == RootOf(batch[..n]) && firstRoot == FirstRoot(batch[..n]) && |txs| == |Roots(batch[..n])|
      invariant forall i :: 0 <= i < |txs| ==> txs[i] == Transaction(Roots(batch[..n])[i], [])
    {
      OneSpanMore(batch, n);
      var s := batch[n];
      if !IsRoot(s) || !s.inTime {
        continue;
      }
      rootOf := rootOf[(s.trace, s.id) := |txs|];
      if s.trace !in firstRoot {
        firstRoot := firstRoot[s.trace := |txs|];
      }
      txs := txs + [Transaction(n, [])];
    }
    assert batch[..|batch|] == batch;
  }

  lemma Nothing()
    ensures Roots([]) == [] && RootOf([]) == map[] && FirstRoot([]) == map[] && Parents([]) == map[]
  {
  }

  /** chain climbs from span to span by parent ids and ends at the first root in time. */
  ghost predicate ClimbsToRoot(batch: seq<Span>, chain: seq<nat>) {
    && |chain| > 1 && (forall i :: 0 <= i < |chain| ==> chain[i] < |batch| && batch[chain[i]].id != 0)
    && (forall i :: 0 <= i < |chain| - 1 ==>
          batch[chain[i + 1]].trace == batch[chain[i]].trace && batch[chain[i + 1]].id == batch[chain[i]].parent)
    && (forall i :: 0 < i < |chain| - 1 ==> !Opens(batch[chain[i]])) && Opens(batch[chain[|chain| - 1]])
  }

  ghost predicate IdsAreUnique(batch: seq<Span>) {
    forall i: nat, j: nat :: i < j < |batch| ==> KeyAt(batch, i) != KeyAt(batch, j)
  }

  lemma {:induction false} UpTheChain(batch: seq<Span>, chain: seq<nat>, i: nat)
    requires IdsAreUnique(batch) && ClimbsToRoot(batch, chain) && i < |chain| - 1
    ensures Up(Parents(batch), batch[chain[0]].trace, batch[chain[0]].parent, i) == batch[chain[i + 1]].id
    ensures batch[chain[i + 1]].trace == batch[chain[0]].trace
  {
    if i > 0 {
      UpTheChain(batch, chain, i - 1);
      ParentsByPosition(batch, |batch|, chain[i]);
      assert batch[..|batch|] == batch;
    }
  }

  lemma NoRootNoTransaction(batch: seq<Span>, c: nat)
    requires IdsAreUnique(batch) && c < |batch| && !Opens(batch[c])
    ensures KeyAt(batch, c) !in RootOf(batch)
  {
    assert batch[..|batch|] == batch;
    hide RootOf;
    if KeyAt(batch, c) in RootOf(batch) { RootOfOnlyOfRoots(batch, |batch|, KeyAt(batch, c)); }
  }

  /** Where ids are not repeated, a child span belongs to the transaction of the first root in
      time above it, however the batch is ordered, if that is no more than 64 spans up. */
  lemma NearestRootOwns(batch: seq<Span>, chain: seq<nat>)
    requires IdsAreUnique(batch) && ClimbsToRoot(batch, chain) && |chain| - 1 <= 64
    ensures var owner := OwnerAt(batch, chain[0]);
            owner.Some? && owner.value < |Roots(batch)| && Roots(batch)[owner.value] == chain[|chain| - 1]
  {
    var m, top := |chain| - 2, chain[|chain| - 1];
    var parents, rootOf, trace, parent := Parents(batch), RootOf(batch), batch[chain[0]].trace, batch[chain[0]].parent;
    assert batch[..|batch|] == batch;
    RootOfByPosition(batch, |batch|, top);
    UpTheChain(batch, chain, m);
    forall j: nat | j < m
      ensures Up(parents, trace, parent, j) != 0 && (trace, Up(parents, trace, parent, j)) !in rootOf
    {
      UpTheChain(batch, chain, j);
      NoRootNoTransaction(batch, chain[j + 1]);
    }
    assert Nearest(parents, rootOf, trace, parent, m);
    forall k: nat | Nearest(parents, rootOf, trace, parent, k) ensures k == m {
      NearestIsOne(parents, rootOf, trace, parent, k, m);
    }
  }

  /** The owner is a transaction of the span's own trace, and there is one whenever the trace has any. */
  lemma OwnerIsRoot(batch: seq<Span>, k: nat)
    requires k < |batch|
    ensures OwnerAt(batch, k).Some? ==>
              && OwnerAt(batch, k).value < |Roots(batch)| && Roots(batch)[OwnerAt(batch, k).value] < |batch|
              && batch[Roots(batch)[OwnerAt(batch, k).value]].trace == batch[k].trace
    ensures OwnerAt(batch, k).None? <==> forall r :: 0 <= r < |batch| && Opens(batch[r]) ==> batch[r].trace != batch[k].trace
  {
    MapsLeadHome(batch, |batch|);
    RootsAreSpans(batch, |batch|);
    assert batch[..|batch|] == batch;
    hide Roots, RootOf, FirstRoot, Parents;
    if OwnerAt(batch, k).None? {
      assert batch[k].trace !in FirstRoot(batch);
    } else {
      var r := Roots(batch)[OwnerAt(batch, k).value];
      assert Opens(batch[r]) && batch[r].trace == batch[k].trace;
    }
  }

  /** A span is in no transaction but its owner's, once, in batch order; roots are in none. */
  lemma {:induction false} MembersBelong(batch: seq<Span>, n: nat, i: nat)
    requires n <= |batch|
    ensures forall m :: m in Members(batch, n, i) ==> m < n && !IsRoot(batch[m]) && batch[m].inTime && OwnerAt(batch, m) == Some(i)
    ensures forall a, b :: 0 <= a < b < |Members(batch, n, i)| ==> Members(batch, n, i)[a] < Members(batch, n, i)[b]
    ensures |Members(batch, n, i)| <= 1000
  {
    hide Owner, Roots, RootOf, FirstRoot, Parents;
    if n > 0 {
      MembersBelong(batch, n - 1, i);
      var earlier := Members(batch, n - 1, i);
      assert forall a :: 0 <= a < |earlier| ==> earlier[a] in earlier;
    }
  }

  /** A child span with an owner is left out only for its time or because the transaction was full before it. */
  lemma {:induction false} LeftOutOnlyWhenFull(batch: seq<Span>, n: nat, k: nat, i: nat)
    requires k < n <= |batch| && !IsRoot(batch[k]) && batch[k].inTime && OwnerAt(batch, k) == Some(i)
    ensures k in Members(batch, n, i) || |Members(batch, k, i)| == 1000
  {
    hide Owner, Roots, RootOf, FirstRoot, Parents;
    if n == k + 1 {
      MembersBelong(batch, k, i);
    } else {
      LeftOutOnlyWhenFull(batch, n - 1, k, i);
    }
  }
}
