/** Round-robin under a budget: each tick walks the sorted list starting just after
    the cursor and stops when its budget is gone. Used by the escalation scheduler
    (keys are incident ids) and the host evaluator (keys are project and name). */
module Rotation {

  ghost predicate StrictOrder<K(!new)>(less: (K, K) -> bool) {
    && (forall a :: !less(a, a))
    && (forall a, b, c :: less(a, b) && less(b, c) ==> less(a, c))
    && (forall a, b :: a == b || less(a, b) || less(b, a))
  }

  ghost predicate Sorted<K(!new)>(less: (K, K) -> bool, s: seq<K>) {
    forall i, j :: 0 <= i < j < |s| ==> less(s[i], s[j])
  }

  /** The first idx items are not after the cursor, the others are. */
  ghost predicate Splits<K(!new)>(less: (K, K) -> bool, s: seq<K>, cursor: K, idx: nat) {
    && idx <= |s|
    && (forall i :: 0 <= i < idx ==> !less(cursor, s[i]))
    && (forall i :: idx <= i < |s| ==> less(cursor, s[i]))
  }

  ghost predicate IsRotation<K(!new)>(less: (K, K) -> bool, s: seq<K>, cursor: K, r: seq<K>) {
    exists idx: nat :: Splits(less, s, cursor, idx) && r == s[idx..] + s[..idx]
  }

  /** sort.Search for the first item after the cursor. */
  method Search<K(!new)>(less: (K, K) -> bool, s: seq<K>, cursor: K) returns (idx: nat)
    requires StrictOrder(less) && Sorted(less, s)
    ensures Splits(less, s, cursor, idx)
  {
    var lo, hi := 0, |s|;
    while lo < hi
      invariant 0 <= lo <= hi <= |s|
      invariant forall i :: 0 <= i < lo ==> !less(cursor, s[i])
      invariant forall i :: hi <= i < |s| ==> less(cursor, s[i])
    {
      var mid := lo + (hi - lo) / 2;
      if less(cursor, s[mid]) { hi := mid; } else { lo := mid + 1; }
    }
    return lo;
  }

  method Rotate<K(!new)>(less: (K, K) -> bool, s: seq<K>, cursor: K) returns (r: seq<K>)
    requires StrictOrder(less) && Sorted(less, s)
    ensures IsRotation(less, s, cursor, r)
    ensures multiset(r) == multiset(s)
  {
    if |s| == 0 {
      assert Splits(less, s, cursor, 0) && s == s[0..] + s[..0];
      return s;
    }
    var idx := Search(less, s, cursor);
    assert s == s[..idx] + s[idx..];
    if idx == 0 {
      assert s == s[idx..] + s[..idx];
      return s;
    }
    return s[idx..] + s[..idx];
  }

  // ----- cyclic order -----

  /** Going up from c and wrapping round, k comes before x. */
  predicate Between<K(!new)>(less: (K, K) -> bool, c: K, k: K, x: K) {
    if less(c, x) then less(c, k) && less(k, x) else less(c, k) || less(k, x)
  }

  /** Positions in a rotation are positions in the cyclic order from the cursor. */
  lemma RotationOrder<K(!new)>(less: (K, K) -> bool, s: seq<K>, cursor: K, r: seq<K>, i: int, j: int)
    requires StrictOrder(less) && Sorted(less, s) && IsRotation(less, s, cursor, r)
    requires 0 <= i < |r| && 0 <= j < |r|
    ensures Between(less, cursor, r[i], r[j]) <==> i < j
  {
    var m := Halves(less, s, cursor, r);
    Side(less, s, cursor, r, m, i, j);
  }

  /** The same from an item already handled. */
  lemma RotationOrderFrom<K(!new)>(less: (K, K) -> bool, s: seq<K>, cursor: K, r: seq<K>, a: int, i: int, j: int)
    requires StrictOrder(less) && Sorted(less, s) && IsRotation(less, s, cursor, r)
    requires 0 <= a < j < |r| && 0 <= i < |r|
    ensures Between(less, r[a], r[i], r[j]) <==> a < i < j
  {
    var m := Halves(less, s, cursor, r);
    Side(less, s, cursor, r, m, a, i);
    Side(less, s, cursor, r, m, a, j);
    Side(less, s, cursor, r, m, i, j);
  }

  /** The first m places of a rotation lie after the cursor, the rest do not. */
  lemma Halves<K(!new)>(less: (K, K) -> bool, s: seq<K>, cursor: K, r: seq<K>) returns (m: int)
    requires IsRotation(less, s, cursor, r)
    ensures 0 <= m <= |r| == |s|
    ensures forall k :: 0 <= k < m ==> r[k] == s[|s| - m + k] && less(cursor, r[k])
    ensures forall k :: m <= k < |r| ==> r[k] == s[k - m] && !less(cursor, r[k])
  {
    var idx: nat :| Splits(less, s, cursor, idx) && r == s[idx..] + s[..idx];
    m := |s| - idx;
  }

  lemma Side<K(!new)>(less: (K, K) -> bool, s: seq<K>, cursor: K, r: seq<K>, m: int, i: int, j: int)
    requires StrictOrder(less) && Sorted(less, s) && 0 <= m <= |r| == |s|
    requires forall k :: 0 <= k < m ==> r[k] == s[|s| - m + k] && less(cursor, r[k])
    requires forall k :: m <= k < |r| ==> r[k] == s[k - m] && !less(cursor, r[k])
    requires 0 <= i < |r| && 0 <= j < |r|
    ensures less(r[i], r[j]) <==> if (i < m) == (j < m) then i < j else j < m
  {
    if (i < m) == (j < m) {
      if i < j { assert less(r[i], r[j]); }
      if j < i { assert less(r[j], r[i]); }
    }
  }

  // ----- fairness -----

  /** One tick: the list it read and how many items of the rotation it finished. */
  datatype Turn<K> = Turn(pending: seq<K>, rotated: seq<K>, done: nat)

  ghost predicate TickFrom<K(!new)>(less: (K, K) -> bool, cursor: K, t: Turn<K>) {
    Sorted(less, t.pending) && IsRotation(less, t.pending, cursor, t.rotated) && t.done <= |t.pending|
  }

  /** A tick that finished nothing keeps its cursor. */
  function CursorAfter<K>(cursor: K, t: Turn<K>): K
    requires t.done <= |t.rotated|
  {
    if t.done > 0 then t.rotated[t.done - 1] else cursor
  }

  ghost predicate Ticks<K(!new)>(less: (K, K) -> bool, cursors: seq<K>, ticks: seq<Turn<K>>) {
    && |cursors| == |ticks| + 1
    && forall i :: 0 <= i < |ticks| ==>
         TickFrom(less, cursors[i], ticks[i]) && |ticks[i].rotated| == |ticks[i].pending|
         && cursors[i + 1] == CursorAfter(cursors[i], ticks[i])
  }

  ghost predicate Handled<K(!new)>(ticks: seq<Turn<K>>, x: K) {
    exists i :: 0 <= i < |ticks| && ticks[i].done <= |ticks[i].rotated| && x in ticks[i].rotated[..ticks[i].done]
  }

  ghost function Done<K>(ticks: seq<Turn<K>>): nat {
    if ticks == [] then 0 else Done(ticks[..|ticks| - 1]) + ticks[|ticks| - 1].done
  }

  /** Who will be served before x. */
  ghost function Ahead<K(!new)>(less: (K, K) -> bool, cursor: K, pending: seq<K>, x: K): set<K> {
    set k | k in pending && Between(less, cursor, k, x)
  }

  /** Newcomers of tick i that got in front of x. */
  ghost function Newcomers<K(!new)>(less: (K, K) -> bool, cursors: seq<K>, ticks: seq<Turn<K>>, i: int, x: K): set<K>
    requires |cursors| == |ticks| + 1 && 0 < i < |ticks|
  {
    set k | k in Ahead(less, cursors[i], ticks[i].pending, x) && k !in ticks[i - 1].pending
  }

  ghost function Arrivals<K(!new)>(less: (K, K) -> bool, cursors: seq<K>, ticks: seq<Turn<K>>, x: K, n: nat): nat
    requires |cursors| == |ticks| + 1 && n <= |ticks|
  {
    if n <= 1 then 0
    else Arrivals(less, cursors, ticks, x, n - 1) + |Newcomers(less, cursors, ticks, n - 1, x)|
  }

  /** Items in front of x after tick i - 1 that tick i no longer finds. */
  ghost function Leavers<K(!new)>(less: (K, K) -> bool, cursors: seq<K>, ticks: seq<Turn<K>>, i: int, x: K): set<K>
    requires |cursors| == |ticks| + 1 && 0 < i < |ticks|
  {
    set k | k in Ahead(less, cursors[i], ticks[i - 1].pending, x) && k !in ticks[i].pending
  }

  ghost function Departures<K(!new)>(less: (K, K) -> bool, cursors: seq<K>, ticks: seq<Turn<K>>, x: K, n: nat): nat
    requires |cursors| == |ticks| + 1 && n <= |ticks|
  {
    if n <= 1 then 0
    else Departures(less, cursors, ticks, x, n - 1) + |Leavers(less, cursors, ticks, n - 1, x)|
  }

  ghost function Elems<K>(s: seq<K>): set<K> {
    set k | k in s
  }

  lemma NoRepeats<K(!new)>(less: (K, K) -> bool, s: seq<K>, cursor: K, r: seq<K>)
    requires StrictOrder(less) && Sorted(less, s) && IsRotation(less, s, cursor, r)
    ensures forall i, j :: 0 <= i < j < |r| ==> r[i] != r[j]
  {
    forall i, j | 0 <= i < j < |r| ensures r[i] != r[j] {
      RotationOrder(less, s, cursor, r, i, j);
      RotationOrder(less, s, cursor, r, j, j);
    }
  }

  lemma {:induction false} SliceSize<K>(r: seq<K>, a: nat, b: nat)
    requires a <= b <= |r| && forall i, j :: 0 <= i < j < |r| ==> r[i] != r[j]
    ensures |Elems(r[a..b])| == b - a
    decreases b
  {
    if a < b {
      SliceSize(r, a, b - 1);
      assert r[a..b] == r[a..b - 1] + [r[b - 1]];
      assert r[b - 1] !in Elems(r[a..b - 1]);
      assert Elems(r[a..b]) == Elems(r[a..b - 1]) + {r[b - 1]};
    }
  }

  /** x's queue from the cursor is what the rotation holds before it. */
  lemma AheadIsPrefix<K(!new)>(less: (K, K) -> bool, s: seq<K>, cursor: K, r: seq<K>, j: nat)
    requires StrictOrder(less) && Sorted(less, s) && IsRotation(less, s, cursor, r) && j < |r|
    ensures Ahead(less, cursor, s, r[j]) == Elems(r[0..j])
  {
    SameElements(less, s, cursor, r);
    forall i | 0 <= i < |r| ensures Between(less, cursor, r[i], r[j]) <==> i < j {
      RotationOrder(less, s, cursor, r, i, j);
    }
    forall k ensures k in Ahead(less, cursor, s, r[j]) <==> k in r[0..j] {
      if k in Ahead(less, cursor, s, r[j]) {
        var i :| 0 <= i < |r| && r[i] == k;
        assert r[0..j][i] == k;
      }
    }
  }

  /** And from an item handled before it, what lies between the two. */
  lemma AheadIsSlice<K(!new)>(less: (K, K) -> bool, s: seq<K>, cursor: K, r: seq<K>, a: nat, j: nat)
    requires StrictOrder(less) && Sorted(less, s) && IsRotation(less, s, cursor, r) && 0 < a <= j < |r|
    ensures Ahead(less, r[a - 1], s, r[j]) == Elems(r[a..j])
  {
    SameElements(less, s, cursor, r);
    forall i | 0 <= i < |r| ensures Between(less, r[a - 1], r[i], r[j]) <==> a <= i < j {
      RotationOrderFrom(less, s, cursor, r, a - 1, i, j);
    }
    forall k ensures k in Ahead(less, r[a - 1], s, r[j]) <==> k in r[a..j] {
      if k in Ahead(less, r[a - 1], s, r[j]) {
        var i :| 0 <= i < |r| && r[i] == k;
        assert r[a..j][i - a] == k;
      }
    }
  }

  /** So an item's queue is as long as its place. */
  lemma QueueFromCursor<K(!new)>(less: (K, K) -> bool, s: seq<K>, cursor: K, r: seq<K>, j: nat)
    requires StrictOrder(less) && Sorted(less, s) && IsRotation(less, s, cursor, r) && j < |r|
    ensures |Ahead(less, cursor, s, r[j])| == j
  {
    hide StrictOrder, Sorted, IsRotation, Ahead;
    AheadIsPrefix(less, s, cursor, r, j);
    NoRepeats(less, s, cursor, r);
    SliceSize(r, 0, j);
  }

  lemma QueueFromItem<K(!new)>(less: (K, K) -> bool, s: seq<K>, cursor: K, r: seq<K>, a: nat, j: nat)
    requires StrictOrder(less) && Sorted(less, s) && IsRotation(less, s, cursor, r) && 0 < a <= j < |r|
    ensures |Ahead(less, r[a - 1], s, r[j])| == j - a
  {
    hide StrictOrder, Sorted, IsRotation, Ahead;
    AheadIsSlice(less, s, cursor, r, a, j);
    NoRepeats(less, s, cursor, r);
    SliceSize(r, a, j);
  }

  lemma PlaceAfter<K>(r: seq<K>, done: nat, x: K) returns (j: nat)
    requires done <= |r| && x in r && x !in r[..done]
    ensures done <= j < |r| && r[j] == x
  {
    j :| j < |r| && r[j] == x;
    assert forall i :: 0 <= i < done ==> r[..done][i] == r[i];
  }

  /** A tick that does not reach x takes exactly the items it handled off x's queue. */
  lemma TickShortens<K(!new)>(less: (K, K) -> bool, cursor: K, t: Turn<K>, x: K)
    requires StrictOrder(less) && TickFrom(less, cursor, t) && |t.rotated| == |t.pending|
    requires x in t.pending && x !in t.rotated[..t.done]
    ensures |Ahead(less, CursorAfter(cursor, t), t.pending, x)| + t.done == |Ahead(less, cursor, t.pending, x)|
  {
    hide StrictOrder, Sorted, IsRotation, Ahead;
    SameElements(less, t.pending, cursor, t.rotated);
    var j := PlaceAfter(t.rotated, t.done, x);
    QueueFromCursor(less, t.pending, cursor, t.rotated, j);
    if t.done > 0 { QueueFromItem(less, t.pending, cursor, t.rotated, t.done, j); }
  }

  /** A tick reaches x exactly when it handles more than x's queue. */
  lemma TickReaches<K(!new)>(less: (K, K) -> bool, cursor: K, t: Turn<K>, x: K)
    requires StrictOrder(less) && TickFrom(less, cursor, t) && x in t.pending
    ensures t.done <= |t.rotated|
    ensures x in t.rotated[..t.done] <==> t.done > |Ahead(less, cursor, t.pending, x)|
  {
    var r := t.rotated;
    SameElements(less, t.pending, cursor, r);
    var j: nat :| j < |r| && r[j] == x;
    QueueFromCursor(less, t.pending, cursor, r, j);
    if j < t.done { assert r[..t.done][j] == x; }
  }

  lemma SameElements<K(!new)>(less: (K, K) -> bool, s: seq<K>, cursor: K, r: seq<K>)
    requires IsRotation(less, s, cursor, r)
    ensures |r| == |s| && forall k :: k in r <==> k in s
  {
    var idx: nat :| Splits(less, s, cursor, idx) && r == s[idx..] + s[..idx];
    assert s == s[..idx] + s[idx..];
  }

  lemma HandledPrefix<K(!new)>(ticks: seq<Turn<K>>, n: nat, x: K)
    requires n <= |ticks|
    ensures Handled(ticks[..n], x) ==> Handled(ticks, x)
  {
    if Handled(ticks[..n], x) {
      var init := ticks[..n];
      var i :| 0 <= i < |init| && init[i].done <= |init[i].rotated| && x in init[i].rotated[..init[i].done];
      assert ticks[i] == init[i];
    }
  }

  lemma {:induction false} QueueLedger<K(!new)>(less: (K, K) -> bool, cursors: seq<K>, ticks: seq<Turn<K>>, x: K)
    requires StrictOrder(less) && Ticks(less, cursors, ticks) && |ticks| > 0
    requires forall i :: 0 <= i < |ticks| ==> x in ticks[i].pending
    requires !Handled(ticks, x)
    ensures Done(ticks) + |Ahead(less, cursors[|ticks|], ticks[|ticks| - 1].pending, x)|
            + Departures(less, cursors, ticks, x, |ticks|)
         == |Ahead(less, cursors[0], ticks[0].pending, x)| + Arrivals(less, cursors, ticks, x, |ticks|)
    decreases |ticks|
  {
    var n := |ticks|;
    var last := ticks[n - 1];
    assert TickFrom(less, cursors[n - 1], last);
    SameElements(less, last.pending, cursors[n - 1], last.rotated);
    TickShortens(less, cursors[n - 1], last, x);
    if n == 1 {
      assert Done(ticks[..0]) == 0;
    } else {
      HandledPrefix(ticks, n - 1, x);
      QueueLedger(less, cursors[..n], ticks[..n - 1], x);
      LedgerPrefix(less, cursors, ticks, x, n - 1);
      QueueTurnsOver(less, cursors, ticks, x);
    }
  }

  /** Between two ticks x's queue loses those who left and gains those who came. */
  lemma QueueTurnsOver<K(!new)>(less: (K, K) -> bool, cursors: seq<K>, ticks: seq<Turn<K>>, x: K)
    requires |cursors| == |ticks| + 1 && |ticks| > 1
    ensures |Ahead(less, cursors[|ticks| - 1], ticks[|ticks| - 1].pending, x)| + |Leavers(less, cursors, ticks, |ticks| - 1, x)|
         == |Ahead(less, cursors[|ticks| - 1], ticks[|ticks| - 2].pending, x)| + |Newcomers(less, cursors, ticks, |ticks| - 1, x)|
  {
    var n := |ticks|;
    var before := Ahead(less, cursors[n - 1], ticks[n - 2].pending, x);
    var now := Ahead(less, cursors[n - 1], ticks[n - 1].pending, x);
    var newcomers, leavers := Newcomers(less, cursors, ticks, n - 1, x), Leavers(less, cursors, ticks, n - 1, x);
    assert now == (before - leavers) + newcomers && (before - leavers) !! newcomers;
    assert before == (before - leavers) + leavers;
  }

  lemma LedgerPrefix<K(!new)>(less: (K, K) -> bool, cursors: seq<K>, ticks: seq<Turn<K>>, x: K, n: nat)
    requires |cursors| == |ticks| + 1 && 1 <= n < |ticks|
    ensures Arrivals(less, cursors[..|ticks|], ticks[..|ticks| - 1], x, n) == Arrivals(less, cursors, ticks, x, n)
    ensures Departures(less, cursors[..|ticks|], ticks[..|ticks| - 1], x, n) == Departures(less, cursors, ticks, x, n)
    decreases n
  {
    if n > 1 {
      LedgerPrefix(less, cursors, ticks, x, n - 1);
      assert Newcomers(less, cursors[..|ticks|], ticks[..|ticks| - 1], n - 1, x) == Newcomers(less, cursors, ticks, n - 1, x);
      assert Leavers(less, cursors[..|ticks|], ticks[..|ticks| - 1], n - 1, x) == Leavers(less, cursors, ticks, n - 1, x);
    }
  }

  /** The ticks have done more than the queue x started with, what came in front of it since
      counted and what left from there not. */
  ghost predicate QueueIsThrough<K(!new)>(less: (K, K) -> bool, cursors: seq<K>, ticks: seq<Turn<K>>, x: K)
    requires |cursors| == |ticks| + 1 && |ticks| > 0
  {
    Done(ticks) + Departures(less, cursors, ticks, x, |ticks|)
    > |Ahead(less, cursors[0], ticks[0].pending, x)| + Arrivals(less, cursors, ticks, x, |ticks|)
  }

  /** The tick that first reaches x is the first by which its queue is through. */
  lemma ReachedWhenThrough<K(!new)>(less: (K, K) -> bool, cursors: seq<K>, ticks: seq<Turn<K>>, x: K)
    requires StrictOrder(less) && Ticks(less, cursors, ticks) && |ticks| > 0
    requires forall i :: 0 <= i < |ticks| ==> x in ticks[i].pending
    requires !Handled(ticks[..|ticks| - 1], x)
    ensures Handled(ticks, x) <==> QueueIsThrough(less, cursors, ticks, x)
  {
    hide Handled, Ahead, Between;
    var n := |ticks|;
    var last := ticks[n - 1];
    assert TickFrom(less, cursors[n - 1], last);
    TickReaches(less, cursors[n - 1], last, x);
    HandledSplit(ticks, x);
    if n == 1 {
      assert Done(ticks[..0]) == 0;
    } else {
      QueueLedger(less, cursors[..n], ticks[..n - 1], x);
      LedgerPrefix(less, cursors, ticks, x, n - 1);
      QueueTurnsOver(less, cursors, ticks, x);
    }
  }

  lemma HandledSplit<K(!new)>(ticks: seq<Turn<K>>, x: K)
    requires |ticks| > 0 && ticks[|ticks| - 1].done <= |ticks[|ticks| - 1].rotated|
    ensures var last := ticks[|ticks| - 1];
            Handled(ticks, x) <==> Handled(ticks[..|ticks| - 1], x) || x in last.rotated[..last.done]
  {
    HandledPrefix(ticks, |ticks| - 1, x);
    if Handled(ticks, x) {
      var i :| 0 <= i < |ticks| && ticks[i].done <= |ticks[i].rotated| && x in ticks[i].rotated[..ticks[i].done];
      if i < |ticks| - 1 { assert ticks[..|ticks| - 1][i] == ticks[i]; }
    }
  }

  lemma {:induction false} FirstHandled<K(!new)>(ticks: seq<Turn<K>>, x: K) returns (m: nat)
    requires Handled(ticks, x)
    ensures 0 < m <= |ticks| && Handled(ticks[..m], x) && !Handled(ticks[..m - 1], x)
    decreases |ticks|
  {
    var n := |ticks|;
    if Handled(ticks[..n - 1], x) {
      m := FirstHandled(ticks[..n - 1], x);
      assert ticks[..n - 1][..m] == ticks[..m] && ticks[..n - 1][..m - 1] == ticks[..m - 1];
    } else {
      m := n;
      assert ticks[..n] == ticks;
    }
  }

  lemma TicksPrefix<K(!new)>(less: (K, K) -> bool, cursors: seq<K>, ticks: seq<Turn<K>>, m: nat)
    requires Ticks(less, cursors, ticks) && m <= |ticks|
    ensures Ticks(less, cursors[..m + 1], ticks[..m])
  {
  }

  /** Exactly when an item that stays pending gets its turn: once its queue is through,
      newcomers and leavers counted. Nothing else can delay it, nothing less brings it. */
  lemma HandledExactlyWhenThrough<K(!new)>(less: (K, K) -> bool, cursors: seq<K>, ticks: seq<Turn<K>>, x: K)
    requires StrictOrder(less) && Ticks(less, cursors, ticks)
    requires forall i :: 0 <= i < |ticks| ==> x in ticks[i].pending
    ensures Handled(ticks, x) <==>
            exists m :: 0 < m <= |ticks| && QueueIsThrough(less, cursors[..m + 1], ticks[..m], x)
  {
    hide QueueIsThrough, Handled, TickFrom;
    if Handled(ticks, x) {
      var m := FirstHandled(ticks, x);
      TicksPrefix(less, cursors, ticks, m);
      assert ticks[..m][..m - 1] == ticks[..m - 1];
      ReachedWhenThrough(less, cursors[..m + 1], ticks[..m], x);
    } else if m :| 0 < m <= |ticks| && QueueIsThrough(less, cursors[..m + 1], ticks[..m], x) {
      TicksPrefix(less, cursors, ticks, m);
      HandledPrefix(ticks, m, x);
      ThroughIsHandled(less, cursors[..m + 1], ticks[..m], x);
    }
  }

  lemma ThroughIsHandled<K(!new)>(less: (K, K) -> bool, cursors: seq<K>, ticks: seq<Turn<K>>, x: K)
    requires StrictOrder(less) && Ticks(less, cursors, ticks) && |ticks| > 0
    requires forall i :: 0 <= i < |ticks| ==> x in ticks[i].pending
    requires QueueIsThrough(less, cursors, ticks, x)
    ensures Handled(ticks, x)
  {
    if !Handled(ticks, x) {
      QueueLedger(less, cursors, ticks, x);
    }
  }

  /** The same, tick by tick: some tick handled more than was in front of x when it began. */
  lemma HandledByOneTick<K(!new)>(less: (K, K) -> bool, cursors: seq<K>, ticks: seq<Turn<K>>, x: K)
    requires StrictOrder(less) && Ticks(less, cursors, ticks)
    requires forall i :: 0 <= i < |ticks| ==> x in ticks[i].pending
    ensures Handled(ticks, x) <==>
            exists i :: 0 <= i < |ticks| && ticks[i].done > |Ahead(less, cursors[i], ticks[i].pending, x)|
  {
    forall i | 0 <= i < |ticks| ensures ticks[i].done <= |ticks[i].rotated|
      && (x in ticks[i].rotated[..ticks[i].done] <==> ticks[i].done > |Ahead(less, cursors[i], ticks[i].pending, x)|)
    {
      TickReaches(less, cursors[i], ticks[i], x);
    }
  }

  /** No starvation: an item that stays pending is handled as soon as the ticks have
      handled more than the queue in front of it, newcomers to that queue included. */
  lemma HandledOnceQueueIsThrough<K(!new)>(less: (K, K) -> bool, cursors: seq<K>, ticks: seq<Turn<K>>, x: K)
    requires StrictOrder(less) && Ticks(less, cursors, ticks) && |ticks| > 0
    requires forall i :: 0 <= i < |ticks| ==> x in ticks[i].pending
    requires Done(ticks) > |Ahead(less, cursors[0], ticks[0].pending, x)| + Arrivals(less, cursors, ticks, x, |ticks|)
    ensures Handled(ticks, x)
  {
    if !Handled(ticks, x) {
      QueueLedger(less, cursors, ticks, x);
    }
  }

  /** On a fixed list, once the ticks together have done as much as its length,
      everything has been handled, however the work was cut, empty ticks included. */
  lemma FixedListFullyHandled<K(!new)>(less: (K, K) -> bool, cursors: seq<K>, ticks: seq<Turn<K>>, pending: seq<K>, x: K)
    requires StrictOrder(less) && Ticks(less, cursors, ticks) && |ticks| > 0
    requires forall i :: 0 <= i < |ticks| ==> ticks[i].pending == pending
    requires Done(ticks) >= |pending| && x in pending
    ensures Handled(ticks, x)
  {
    NoArrivals(less, cursors, ticks, pending, x, |ticks|);
    var t := ticks[0];
    assert TickFrom(less, cursors[0], t);
    SameElements(less, pending, cursors[0], t.rotated);
    var j: nat :| j < |t.rotated| && t.rotated[j] == x;
    AheadIsPrefix(less, pending, cursors[0], t.rotated, j);
    NoRepeats(less, pending, cursors[0], t.rotated);
    SliceSize(t.rotated, 0, j);
    HandledOnceQueueIsThrough(less, cursors, ticks, x);
  }

  lemma NoArrivals<K(!new)>(less: (K, K) -> bool, cursors: seq<K>, ticks: seq<Turn<K>>, pending: seq<K>, x: K, n: nat)
    requires |cursors| == |ticks| + 1 && n <= |ticks|
    requires forall i :: 0 <= i < |ticks| ==> ticks[i].pending == pending
    ensures Arrivals(less, cursors, ticks, x, n) == 0
    decreases n
  {
    if n > 1 {
      NoArrivals(less, cursors, ticks, pending, x, n - 1);
      assert Newcomers(less, cursors, ticks, n - 1, x) == {};
    }
  }

  /** Walks the list until the deadline, which lets budget items through. */
  method Pass<K>(items: seq<K>, budget: nat) returns (handled: seq<K>, done: nat)
    ensures done == if budget < |items| then budget else |items|
    ensures handled == items[..done]
  {
    done := |items|;
    handled := [];
    for i := 0 to |items|
      invariant handled == items[..i] && i <= budget && done == |items|
    {
      if i >= budget {
        done := i;
        break;
      }
      handled := handled + [items[i]];
    }
  }

  // ----- the escalation scheduler -----

  predicate IdLess(a: int, b: int) { a < b }

  lemma IdLessIsOrder()
    ensures StrictOrder(IdLess)
  {
  }

  /** Incidents go by number: those above the cursor in ascending order, then the rest. */
  lemma AboveTheCursorFirst(cursor: int, t: Turn<int>, i: nat, j: nat)
    requires TickFrom(IdLess, cursor, t) && i < j < |t.rotated|
    ensures t.rotated[j] > cursor ==> t.rotated[i] > cursor
    ensures (t.rotated[i] > cursor) == (t.rotated[j] > cursor) ==> t.rotated[i] < t.rotated[j]
  {
    var s := t.pending;
    var idx: nat :| Splits(IdLess, s, cursor, idx) && t.rotated == s[idx..] + s[..idx];
    assert forall k :: 0 <= k < |s| ==> t.rotated[k] == if k < |s| - idx then s[idx + k] else s[k - (|s| - idx)];
  }

  function Min(a: nat, b: nat): nat {
    if a < b then a else b
  }

  /** How many incidents the sources before the i-th have open. */
  function Total(pendings: seq<seq<int>>, i: nat): nat
    requires i <= |pendings|
  {
    if i == 0 then 0 else Total(pendings, i - 1) + |pendings[i - 1]|
  }

  /** What is left of the shared deadline for the i-th source. */
  function Left(pendings: seq<seq<int>>, budget: nat, i: nat): nat
    requires i <= |pendings|
  {
    budget - Min(budget, Total(pendings, i))
  }

  /** Incidents passed over; a source the deadline cut off altogether is not in the count. */
  function Skipped(pendings: seq<seq<int>>, budget: nat, i: nat): nat
    requires i <= |pendings|
  {
    if i == 0 then 0
    else if Left(pendings, budget, i - 1) == 0 then Skipped(pendings, budget, i - 1)
    else Skipped(pendings, budget, i - 1) + |pendings[i - 1]| - Min(|pendings[i - 1]|, Left(pendings, budget, i - 1))
  }

  /** A source's turn: its own rotation, with what the sources before it left of the deadline. */
  ghost predicate SourceTurn(pendings: seq<seq<int>>, budget: nat, i: nat, cursor: int, t: Turn<int>)
    requires i < |pendings|
  {
    && TickFrom(IdLess, cursor, t) && t.pending == pendings[i] && |t.rotated| == |t.pending|
    && t.done == Min(|pendings[i]|, Left(pendings, budget, i))
  }

  class Scheduler {
    /** One cursor per source, in the order of the bindings. */
    var cursors: seq<int>
    var skipped: nat

    constructor (sources: nat)
      ensures cursors == seq(sources, _ => 0) && skipped == 0
    {
      cursors, skipped := seq(sources, _ => 0), 0;
    }

    /** One source's share: the rotated list until the deadline. */
    method Serve(i: nat, pending: seq<int>, budget: nat) returns (handled: seq<int>, ghost t: Turn<int>)
      requires i < |cursors| && Sorted(IdLess, pending)
      modifies this`cursors
      ensures TickFrom(IdLess, old(cursors)[i], t) && t.pending == pending && |t.rotated| == |pending|
      ensures t.done == Min(|pending|, budget) && handled == t.rotated[..t.done]
      ensures cursors == old(cursors)[i := CursorAfter(old(cursors)[i], t)]
    {
      var rotated := Rotate(IdLess, pending, cursors[i]);
      SameElements(IdLess, pending, cursors[i], rotated);
      var done;
      handled, done := Pass(rotated, budget);
      t := Turn(pending, rotated, done);
      if done > 0 {
        cursors := cursors[i := rotated[done - 1]];
      }
    }

    /** One tick: the sources in their order share one deadline, which lets budget incidents
        through. A source that cannot be read counts as empty; one the deadline cuts off
        keeps its cursor. */
    method Tick(pendings: seq<seq<int>>, budget: nat) returns (handled: seq<seq<int>>, ghost turns: seq<Turn<int>>)
      requires |pendings| == |cursors| && forall i :: 0 <= i < |pendings| ==> Sorted(IdLess, pendings[i])
      modifies this
      ensures |handled| == |turns| <= |pendings| == |cursors|
      ensures forall i :: 0 <= i < |handled| ==>
                && SourceTurn(pendings, budget, i, old(cursors)[i], turns[i])
                && handled[i] == turns[i].rotated[..turns[i].done] && cursors[i] == CursorAfter(old(cursors)[i], turns[i])
      ensures forall i :: |handled| <= i < |pendings| ==> cursors[i] == old(cursors)[i] && Left(pendings, budget, i) == 0
      ensures skipped == Skipped(pendings, budget, |pendings|)
    {
      hide Sorted, TickFrom, CursorAfter;
      handled, turns := [], [];
      var left, count := budget, 0;
      while |handled| < |pendings|
        invariant |handled| == |turns| <= |pendings| == |cursors|
        invariant left == Left(pendings, budget, |handled|) && count == Skipped(pendings, budget, |handled|)
        invariant forall i :: 0 <= i < |handled| ==>
                    && SourceTurn(pendings, budget, i, old(cursors)[i], turns[i])
                    && handled[i] == turns[i].rotated[..turns[i].done] && cursors[i] == CursorAfter(old(cursors)[i], turns[i])
        invariant forall i :: |handled| <= i < |cursors| ==> cursors[i] == old(cursors)[i]
        decreases |pendings| - |handled|
      {
        if left == 0 {
          break;
        }
        var i := |handled|;
        ghost var t;
        var h;
        h, t := Serve(i, pendings[i], left);
        count := count + |pendings[i]| - |h|;
        left := left - |h|;
        handled, turns := handled + [h], turns + [t];
      }
      skipped := count;
      ghost var reached := |handled|;
      if reached < |pendings| { CutOff(pendings, budget, reached, |pendings|); }
    }
  }

  /** Behind a source without time left there is none left either, and nothing more is counted as skipped. */
  lemma {:induction false} CutOff(pendings: seq<seq<int>>, budget: nat, i: nat, j: nat)
    requires i <= j <= |pendings| && Left(pendings, budget, i) == 0
    ensures forall k :: i <= k <= j ==> Left(pendings, budget, k) == 0
    ensures Skipped(pendings, budget, j) == Skipped(pendings, budget, i)
    decreases j
  {
    if i < j {
      CutOff(pendings, budget, i, j - 1);
      assert Left(pendings, budget, j - 1) == 0;
      assert budget <= Total(pendings, j - 1) <= Total(pendings, j);
      assert Left(pendings, budget, j) == 0;
    }
  }

  /** A source the deadline cut off had a turn in which nothing was done. */
  lemma IdleTurn(pendings: seq<seq<int>>, budget: nat, i: nat, cursor: int) returns (t: Turn<int>)
    requires i < |pendings| && Sorted(IdLess, pendings[i]) && Left(pendings, budget, i) == 0
    ensures SourceTurn(pendings, budget, i, cursor, t) && CursorAfter(cursor, t) == cursor
  {
    var s, idx: nat := pendings[i], 0;
    while idx < |s| && s[idx] <= cursor
      invariant idx <= |s| && forall k :: 0 <= k < idx ==> !IdLess(cursor, s[k])
    {
      idx := idx + 1;
    }
    forall k | idx <= k < |s| ensures IdLess(cursor, s[k]) {
      if k > idx { assert IdLess(s[idx], s[k]); }
    }
    assert Splits(IdLess, s, cursor, idx);
    t := Turn(s, s[idx..] + s[..idx], 0);
  }

  /** The source gets to work exactly in the ticks whose deadline outlasts those before it. */
  lemma {:induction false} WorksWhenReached(pendings: seq<seq<int>>, i: nat, budgets: seq<nat>, cursors: seq<int>, ticks: seq<Turn<int>>)
    requires i < |pendings| && |budgets| == |ticks| && Ticks(IdLess, cursors, ticks)
    requires forall k :: 0 <= k < |ticks| ==> SourceTurn(pendings, budgets[k], i, cursors[k], ticks[k])
    ensures Done(ticks) > 0 <==> pendings[i] != [] && Reached(budgets, Total(pendings, i))
    decreases |ticks|
  {
    if ticks != [] {
      var n := |ticks| - 1;
      WorksWhenReached(pendings, i, budgets[..n], cursors[..n + 1], ticks[..n]);
      assert SourceTurn(pendings, budgets[n], i, cursors[n], ticks[n]);
      hide TickFrom, Ticks, SourceTurn;
      ReachedNow(budgets, Total(pendings, i));
    }
  }

  ghost predicate Reached(budgets: seq<nat>, total: nat) {
    exists k :: 0 <= k < |budgets| && budgets[k] > total
  }

  lemma ReachedNow(budgets: seq<nat>, total: nat)
    requires budgets != []
    ensures Reached(budgets, total) <==> Reached(budgets[..|budgets| - 1], total) || budgets[|budgets| - 1] > total
  {
    var n := |budgets| - 1;
    assert forall k :: 0 <= k < n ==> budgets[..n][k] == budgets[k];
  }

  /** On fixed lists a source gets work in exactly those ticks whose deadline lets more through
      than all sources before it have open; in all other ticks it waits, however many there are. */
  lemma LaterSourcesWait(pendings: seq<seq<int>>, i: nat, budgets: seq<nat>, cursors: seq<int>, ticks: seq<Turn<int>>)
    requires i < |pendings| && |budgets| == |ticks| && Ticks(IdLess, cursors, ticks)
    requires forall k :: 0 <= k < |ticks| ==> SourceTurn(pendings, budgets[k], i, cursors[k], ticks[k])
    ensures Done(ticks) > 0 <==> pendings[i] != [] && exists k :: 0 <= k < |budgets| && budgets[k] > Total(pendings, i)
    ensures Done(ticks) == 0 ==> forall x :: !Handled(ticks, x)
    ensures Done(ticks) >= |pendings[i]| && |ticks| > 0 ==> forall x :: x in pendings[i] ==> Handled(ticks, x)
  {
    WorksWhenReached(pendings, i, budgets, cursors, ticks);
    HandledByDone(ticks);
    if |ticks| > 0 && Done(ticks) >= |pendings[i]| {
      FixedSourceHandled(pendings, i, budgets, cursors, ticks);
    }
  }

  lemma FixedSourceHandled(pendings: seq<seq<int>>, i: nat, budgets: seq<nat>, cursors: seq<int>, ticks: seq<Turn<int>>)
    requires i < |pendings| && |budgets| == |ticks| > 0 && Ticks(IdLess, cursors, ticks) && Done(ticks) >= |pendings[i]|
    requires forall k :: 0 <= k < |ticks| ==> SourceTurn(pendings, budgets[k], i, cursors[k], ticks[k])
    ensures forall x :: x in pendings[i] ==> Handled(ticks, x)
  {
    forall x | x in pendings[i] ensures Handled(ticks, x) {
      FixedListFullyHandled(IdLess, cursors, ticks, pendings[i], x);
    }
  }

  lemma {:induction false} HandledByDone<K(!new)>(ticks: seq<Turn<K>>)
    ensures Done(ticks) == 0 ==> forall x :: !Handled(ticks, x)
    decreases |ticks|
  {
    if ticks != [] && Done(ticks) == 0 {
      HandledByDone(ticks[..|ticks| - 1]);
      forall x ensures !Handled(ticks, x) {
        HandledSplit(ticks, x);
      }
    }
  }

  function StormTick(i: nat): Turn<int> { Turn([1, i + 2], [i + 2, 1], 1) }

  /** The bound cannot do without the newcomers: however long the run, an old incident
      that each tick finds behind one newer one is never reached. */
  lemma InflowStarves(n: nat) returns (cursors: seq<int>, ticks: seq<Turn<int>>)
    ensures Ticks(IdLess, cursors, ticks) && |ticks| == n && Done(ticks) == n
    ensures forall i :: 0 <= i < n ==> 1 in ticks[i].pending
    ensures !Handled(ticks, 1)
  {
    cursors := seq(n + 1, i requires 0 <= i < n + 1 => i + 1);
    ticks := seq(n, i requires 0 <= i < n => StormTick(i));
    forall i | 0 <= i < n
      ensures TickFrom(IdLess, cursors[i], ticks[i]) && cursors[i + 1] == CursorAfter(cursors[i], ticks[i])
    {
      var p := ticks[i].pending;
      assert Splits(IdLess, p, cursors[i], 1);
      assert ticks[i].rotated == p[1..] + p[..1];
    }
    StormDone(n);
  }

  lemma {:induction false} StormDone(n: nat)
    ensures Done(seq(n, i requires 0 <= i < n => StormTick(i))) == n
  {
    var ticks := seq(n, i requires 0 <= i < n => StormTick(i));
    if n > 0 {
      StormDone(n - 1);
      assert ticks[..n - 1] == seq(n - 1, i requires 0 <= i < n - 1 => StormTick(i));
    }
  }

  // ----- the host evaluator -----

  datatype HostKey = HostKey(projectID: int, name: string)

  /** Byte-wise string order. */
  predicate StringLess(a: string, b: string) {
    if b == "" then false
    else if a == "" then true
    else if a[0] != b[0] then a[0] < b[0]
    else StringLess(a[1..], b[1..])
  }

  predicate HostLess(a: HostKey, b: HostKey) {
    if a.projectID != b.projectID then a.projectID < b.projectID else StringLess(a.name, b.name)
  }

  lemma {:induction false} StringLessTotal(a: string, b: string)
    ensures !StringLess(a, a)
    ensures a == b || StringLess(a, b) || StringLess(b, a)
    decreases |a| + |b|
  {
    if a != "" { StringLessTotal(a[1..], if b == "" then "" else b[1..]); }
    if a != "" && b != "" && a[0] == b[0] {
      assert a == [a[0]] + a[1..] && b == [b[0]] + b[1..];
    }
  }

  lemma {:induction false} StringLessTransitive(a: string, b: string, c: string)
    requires StringLess(a, b) && StringLess(b, c)
    ensures StringLess(a, c)
    decreases |a|
  {
    if a != "" && a[0] == b[0] == c[0] {
      StringLessTransitive(a[1..], b[1..], c[1..]);
    }
  }

  /** By bytes: the names first differ where a has the lower one, or a ends. */
  ghost predicate FirstLower(a: string, b: string, i: nat) {
    i <= |a| && i < |b| && a[..i] == b[..i] && (i == |a| || a[i] < b[i])
  }

  lemma {:induction false} StringLessMeans(a: string, b: string)
    ensures StringLess(a, b) <==> exists i: nat :: FirstLower(a, b, i)
    decreases |a| + |b|
  {
    if a == "" {
      if b != "" { assert FirstLower(a, b, 0); }
    } else if b != "" && a[0] == b[0] {
      StringLessMeans(a[1..], b[1..]);
      if i: nat :| FirstLower(a[1..], b[1..], i) {
        assert a[..i + 1] == [a[0]] + a[1..][..i] && b[..i + 1] == [b[0]] + b[1..][..i];
        assert FirstLower(a, b, i + 1);
      }
      if i: nat :| FirstLower(a, b, i) {
        assert i > 0;
        assert a[1..][..i - 1] == a[..i][1..] && b[1..][..i - 1] == b[..i][1..];
        assert FirstLower(a[1..], b[1..], i - 1);
      }
    } else if b != "" {
      if a[0] < b[0] { assert FirstLower(a, b, 0); }
      if i: nat :| FirstLower(a, b, i) {
        assert i > 0 ==> a[..i][0] == b[..i][0];
      }
    }
  }

  /** Hosts go by project number and then by the bytes of their names, both ascending. */
  lemma HostLessMeans(a: HostKey, b: HostKey)
    ensures HostLess(a, b) <==>
            a.projectID < b.projectID || (a.projectID == b.projectID && exists i: nat :: FirstLower(a.name, b.name, i))
  {
    StringLessMeans(a.name, b.name);
  }

  lemma HostLessIsOrder()
    ensures StrictOrder(HostLess)
  {
    forall a, b ensures !HostLess(a, a) && (a == b || HostLess(a, b) || HostLess(b, a)) {
      StringLessTotal(a.name, b.name);
    }
    forall a, b, c | HostLess(a, b) && HostLess(b, c) ensures HostLess(a, c) {
      if a.projectID == b.projectID == c.projectID { StringLessTransitive(a.name, b.name, c.name); }
    }
  }

  /** How many hosts a tick gets through with both passes. */
  function BothPasses(hosts: seq<HostKey>, silentBudget: nat, thresholdBudget: nat, metrics: bool): nat {
    Min(|hosts|, if metrics then Min(silentBudget, thresholdBudget) else silentBudget)
  }

  /** One tick as HostEvaluator.Tick leaves it: its turn and the hosts of either pass. */
  datatype HostTick = HostTick(silentBudget: nat, thresholdBudget: nat, metrics: bool,
                               turn: Turn<HostKey>, silent: seq<HostKey>, threshold: seq<HostKey>)

  ghost predicate HostTicks(hosts: seq<HostKey>, cursors: seq<HostKey>, ticks: seq<HostTick>) {
    && |cursors| == |ticks| + 1
    && forall i :: 0 <= i < |ticks| ==> HostTicked(hosts, cursors[i], ticks[i], cursors[i + 1])
  }

  ghost predicate HostTicked(hosts: seq<HostKey>, cursor: HostKey, k: HostTick, cursor': HostKey) {
    var t := k.turn;
    && TickFrom(HostLess, cursor, t) && t.pending == hosts && |t.rotated| == |hosts|
    && k.silent == t.rotated[..Min(k.silentBudget, |hosts|)]
    && k.threshold == (if k.metrics then t.rotated[..Min(k.thresholdBudget, |hosts|)] else [])
    && t.done == BothPasses(hosts, k.silentBudget, k.thresholdBudget, k.metrics) && cursor' == CursorAfter(cursor, t)
  }

  /** Hosts got through with both passes, by the budgets alone. */
  function ThroughBoth(hosts: seq<HostKey>, ticks: seq<HostTick>): nat {
    if ticks == [] then 0
    else
      var k := ticks[|ticks| - 1];
      ThroughBoth(hosts, ticks[..|ticks| - 1]) + BothPasses(hosts, k.silentBudget, k.thresholdBudget, k.metrics)
  }

  function Turns(ticks: seq<HostTick>): (turns: seq<Turn<HostKey>>)
    ensures |turns| == |ticks| && forall i :: 0 <= i < |ticks| ==> turns[i] == ticks[i].turn
  {
    if ticks == [] then [] else Turns(ticks[..|ticks| - 1]) + [ticks[|ticks| - 1].turn]
  }

  lemma {:induction false} TurnsDone(hosts: seq<HostKey>, cursors: seq<HostKey>, ticks: seq<HostTick>)
    requires HostTicks(hosts, cursors, ticks)
    ensures Done(Turns(ticks)) == ThroughBoth(hosts, ticks)
    decreases |ticks|
  {
    if ticks != [] {
      var n := |ticks| - 1;
      TurnsDone(hosts, cursors[..n + 1], ticks[..n]);
      assert Turns(ticks)[..n] == Turns(ticks[..n]);
      assert HostTicked(hosts, cursors[n], ticks[n], cursors[n + 1]);
    }
  }

  /** However the budgets fall, on a fixed list every host has had both passes in one tick
      as soon as the smaller budgets of the ticks add up to the length of the list. */
  lemma EveryHostGetsBothPasses(hosts: seq<HostKey>, cursors: seq<HostKey>, ticks: seq<HostTick>, h: HostKey) returns (i: nat)
    requires HostTicks(hosts, cursors, ticks) && ThroughBoth(hosts, ticks) >= |hosts| && h in hosts
    ensures i < |ticks| && h in ticks[i].silent && (ticks[i].metrics ==> h in ticks[i].threshold)
  {
    hide HostTicked, HostTicks, BothPasses, StrictOrder, HostLess, TickFrom, Ticks, Done, CursorAfter, ThroughBoth;
    HostLessIsOrder();
    SameTurns(hosts, cursors, ticks);
    TurnsDone(hosts, cursors, ticks);
    TurnsAreTicks(hosts, cursors, ticks);
    NoHostsNoTicks(hosts, ticks);
    var turns := Turns(ticks);
    FixedListFullyHandled(HostLess, cursors, turns, hosts, h);
    i :| 0 <= i < |turns| && turns[i].done <= |turns[i].rotated| && h in turns[i].rotated[..turns[i].done];
    DoneMeansBoth(hosts, cursors[i], ticks[i], cursors[i + 1], h);
  }

  lemma SameTurns(hosts: seq<HostKey>, cursors: seq<HostKey>, ticks: seq<HostTick>)
    requires HostTicks(hosts, cursors, ticks)
    ensures |cursors| == |ticks| + 1
    ensures forall i :: 0 <= i < |ticks| ==> HostTicked(hosts, cursors[i], ticks[i], cursors[i + 1])
  {
  }

  lemma NoHostsNoTicks(hosts: seq<HostKey>, ticks: seq<HostTick>)
    requires ThroughBoth(hosts, ticks) > 0
    ensures |ticks| > 0
  {
  }

  lemma TurnsAreTicks(hosts: seq<HostKey>, cursors: seq<HostKey>, ticks: seq<HostTick>)
    requires HostTicks(hosts, cursors, ticks)
    ensures Ticks(HostLess, cursors, Turns(ticks)) && forall i :: 0 <= i < |ticks| ==> Turns(ticks)[i].pending == hosts
  {
    hide TickFrom, HostLess, CursorAfter, BothPasses;
    var turns := Turns(ticks);
    forall j | 0 <= j < |turns|
      ensures TickFrom(HostLess, cursors[j], turns[j]) && turns[j].pending == hosts
              && |turns[j].rotated| == |turns[j].pending| && turns[j].done <= |turns[j].rotated|
              && cursors[j + 1] == CursorAfter(cursors[j], turns[j])
    {
      HostTickIsTurn(hosts, cursors[j], ticks[j], cursors[j + 1]);
    }
  }

  lemma HostTickIsTurn(hosts: seq<HostKey>, cursor: HostKey, k: HostTick, cursor': HostKey)
    requires HostTicked(hosts, cursor, k, cursor')
    ensures TickFrom(HostLess, cursor, k.turn) && k.turn.pending == hosts && |k.turn.rotated| == |hosts|
    ensures k.turn.done <= |hosts| && cursor' == CursorAfter(cursor, k.turn)
  {
  }

  lemma DoneMeansBoth(hosts: seq<HostKey>, cursor: HostKey, k: HostTick, cursor': HostKey, h: HostKey)
    requires HostTicked(hosts, cursor, k, cursor') && h in k.turn.rotated[..k.turn.done]
    ensures h in k.silent && (k.metrics ==> h in k.threshold)
  {
    var t := k.turn;
    var at :| 0 <= at < t.done && t.rotated[..t.done][at] == h;
    assert k.silent[at] == h && (k.metrics ==> k.threshold[at] == h);
  }

  class HostEvaluator {
    var cursor: HostKey
    var skipped: nat

    constructor ()
      ensures cursor == HostKey(0, "") && skipped == 0
    {
      cursor, skipped := HostKey(0, ""), 0;
    }

    /** The silence pass runs first and over the whole list; the threshold pass, when
        metrics are configured, second. A host counts as done when both passed it. */
    method Tick(hosts: seq<HostKey>, silentBudget: nat, thresholdBudget: nat, metrics: bool)
      returns (silent: seq<HostKey>, threshold: seq<HostKey>, ghost t: Turn<HostKey>)
      requires Sorted(HostLess, hosts)
      modifies this
      ensures TickFrom(HostLess, old(cursor), t) && t.pending == hosts && |t.rotated| == |hosts|
      ensures silent == t.rotated[..Min(silentBudget, |hosts|)]
      ensures threshold == if metrics then t.rotated[..Min(thresholdBudget, |hosts|)] else []
      ensures t.done == BothPasses(hosts, silentBudget, thresholdBudget, metrics)
      ensures skipped == |hosts| - t.done && cursor == CursorAfter(old(cursor), t)
      ensures HostTicked(hosts, old(cursor), HostTick(silentBudget, thresholdBudget, metrics, t, silent, threshold), cursor)
    {
      HostLessIsOrder();
      hide Sorted, IsRotation, StrictOrder, HostLess;
      var rotated := Rotate(HostLess, hosts, cursor);
      SameElements(HostLess, hosts, cursor, rotated);
      var silentDone;
      silent, silentDone := Pass(rotated, silentBudget);
      var thresholdDone := |rotated|;
      threshold := [];
      if metrics {
        threshold, thresholdDone := Pass(rotated, thresholdBudget);
      }
      var furthest := silentDone;
      if thresholdDone < furthest {
        furthest := thresholdDone;
      }
      t := Turn(hosts, rotated, furthest);
      skipped := |rotated| - furthest;
      if furthest > 0 {
        cursor := rotated[furthest - 1];
      }
    }
  }
}
