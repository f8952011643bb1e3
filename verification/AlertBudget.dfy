/** A project's budget of notifications per window, the count of those it refused, and
    the digester that drains that count. Each statement is one atomic step; replicas
    take them in any order. */
module AlertBudget {

  const DIGEST_BATCH := 50

  datatype Row = Row(windowStart: int, sent: nat, suppressed: nat)

  /** A count taken off its row and not yet delivered, put back or lost. */
  datatype Batch = Batch(project: int, suppressed: nat, since: int)

  function At(m: map<int, nat>, p: int): nat {
    if p in m then m[p] else 0
  }

  function Plus(m: map<int, nat>, p: int, n: nat): map<int, nat> {
    m[p := At(m, p) + n]
  }

  function Held(batches: seq<Batch>, p: int): nat {
    if batches == [] then 0
    else (if batches[0].project == p then batches[0].suppressed else 0) + Held(batches[1..], p)
  }

  lemma {:induction false} HeldConcat(a: seq<Batch>, b: seq<Batch>, p: int)
    ensures Held(a + b, p) == Held(a, p) + Held(b, p)
  {
    if a == [] {
      assert a + b == b;
    } else {
      assert (a + b)[1..] == a[1..] + b;
      HeldConcat(a[1..], b, p);
    }
  }

  lemma HeldAppend(a: seq<Batch>, b: Batch, p: int)
    ensures Held(a + [b], p) == Held(a, p) + if b.project == p then b.suppressed else 0
  {
    HeldConcat(a, [b], p);
    var one := [b];
    assert one[1..] == [];
  }

  lemma HeldWithout(a: seq<Batch>, i: nat, p: int)
    requires i < |a|
    ensures Held(a, p) == Held(a[..i] + a[i + 1..], p) + if a[i].project == p then a[i].suppressed else 0
  {
    assert a == a[..i] + ([a[i]] + a[i + 1..]);
    assert ([a[i]] + a[i + 1..])[1..] == a[i + 1..];
    HeldConcat(a[..i], [a[i]] + a[i + 1..], p);
    HeldConcat(a[..i], a[i + 1..], p);
  }

  function Stored(rows: map<int, Row>, p: int): nat {
    if p in rows then rows[p].suppressed else 0
  }

  predicate Over(r: Row, now: int, window: int) {
    r.windowStart <= now - window
  }

  /** Every refusal is in exactly one place: on the row, with a digester, delivered, counted
      as lost, or gone with its project. */
  ghost predicate Balanced(rows: map<int, Row>, inFlight: seq<Batch>, delivered: map<int, nat>, lost: map<int, nat>,
                           gone: map<int, nat>, refused: map<int, nat>)
  {
    forall p ::
      Stored(rows, p) + Held(inFlight, p) + At(delivered, p) + At(lost, p) + At(gone, p) == At(refused, p)
  }

  /** Within a window: what was allowed is what is counted as sent and what was refunded. */
  ghost predicate WithinLimit(rows: map<int, Row>, allowed: map<int, nat>, refunded: map<int, nat>, limit: int) {
    forall p :: p in rows ==> rows[p].sent <= limit && At(allowed, p) == rows[p].sent + At(refunded, p)
  }

  /** Only project p's counts changed, and their sum is still its refusals. */
  lemma StillBalanced(rows: map<int, Row>, inFlight: seq<Batch>, delivered: map<int, nat>, lost: map<int, nat>,
                      gone: map<int, nat>, refused: map<int, nat>,
                      rows': map<int, Row>, inFlight': seq<Batch>, delivered': map<int, nat>, lost': map<int, nat>,
                      gone': map<int, nat>, refused': map<int, nat>, p: int)
    requires Balanced(rows, inFlight, delivered, lost, gone, refused)
    requires forall q :: q != p ==>
               && Stored(rows', q) == Stored(rows, q) && Held(inFlight', q) == Held(inFlight, q)
               && At(delivered', q) == At(delivered, q) && At(lost', q) == At(lost, q) && At(gone', q) == At(gone, q)
               && At(refused', q) == At(refused, q)
    requires Stored(rows', p) + Held(inFlight', p) + At(delivered', p) + At(lost', p) + At(gone', p) - At(refused', p)
          == Stored(rows, p) + Held(inFlight, p) + At(delivered, p) + At(lost, p) + At(gone, p) - At(refused, p)
    ensures Balanced(rows', inFlight', delivered', lost', gone', refused')
  {
  }

  lemma StillWithin(rows: map<int, Row>, allowed: map<int, nat>, refunded: map<int, nat>, limit: int,
                    p: int, r: Row, allowed': map<int, nat>, refunded': map<int, nat>)
    requires WithinLimit(rows, allowed, refunded, limit)
    requires forall q :: q != p ==> At(allowed', q) == At(allowed, q) && At(refunded', q) == At(refunded, q)
    requires r.sent <= limit && At(allowed', p) == r.sent + At(refunded', p)
    ensures WithinLimit(rows[p := r], allowed', refunded', limit)
  {
  }

  lemma SameSent(rows: map<int, Row>, allowed: map<int, nat>, refunded: map<int, nat>, limit: int, rows': map<int, Row>)
    requires WithinLimit(rows, allowed, refunded, limit)
    requires forall p :: p in rows' ==> p in rows && rows'[p].sent == rows[p].sent
    ensures WithinLimit(rows', allowed, refunded, limit)
  {
  }

  predicate DueIn(rows: map<int, Row>, p: int, now: int, window: int) {
    p in rows && rows[p].suppressed > 0 && Over(rows[p], now, window)
  }

  /** batches are the counts of the first due projects of rows0, in order; they are off their rows. */
  ghost predicate Claimed(rows0: map<int, Row>, rows: map<int, Row>, batches: seq<Batch>, now: int, window: int) {
    && (forall i, j :: 0 <= i < j < |batches| ==> batches[i].project < batches[j].project)
    && (forall b :: b in batches ==> DueIn(rows0, b.project, now, window))
    && (forall b :: b in batches ==> b == Batch(b.project, rows0[b.project].suppressed, rows0[b.project].windowStart))
    && rows.Keys == rows0.Keys
    && (forall b :: b in batches ==> rows[b.project] == rows0[b.project].(suppressed := 0))
    && (forall q :: q in rows && rows[q] != rows0[q] ==> exists b :: b in batches && b.project == q)
    && (forall q, b :: b in batches && DueIn(rows, q, now, window) ==> b.project < q)
  }

  lemma NothingClaimed(rows: map<int, Row>, now: int, window: int)
    ensures Claimed(rows, rows, [], now, window)
  {
  }

  /** Only counts that are there are taken, and only when their window is over. */
  lemma ClaimedAreDue(rows0: map<int, Row>, rows: map<int, Row>, batches: seq<Batch>, now: int, window: int, b: Batch)
    requires Claimed(rows0, rows, batches, now, window) && b in batches
    ensures b.suppressed > 0 && b.since + window <= now
    ensures b.project in rows0 && b.suppressed == rows0[b.project].suppressed && b.since == rows0[b.project].windowStart
  {
    assert DueIn(rows0, b.project, now, window);
  }

  lemma ClaimedOneMore(rows0: map<int, Row>, rows: map<int, Row>, batches: seq<Batch>, now: int, window: int, p: int)
    requires Claimed(rows0, rows, batches, now, window) && DueIn(rows, p, now, window)
    requires forall q :: DueIn(rows, q, now, window) ==> p <= q
    ensures Claimed(rows0, rows[p := rows[p].(suppressed := 0)],
                    batches + [Batch(p, rows[p].suppressed, rows[p].windowStart)], now, window)
  {
    var b := Batch(p, rows[p].suppressed, rows[p].windowStart);
    var rows', batches' := rows[p := rows[p].(suppressed := 0)], batches + [b];
    forall x | x in batches ensures x.project < p {
    }
    assert rows[p] == rows0[p];
    forall q | q in rows' && rows'[q] != rows0[q] ensures exists x :: x in batches' && x.project == q {
      if q == p {
        assert b in batches';
      } else {
        var x :| x in batches && x.project == q;
        assert x in batches';
      }
    }
    assert forall q :: DueIn(rows', q, now, window) ==> DueIn(rows, q, now, window) && q != p;
  }

  class Budget {
    const window: int
    const limit: int

    var rows: map<int, Row>
    /** The digester's counter of losses, kept per project here. */
    var lost: map<int, nat>

    /** What the digesters of all replicas hold. */
    ghost var inFlight: seq<Batch>
    ghost var delivered: map<int, nat>
    ghost var gone: map<int, nat>
    ghost var refused: map<int, nat>
    /** Since the row's window began. */
    ghost var allowed: map<int, nat>
    ghost var refunded: map<int, nat>

    ghost predicate Valid()
      reads this
    {
      && Balanced(rows, inFlight, delivered, lost, gone, refused)
      && (limit > 0 ==> WithinLimit(rows, allowed, refunded, limit))
    }

    constructor (window: int, limit: int)
      ensures Valid() && this.window == window && this.limit == limit && refused == map[]
    {
      this.window, this.limit := window, limit;
      rows, inFlight, lost, delivered, gone, refused, allowed, refunded := map[], [], map[], map[], map[], map[], map[], map[];
    }

    /** A non-positive limit switches the budget off: nothing is written. */
    method ClaimBudget(p: int, now: int) returns (ok: bool)
      requires Valid()
      modifies this`rows, this`refused, this`allowed, this`refunded
      ensures Valid() && (limit <= 0 ==> ok && unchanged(this))
      ensures limit > 0 ==>
                && (ok <==> p !in old(rows) || old(rows)[p].windowStart + window <= now || old(rows)[p].sent < limit)
                && rows.Keys == old(rows).Keys + {p}
                && (forall q :: q in rows && q != p ==> rows[q] == old(rows)[q])
                && refused == (if ok then old(refused) else Plus(old(refused), p, 1))
                && Stored(rows, p) == Stored(old(rows), p) + (if ok then 0 else 1)
                && (if p !in old(rows) || old(rows)[p].windowStart + window <= now then rows[p].windowStart == now && rows[p].sent == 1
                    else rows[p].windowStart == old(rows)[p].windowStart
                         && rows[p].sent == old(rows)[p].sent + if ok then 1 else 0)
    {
      if limit <= 0 {
        return true;
      }
      var r := if p in rows then rows[p] else Row(now, 0, 0);
      var r';
      ghost var allowed', refunded', refused' := allowed, refunded, refused;
      if p !in rows || Over(r, now, window) {
        ok, r' := true, Row(now, 1, r.suppressed);
        allowed', refunded' := allowed[p := 1], refunded[p := 0];
      } else if r.sent < limit {
        ok, r' := true, r.(sent := r.sent + 1);
        allowed' := Plus(allowed, p, 1);
      } else {
        ok, r' := false, r.(suppressed := r.suppressed + 1);
        refused' := Plus(refused, p, 1);
      }
      StillWithin(rows, allowed, refunded, limit, p, r', allowed', refunded');
      StillBalanced(rows, inFlight, delivered, lost, gone, refused,
                    rows[p := r'], inFlight, delivered, lost, gone, refused', p);
      hide Balanced, WithinLimit;
      rows := rows[p := r'];
      allowed, refunded, refused := allowed', refunded', refused';
    }

    /** Gives a place back, if its window still runs. */
    method RefundBudget(p: int, now: int)
      requires Valid()
      modifies this`rows, this`refunded
      ensures Valid() && rows.Keys == old(rows).Keys
      ensures forall q :: q in rows ==>
                rows[q] == if limit > 0 && q == p && now < old(rows)[q].windowStart + window && old(rows)[q].sent > 0
                           then old(rows)[q].(sent := old(rows)[q].sent - 1) else old(rows)[q]
    {
      if limit > 0 && p in rows && !Over(rows[p], now, window) && rows[p].sent > 0 {
        rows := rows[p := rows[p].(sent := rows[p].sent - 1)];
        refunded := Plus(refunded, p, 1);
      }
    }

    /** The project and its row are deleted. */
    method Forget(p: int)
      requires Valid()
      modifies this`rows, this`gone
      ensures Valid() && rows == old(rows) - {p} && gone == Plus(old(gone), p, Stored(old(rows), p))
    {
      ghost var gone' := Plus(gone, p, Stored(rows, p));
      StillBalanced(rows, inFlight, delivered, lost, gone, refused, rows - {p}, inFlight, delivered, lost, gone', refused, p);
      gone := gone';
      rows := rows - {p};
    }

    predicate Due(p: int, now: int)
      reads this`rows
    {
      DueIn(rows, p, now, window)
    }

    method LeastDue(now: int) returns (found: bool, p: int)
      ensures !found ==> forall q :: q in rows ==> !Due(q, now)
      ensures found ==> Due(p, now) && forall q :: q in rows && Due(q, now) ==> p <= q
    {
      found, p := false, 0;
      var left := rows.Keys;
      while left != {}
        invariant left <= rows.Keys
        invariant !found ==> forall q :: q in rows && q !in left ==> !Due(q, now)
        invariant found ==> Due(p, now) && forall q :: q in rows && q !in left && Due(q, now) ==> p <= q
        decreases |left|
      {
        assert (forall x: int :: x !in left) ==> left == {};
        var q: int :| q in left;
        left := left - {q};
        if Due(q, now) && (!found || q < p) {
          found, p := true, q;
        }
      }
    }

    method TakeOff(p: int) returns (b: Batch)
      requires Valid() && p in rows
      modifies this`rows, this`inFlight
      ensures Valid() && b == Batch(p, old(rows)[p].suppressed, old(rows)[p].windowStart)
      ensures rows == old(rows)[p := old(rows)[p].(suppressed := 0)] && inFlight == old(inFlight) + [b]
    {
      b := Batch(p, rows[p].suppressed, rows[p].windowStart);
      ghost var rows', inFlight' := rows[p := rows[p].(suppressed := 0)], inFlight + [b];
      forall q { HeldAppend(inFlight, b, q); }
      StillBalanced(rows, inFlight, delivered, lost, gone, refused, rows', inFlight', delivered, lost, gone, refused, p);
      hide Balanced;
      rows := rows[p := rows[p].(suppressed := 0)];
      inFlight := inFlight';
    }

    /** Takes the counts of the first n projects whose window is over off their rows. */
    method ClaimSuppressed(n: nat, now: int) returns (batches: seq<Batch>)
      requires Valid()
      modifies this`rows, this`inFlight
      ensures Valid() && inFlight == old(inFlight) + batches && |batches| <= n
      ensures Claimed(old(rows), rows, batches, now, window)
      ensures |batches| < n ==> forall q :: q in rows ==> rows[q].suppressed == 0 || now < rows[q].windowStart + window
    {
      hide Balanced, WithinLimit, Claimed;
      batches := [];
      assert inFlight == inFlight + batches;
      NothingClaimed(rows, now, window);
      while |batches| < n
        invariant Valid() && inFlight == old(inFlight) + batches && |batches| <= n
        invariant Claimed(old(rows), rows, batches, now, window)
      {
        var found, p := LeastDue(now);
        if !found {
          return;
        }
        ClaimedOneMore(old(rows), rows, batches, now, window, p);
        var b := TakeOff(p);
        assert inFlight == old(inFlight) + (batches + [b]);
        batches := batches + [b];
      }
    }

    /** The digest of a batch went out. */
    ghost method Delivered(i: nat)
      requires Valid() && i < |inFlight|
      modifies this`inFlight, this`delivered
      ensures Valid() && inFlight == old(inFlight)[..i] + old(inFlight)[i + 1..]
      ensures delivered == Plus(old(delivered), old(inFlight)[i].project, old(inFlight)[i].suppressed)
    {
      var b, inFlight' := inFlight[i], inFlight[..i] + inFlight[i + 1..];
      var delivered' := Plus(delivered, b.project, b.suppressed);
      forall q { HeldWithout(inFlight, i, q); }
      StillBalanced(rows, inFlight, delivered, lost, gone, refused, rows, inFlight', delivered', lost, gone, refused, b.project);
      inFlight, delivered := inFlight', delivered';
    }

    /** The count goes back on its row, on top of what was refused since; if the statement
        fails it is counted as lost, and without a row there is nowhere to put it. */
    method RestoreSuppressed(b: Batch, ghost i: nat, works: bool)
      requires Valid() && i < |inFlight| && inFlight[i] == b && b.suppressed > 0
      modifies this`inFlight, this`rows, this`lost, this`gone
      ensures Valid() && inFlight == old(inFlight)[..i] + old(inFlight)[i + 1..]
      ensures rows == if works && b.project in old(rows)
                      then old(rows)[b.project := old(rows)[b.project].(suppressed := old(rows)[b.project].suppressed + b.suppressed)]
                      else old(rows)
      ensures lost == if works then old(lost) else Plus(old(lost), b.project, b.suppressed)
      ensures gone == if works && b.project !in rows then Plus(old(gone), b.project, b.suppressed) else old(gone)
    {
      hide Balanced, WithinLimit, Held;
      var p := b.project;
      var rows' := if works && p in rows then rows[p := rows[p].(suppressed := rows[p].suppressed + b.suppressed)] else rows;
      var lost' := if works then lost else Plus(lost, p, b.suppressed);
      ghost var gone' := if works && p !in rows then Plus(gone, p, b.suppressed) else gone;
      ghost var inFlight' := inFlight[..i] + inFlight[i + 1..];
      forall q { HeldWithout(inFlight, i, q); }
      StillBalanced(rows, inFlight, delivered, lost, gone, refused, rows', inFlight', delivered, lost', gone', refused, p);
      if limit > 0 { SameSent(rows, allowed, refunded, limit, rows'); }
      rows, lost := rows', lost';
      inFlight, gone := inFlight', gone';
    }
  }

  class Digester {
    const budget: Budget
    var skipped: nat

    constructor (budget: Budget)
      ensures this.budget == budget
    {
      this.budget, skipped := budget, 0;
    }

    /** One tick. late(k) says the time was up before the k-th batch, sends(k) that its
        digest went out, restores(k) that putting its count back worked. Every batch taken
        is settled: delivered, back on its row, or counted as lost. */
    method Tick(now: int, late: nat -> bool, sends: nat -> bool, restores: nat -> bool) returns (batches: seq<Batch>, done: nat)
      requires budget.Valid()
      modifies this, budget`rows, budget`inFlight, budget`lost, budget`delivered, budget`gone
      ensures budget.Valid() && budget.inFlight == old(budget.inFlight)
      ensures done <= |batches| <= 50 && skipped == |batches| - done
      ensures (forall k: nat :: k < done ==> !late(k)) && (done < |batches| ==> late(done))
      ensures exists rows :: Claimed(old(budget.rows), rows, batches, now, budget.window)
      ensures forall k: nat :: k < |batches| ==>
                Settled(budget.rows, budget.delivered, budget.lost, old(budget.delivered), old(budget.lost),
                        batches[k], k < done && sends(k), restores(k))
    {
      batches := budget.ClaimSuppressed(DIGEST_BATCH, now);
      ghost var delivered0, lost0 := budget.delivered, budget.lost;
      forall k: nat | k < |batches| ensures Untouched(budget.rows, budget.delivered, budget.lost, delivered0, lost0, batches[k]) {
        assert batches[k] in batches;
      }
      ghost var sent: seq<bool> := [];
      assert Halfway(batches, sent, restores, budget.rows, budget.delivered, budget.lost, delivered0, lost0);
      assert batches[0..] == batches;
      hide *;
      done, sent := SendAll(batches, late, sends, restores, old(budget.inFlight), delivered0, lost0);
      sent := RestoreSkipped(batches, done, restores, old(budget.inFlight), delivered0, lost0, sent);
      skipped := |batches| - done;
      AllTheWay(batches, sent, restores, budget.rows, budget.delivered, budget.lost, delivered0, lost0);
    }

    method SendAll(batches: seq<Batch>, late: nat -> bool, sends: nat -> bool, restores: nat -> bool, ghost base: seq<Batch>,
                   ghost delivered0: map<int, nat>, ghost lost0: map<int, nat>) returns (done: nat, ghost sent: seq<bool>)
      requires budget.Valid() && budget.inFlight == base + batches[0..]
      requires Halfway(batches, [], restores, budget.rows, budget.delivered, budget.lost, delivered0, lost0)
      modifies budget`rows, budget`inFlight, budget`lost, budget`delivered, budget`gone
      ensures done == |sent| <= |batches| && budget.Valid() && budget.inFlight == base + batches[done..]
      ensures (forall k: nat :: k < done ==> !late(k) && sent[k] == sends(k)) && (done < |batches| ==> late(done))
      ensures Halfway(batches, sent, restores, budget.rows, budget.delivered, budget.lost, delivered0, lost0)
    {
      hide *;
      sent := [];
      var i := 0;
      while i < |batches|
        invariant i == |sent| <= |batches| && budget.Valid() && budget.inFlight == base + batches[i..]
        invariant forall k: nat :: k < i ==> !late(k) && sent[k] == sends(k)
        invariant Halfway(batches, sent, restores, budget.rows, budget.delivered, budget.lost, delivered0, lost0)
      {
        if late(i) {
          return i, sent;
        }
        SettleNext(batches, i, sends(i), restores, base, delivered0, lost0, sent);
        sent := sent + [sends(i)];
        i := i + 1;
      }
      done := i;
    }

    method RestoreSkipped(batches: seq<Batch>, done: nat, restores: nat -> bool, ghost base: seq<Batch>,
                          ghost delivered0: map<int, nat>, ghost lost0: map<int, nat>, ghost sent0: seq<bool>)
      returns (ghost sent: seq<bool>)
      requires done == |sent0| <= |batches| && budget.Valid() && budget.inFlight == base + batches[done..]
      requires Halfway(batches, sent0, restores, budget.rows, budget.delivered, budget.lost, delivered0, lost0)
      modifies budget`rows, budget`inFlight, budget`lost, budget`delivered, budget`gone
      ensures |sent| == |batches| && budget.Valid() && budget.inFlight == base
      ensures forall k: nat :: k < |batches| ==> sent[k] == if k < done then sent0[k] else false
      ensures Halfway(batches, sent, restores, budget.rows, budget.delivered, budget.lost, delivered0, lost0)
    {
      hide *;
      sent := sent0;
      for i := done to |batches|
        invariant i == |sent| && budget.Valid() && budget.inFlight == base + batches[i..]
        invariant forall k: nat :: k < i ==> sent[k] == if k < done then sent0[k] else false
        invariant Halfway(batches, sent, restores, budget.rows, budget.delivered, budget.lost, delivered0, lost0)
      {
        SettleNext(batches, i, false, restores, base, delivered0, lost0, sent);
        sent := sent + [false];
      }
    }

    method SettleNext(batches: seq<Batch>, i: nat, now: bool, restores: nat -> bool, ghost base: seq<Batch>,
                      ghost delivered0: map<int, nat>, ghost lost0: map<int, nat>, ghost sent: seq<bool>)
      requires budget.Valid() && i == |sent| < |batches| && budget.inFlight == base + batches[i..]
      requires Halfway(batches, sent, restores, budget.rows, budget.delivered, budget.lost, delivered0, lost0)
      modifies budget`rows, budget`inFlight, budget`lost, budget`delivered, budget`gone
      ensures budget.Valid() && budget.inFlight == base + batches[i + 1..]
      ensures Halfway(batches, sent + [now], restores, budget.rows, budget.delivered, budget.lost, delivered0, lost0)
    {
      var b := batches[i];
      ghost var p, rows, delivered, lost := b.project, budget.rows, budget.delivered, budget.lost;
      assert Untouched(rows, delivered, lost, delivered0, lost0, b);
      ghost var rows' := if !now && restores(i) then rows[p := rows[p].(suppressed := rows[p].suppressed + b.suppressed)] else rows;
      ghost var delivered' := if now then Plus(delivered, p, b.suppressed) else delivered;
      ghost var lost' := if !now && !restores(i) then Plus(lost, p, b.suppressed) else lost;
      HalfwayNext(batches, sent, now, restores, rows, delivered, lost, rows', delivered', lost', delivered0, lost0);
      assert base + batches[i + 1..] == budget.inFlight[..|base|] + budget.inFlight[|base| + 1..];
      hide *;
      if now {
        budget.Delivered(|base|);
      } else {
        budget.RestoreSuppressed(b, |base|, restores(i));
      }
    }
  }

  /** The first batches are settled, the others still only taken. */
  ghost predicate Halfway(batches: seq<Batch>, sent: seq<bool>, restores: nat -> bool, rows: map<int, Row>,
                          delivered: map<int, nat>, lost: map<int, nat>, delivered0: map<int, nat>, lost0: map<int, nat>)
  {
    && |sent| <= |batches|
    && (forall j, k :: 0 <= j < k < |batches| ==> batches[j].project < batches[k].project)
    && (forall k: nat :: k < |sent| ==> Settled(rows, delivered, lost, delivered0, lost0, batches[k], sent[k], restores(k)))
    && (forall k: nat :: |sent| <= k < |batches| ==> Untouched(rows, delivered, lost, delivered0, lost0, batches[k]))
  }

  lemma HalfwayNext(batches: seq<Batch>, sent: seq<bool>, now: bool, restores: nat -> bool,
                    rows: map<int, Row>, delivered: map<int, nat>, lost: map<int, nat>,
                    rows': map<int, Row>, delivered': map<int, nat>, lost': map<int, nat>,
                    delivered0: map<int, nat>, lost0: map<int, nat>)
    requires |sent| < |batches| && Halfway(batches, sent, restores, rows, delivered, lost, delivered0, lost0)
    requires Settled(rows', delivered', lost', delivered0, lost0, batches[|sent|], now, restores(|sent|))
    requires forall q :: q != batches[|sent|].project ==>
               && (q in rows <==> q in rows') && (q in rows ==> rows'[q] == rows[q])
               && At(delivered', q) == At(delivered, q) && At(lost', q) == At(lost, q)
    ensures Halfway(batches, sent + [now], restores, rows', delivered', lost', delivered0, lost0)
  {
    var sent' := sent + [now];
    forall k: nat | k < |sent'| ensures Settled(rows', delivered', lost', delivered0, lost0, batches[k], sent'[k], restores(k)) {
      if k < |sent| {
        assert batches[k].project < batches[|sent|].project;
        assert Settled(rows, delivered, lost, delivered0, lost0, batches[k], sent[k], restores(k));
      }
    }
    forall k: nat | |sent'| <= k < |batches| ensures Untouched(rows', delivered', lost', delivered0, lost0, batches[k]) {
      assert batches[|sent|].project < batches[k].project;
      assert Untouched(rows, delivered, lost, delivered0, lost0, batches[k]);
    }
  }

  lemma AllTheWay(batches: seq<Batch>, sent: seq<bool>, restores: nat -> bool, rows: map<int, Row>,
                  delivered: map<int, nat>, lost: map<int, nat>, delivered0: map<int, nat>, lost0: map<int, nat>)
    requires |sent| == |batches| && Halfway(batches, sent, restores, rows, delivered, lost, delivered0, lost0)
    ensures forall k: nat :: k < |batches| ==> Settled(rows, delivered, lost, delivered0, lost0, batches[k], sent[k], restores(k))
  {
  }

  /** Taken off its row and not yet settled. */
  ghost predicate Untouched(rows: map<int, Row>, delivered: map<int, nat>, lost: map<int, nat>,
                            delivered0: map<int, nat>, lost0: map<int, nat>, b: Batch)
  {
    && b.project in rows && rows[b.project].suppressed == 0 && b.suppressed > 0
    && At(delivered, b.project) == At(delivered0, b.project) && At(lost, b.project) == At(lost0, b.project)
  }

  ghost predicate Settled(rows: map<int, Row>, delivered: map<int, nat>, lost: map<int, nat>,
                          delivered0: map<int, nat>, lost0: map<int, nat>, b: Batch, sent: bool, restored: bool)
  {
    && b.project in rows
    && rows[b.project].suppressed == (if !sent && restored then b.suppressed else 0)
    && At(delivered, b.project) == At(delivered0, b.project) + (if sent then b.suppressed else 0)
    && At(lost, b.project) == At(lost0, b.project) + (if !sent && !restored then b.suppressed else 0)
  }
}
