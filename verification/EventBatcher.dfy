/** The write buffer of events: arrivals, one batch in flight, its return after a
    failure, and the two limits that cost the oldest rows. */
module EventBatcher {
  import opened Isolate

  const POISON_THRESHOLD := 3

  /** Arrival numbers events in the order Add took them; bytes is the weight the buffer charges. */
  datatype Event = Event(arrival: nat, org: int, bytes: nat)

  function Bytes(rows: seq<Event>): nat {
    if rows == [] then 0 else rows[0].bytes + Bytes(rows[1..])
  }

  lemma {:induction false} BytesConcat(a: seq<Event>, b: seq<Event>)
    ensures Bytes(a + b) == Bytes(a) + Bytes(b)
  {
    if a == [] {
      assert a + b == b;
    } else {
      assert (a + b)[1..] == a[1..] + b;
      BytesConcat(a[1..], b);
    }
  }

  function CountOrg(rows: seq<Event>, org: int): nat {
    if rows == [] then 0 else (if rows[0].org == org then 1 else 0) + CountOrg(rows[1..], org)
  }

  lemma {:induction false} CountConcat(a: seq<Event>, b: seq<Event>, org: int)
    ensures CountOrg(a + b, org) == CountOrg(a, org) + CountOrg(b, org)
  {
    if a == [] {
      assert a + b == b;
    } else {
      assert (a + b)[1..] == a[1..] + b;
      CountConcat(a[1..], b, org);
    }
  }

  /** A count per organisation, absent meaning none. */
  function At(m: map<int, nat>, org: int): nat {
    if org in m then m[org] else 0
  }

  // ----- the two limits -----

  predicate Fits(rows: seq<Event>, maxBuf: nat, maxBufBytes: int) {
    |rows| <= maxBuf && (Bytes(rows) <= maxBufBytes || |rows| <= 1)
  }

  /** The least number of oldest rows to give up. */
  ghost predicate LeastDrop(rows: seq<Event>, drop: nat, maxBuf: nat, maxBufBytes: int) {
    && drop <= |rows|
    && Fits(rows[drop..], maxBuf, maxBufBytes)
    && forall d: nat :: d < drop ==> !Fits(rows[d..], maxBuf, maxBufBytes)
  }

  // ----- where each event is -----

  ghost predicate InOrder(rows: seq<Event>) {
    forall i, j :: 0 <= i < j < |rows| ==> rows[i].arrival < rows[j].arrival
  }

  /** The k-th arrival carries the number k. */
  ghost predicate Numbered(arrived: seq<Event>) {
    forall i :: 0 <= i < |arrived| ==> arrived[i].arrival == i
  }

  /** Every arrival is in exactly one place, once; what is still held keeps the order of arrival. */
  ghost predicate Conserved(arrived: seq<Event>, inserted: seq<Event>, overflowed: seq<Event>,
                            poisoned: seq<Event>, held: seq<Event>)
  {
    && Numbered(arrived)
    && multiset(arrived) == multiset(inserted) + multiset(overflowed) + multiset(poisoned) + multiset(held)
    && InOrder(held)
  }

  lemma {:induction false} OnceAtMost(arrived: seq<Event>, n: nat)
    requires n <= |arrived| && Numbered(arrived)
    ensures forall e :: multiset(arrived[..n])[e] == if e.arrival < n && arrived[e.arrival] == e then 1 else 0
  {
    if n > 0 {
      OnceAtMost(arrived, n - 1);
      assert arrived[..n] == arrived[..n - 1] + [arrived[n - 1]];
    }
  }

  /** Each event that arrived is in one of the four places and in no two of them, and nothing else is anywhere. */
  lemma EachInOnePlace(arrived: seq<Event>, inserted: seq<Event>, overflowed: seq<Event>,
                       poisoned: seq<Event>, held: seq<Event>, e: Event)
    requires Conserved(arrived, inserted, overflowed, poisoned, held)
    ensures multiset(inserted)[e] + multiset(overflowed)[e] + multiset(poisoned)[e] + multiset(held)[e]
         == if e in arrived then 1 else 0
  {
    OnceAtMost(arrived, |arrived|);
    assert arrived[..|arrived|] == arrived;
    assert (multiset(inserted) + multiset(overflowed) + multiset(poisoned) + multiset(held))[e] == multiset(arrived)[e];
  }

  lemma ArrivalJoins(arrived: seq<Event>, inserted: seq<Event>, overflowed: seq<Event>,
                     poisoned: seq<Event>, held: seq<Event>, e: Event)
    requires Conserved(arrived, inserted, overflowed, poisoned, held) && e.arrival == |arrived|
    ensures Conserved(arrived + [e], inserted, overflowed, poisoned, held + [e])
  {
    forall i | 0 <= i < |held| ensures held[i].arrival < |arrived| {
      assert held[i] in multiset(held);
      assert held[i] in multiset(arrived);
      assert held[i] in arrived;
    }
  }

  lemma OverflowMoves(arrived: seq<Event>, inserted: seq<Event>, overflowed: seq<Event>,
                      poisoned: seq<Event>, batch: seq<Event>, buf: seq<Event>, drop: nat)
    requires drop <= |buf| && Conserved(arrived, inserted, overflowed, poisoned, batch + buf)
    ensures Conserved(arrived, inserted, overflowed + buf[..drop], poisoned, batch + buf[drop..])
  {
    assert buf == buf[..drop] + buf[drop..];
    assert multiset(batch + buf) == multiset(batch) + multiset(buf[..drop]) + multiset(buf[drop..]);
    var held := batch + buf;
    forall i, j | 0 <= i < j < |batch + buf[drop..]|
      ensures (batch + buf[drop..])[i].arrival < (batch + buf[drop..])[j].arrival
    {
      var i', j' := if i < |batch| then i else i + drop, if j < |batch| then j else j + drop;
      assert held[i'].arrival < held[j'].arrival;
    }
  }

  lemma {:induction false} SelectKeeps(rows: seq<Event>, fates: seq<Fate>, f: Fate)
    requires |fates| == |rows| && InOrder(rows)
    ensures InOrder(Select(rows, fates, f))
    ensures forall x :: x in Select(rows, fates, f) ==> x in rows
  {
    if rows != [] {
      SelectKeeps(rows[1..], fates[1..], f);
      SelectFirst(rows, fates, f);
      hide Select;
      var rest := Select(rows[1..], fates[1..], f);
      forall x | x in rest ensures rows[0].arrival < x.arrival {
        var k :| 0 <= k < |rows[1..]| && rows[1..][k] == x;
        assert rows[k + 1] == x;
      }
    }
  }

  lemma {:induction false} SelectParts(rows: seq<Event>, fates: seq<Fate>, e: Event)
    requires |fates| == |rows|
    ensures multiset(rows)[e] == multiset(Select(rows, fates, Stored))[e] + multiset(Select(rows, fates, Dropped))[e]
                               + multiset(Select(rows, fates, HandedBack))[e]
  {
    hide Select;
    if rows == [] {
      SelectNone(rows, fates);
    } else {
      SelectParts(rows[1..], fates[1..], e);
      SelectOne(rows, fates, Stored, e);
      SelectOne(rows, fates, Dropped, e);
      SelectOne(rows, fates, HandedBack, e);
      assert multiset(rows)[e] == multiset(rows[1..])[e] + if rows[0] == e then 1 else 0 by {
        assert rows == [rows[0]] + rows[1..];
      }
      assert fates[0] == Stored || fates[0] == Dropped || fates[0] == HandedBack;
    }
  }

  lemma SelectNone(rows: seq<Event>, fates: seq<Fate>)
    requires fates == [] && rows == []
    ensures Select(rows, fates, Stored) == [] && Select(rows, fates, Dropped) == [] && Select(rows, fates, HandedBack) == []
  {
  }

  lemma SelectOne(rows: seq<Event>, fates: seq<Fate>, f: Fate, e: Event)
    requires |fates| == |rows| > 0
    ensures multiset(Select(rows, fates, f))[e] ==
            multiset(Select(rows[1..], fates[1..], f))[e] + if fates[0] == f && rows[0] == e then 1 else 0
  {
    SelectFirst(rows, fates, f);
    hide Select;
  }

  lemma ReturnKeepsOrder(batch: seq<Event>, back: seq<Event>, buf: seq<Event>)
    requires InOrder(batch + buf) && InOrder(back) && forall x :: x in back ==> x in batch
    ensures InOrder(back + buf)
  {
    var held := batch + buf;
    forall i, j | 0 <= i < j < |back + buf| ensures (back + buf)[i].arrival < (back + buf)[j].arrival {
      if j >= |back| {
        var j' := j - |back| + |batch|;
        if i < |back| {
          assert back[i] in batch;
          var k :| 0 <= k < |batch| && batch[k] == back[i];
          assert held[k].arrival < held[j'].arrival;
        } else {
          assert held[i - |back| + |batch|].arrival < held[j'].arrival;
        }
      }
    }
  }

  /** The batch comes back split by fate. */
  lemma BatchSplits(arrived: seq<Event>, inserted: seq<Event>, overflowed: seq<Event>,
                    poisoned: seq<Event>, batch: seq<Event>, buf: seq<Event>, fates: seq<Fate>)
    requires |fates| == |batch| && Conserved(arrived, inserted, overflowed, poisoned, batch + buf)
    ensures Conserved(arrived, inserted + Select(batch, fates, Stored), overflowed,
                      poisoned + Select(batch, fates, Dropped), Select(batch, fates, HandedBack) + buf)
  {
    var ins, bad, back := Select(batch, fates, Stored), Select(batch, fates, Dropped), Select(batch, fates, HandedBack);
    InOrderPrefix(batch, buf);
    SelectKeeps(batch, fates, HandedBack);
    ReturnKeepsOrder(batch, back, buf);
    forall e ensures multiset(batch)[e] == multiset(ins)[e] + multiset(bad)[e] + multiset(back)[e] {
      SelectParts(batch, fates, e);
    }
    assert multiset(batch) == multiset(ins) + multiset(bad) + multiset(back);
  }

  lemma InOrderPrefix(a: seq<Event>, b: seq<Event>)
    requires InOrder(a + b)
    ensures InOrder(a)
  {
    assert forall i :: 0 <= i < |a| ==> (a + b)[i] == a[i];
  }

  lemma {:induction false} SelectLighter(rows: seq<Event>, fates: seq<Fate>, f: Fate)
    requires |fates| == |rows|
    ensures |Select(rows, fates, f)| <= |rows| && Bytes(Select(rows, fates, f)) <= Bytes(rows)
  {
    if rows != [] {
      SelectLighter(rows[1..], fates[1..], f);
      BytesConcat(if fates[0] == f then [rows[0]] else [], Select(rows[1..], fates[1..], f));
    }
  }

  lemma BytesSplit(rows: seq<Event>, n: nat)
    requires n <= |rows|
    ensures Bytes(rows) == Bytes(rows[..n]) + Bytes(rows[n..])
  {
    BytesConcat(rows[..n], rows[n..]);
    assert rows == rows[..n] + rows[n..];
  }

  lemma SuffixFits(rows: seq<Event>, n: nat, maxBuf: nat, maxBufBytes: int)
    requires n <= |rows| && Fits(rows, maxBuf, maxBufBytes)
    ensures Fits(rows[n..], maxBuf, maxBufBytes)
  {
    BytesSplit(rows, n);
  }

  lemma FitsDropsNone(rows: seq<Event>, maxBuf: nat, maxBufBytes: int)
    requires Fits(rows, maxBuf, maxBufBytes)
    ensures LeastDrop(rows, 0, maxBuf, maxBufBytes)
  {
    assert rows[0..] == rows;
  }

  lemma {:induction false} SelectSizes(rows: seq<Event>, fates: seq<Fate>)
    requires |fates| == |rows|
    ensures |Select(rows, fates, Stored)| + |Select(rows, fates, Dropped)| + |Select(rows, fates, HandedBack)| == |rows|
    ensures |Select(rows, fates, HandedBack)| == |rows| ==> Select(rows, fates, HandedBack) == rows
  {
    if rows != [] {
      SelectSizes(rows[1..], fates[1..]);
      assert rows == [rows[0]] + rows[1..];
    }
  }

  /** What the isolation reports, told as fates; it settled something unless the whole batch came back. */
  lemma ReportByFate(batch: seq<Event>, fates: seq<Fate>, r: Report<Event>)
    requires Explains(batch, fates, r)
    ensures |fates| == |batch|
    ensures RowsOf(r.calls, Inserted) == Select(batch, fates, Stored)
    ensures RowsOf(r.calls, Poison) == Select(batch, fates, Dropped)
    ensures r.unresolved == Select(batch, fates, HandedBack) && r.dropped == |RowsOf(r.calls, Poison)|
    ensures r.dropped > 0 || |r.unresolved| < |batch| <==> r.unresolved != batch
  {
    SelectSizes(batch, fates);
  }

  lemma NothingToDrop(rows: seq<Event>, drop: nat, maxBuf: nat, maxBufBytes: int)
    requires LeastDrop(rows, drop, maxBuf, maxBufBytes) && Fits(rows, maxBuf, maxBufBytes)
    ensures drop == 0
  {
    assert rows[0..] == rows;
  }

  /** What comes back is no heavier than what was taken. */
  lemma BackFits(batch: seq<Event>, fates: seq<Fate>, buf: seq<Event>, maxBuf: nat, maxBufBytes: int)
    requires |fates| == |batch| && Fits(batch + buf, maxBuf, maxBufBytes)
    ensures Fits(Select(batch, fates, HandedBack) + buf, maxBuf, maxBufBytes)
  {
    SelectLighter(batch, fates, HandedBack);
    BytesConcat(batch, buf);
    BytesConcat(Select(batch, fates, HandedBack), buf);
  }

  lemma BytesNext(rows: seq<Event>, i: nat)
    requires i < |rows|
    ensures Bytes(rows[i..]) == rows[i].bytes + Bytes(rows[i + 1..])
  {
    assert rows[i..][1..] == rows[i + 1..];
  }

  lemma BytesSnoc(rows: seq<Event>, e: Event)
    ensures Bytes(rows + [e]) == Bytes(rows) + e.bytes
  {
    BytesConcat(rows, [e]);
  }

  lemma CountNext(rows: seq<Event>, i: nat)
    requires i < |rows|
    ensures forall org :: CountOrg(rows[..i + 1], org) == CountOrg(rows[..i], org) + if rows[i].org == org then 1 else 0
  {
    forall org ensures CountOrg(rows[..i + 1], org) == CountOrg(rows[..i], org) + if rows[i].org == org then 1 else 0 {
      assert rows[..i + 1] == rows[..i] + [rows[i]];
      CountConcat(rows[..i], [rows[i]], org);
    }
  }

  lemma OverflowCounts(overflowed: seq<Event>, more: seq<Event>)
    ensures forall org :: CountOrg(overflowed + more, org) == CountOrg(overflowed, org) + CountOrg(more, org)
  {
    forall org ensures CountOrg(overflowed + more, org) == CountOrg(overflowed, org) + CountOrg(more, org) {
      CountConcat(overflowed, more, org);
    }
  }

  lemma NothingYet(maxBuf: nat, maxBufBytes: int)
    ensures Conserved([], [], [], [], []) && Fits([], maxBuf, maxBufBytes) && Bytes([]) == 0
    ensures forall org :: CountOrg([], org) == 0
  {
  }

  class Batcher {
    /** Numbers the arrivals; the number is this model's name for an event. */
    var taken: nat
    var buf: seq<Event>
    var bufBytes: int
    var dropped: nat
    var insertFails: nat
    var failStreak: nat
    var pendingDrops: map<int, nat>
    /** The batch of the flush under way, empty between flushes. */
    var inFlight: seq<Event>
    /** What the sink was given, per organisation. */
    var reported: map<int, nat>

    const hasSink: bool
    const maxBuf: nat
    const maxBufBytes: int
    const batchSize: nat

    ghost var arrived: seq<Event>
    ghost var inserted: seq<Event>
    ghost var overflowed: seq<Event>
    ghost var poisoned: seq<Event>

    constructor (maxBuf: nat, maxBufBytes: int, batchSize: nat, hasSink: bool)
      requires batchSize > 0
      ensures Valid() && arrived == [] && buf == [] && inFlight == [] && overflowed == [] && poisoned == []
      ensures this.maxBuf == maxBuf && this.maxBufBytes == maxBufBytes && this.batchSize == batchSize && this.hasSink == hasSink
      ensures dropped == 0 && reported == map[] && pendingDrops == map[]
    {
      this.maxBuf, this.maxBufBytes, this.batchSize, this.hasSink := maxBuf, maxBufBytes, batchSize, hasSink;
      buf, bufBytes, dropped, insertFails, failStreak, pendingDrops := [], 0, 0, 0, 0, map[];
      inFlight, reported, taken := [], map[], 0;
      arrived, inserted, overflowed, poisoned := [], [], [], [];
      new;
      NothingYet(maxBuf, maxBufBytes);
      hide Conserved, Bytes, Fits, CountOrg;
      assert inFlight + buf == [];
    }

    /** Poison rows count as dropped but are charged to no organisation. */
    ghost predicate Accounted()
      reads this
    {
      && batchSize > 0 && taken == |arrived|
      && Conserved(arrived, inserted, overflowed, poisoned, inFlight + buf)
      && dropped == |overflowed| + |poisoned|
      && (hasSink ==> forall org :: org > 0 ==> At(reported, org) + At(pendingDrops, org) == CountOrg(overflowed, org))
      && (forall org :: org in pendingDrops ==> org > 0)
    }

    ghost predicate Valid()
      reads this
    {
      Accounted() && bufBytes == Bytes(buf) && Fits(buf, maxBuf, maxBufBytes)
    }

    /** Charges the lost rows to their organisations. */
    method ChargeOrgs(drop: nat)
      requires drop <= |buf|
      modifies this`pendingDrops
      ensures forall org :: org > 0 ==> At(pendingDrops, org) == At(old(pendingDrops), org) + CountOrg(buf[..drop], org)
      ensures (forall org :: org in old(pendingDrops) ==> org > 0) ==> forall org :: org in pendingDrops ==> org > 0
    {
      for i := 0 to drop
        invariant forall org :: org > 0 ==> At(pendingDrops, org) == At(old(pendingDrops), org) + CountOrg(buf[..i], org)
        invariant (forall org :: org in old(pendingDrops) ==> org > 0) ==> forall org :: org in pendingDrops ==> org > 0
      {
        var org := buf[i].org;
        CountNext(buf, i);
        if org > 0 {
          pendingDrops := pendingDrops[org := At(pendingDrops, org) + 1];
        }
      }
    }

    /** How many rows go, taking their weight off the buffer's as it counts. */
    method Overrun() returns (drop: nat)
      requires bufBytes == Bytes(buf)
      modifies this`bufBytes
      ensures LeastDrop(buf, drop, maxBuf, maxBufBytes) && bufBytes == Bytes(buf[drop..])
    {
      drop := 0;
      assert buf[0..] == buf;
      var over := |buf| - maxBuf;
      if over > 0 {
        drop := over;
        for i := 0 to over
          invariant bufBytes == Bytes(buf[i..])
        {
          BytesNext(buf, i);
          bufBytes := bufBytes - buf[i].bytes;
        }
      }
      while drop < |buf| - 1 && bufBytes > maxBufBytes
        invariant drop <= |buf| && |buf| - drop <= maxBuf
        invariant bufBytes == Bytes(buf[drop..])
        invariant forall d: nat :: d < drop ==> !Fits(buf[d..], maxBuf, maxBufBytes)
      {
        BytesNext(buf, drop);
        bufBytes := bufBytes - buf[drop].bytes;
        drop := drop + 1;
      }
    }

    method TrimLocked() returns (trimmed: bool, ghost drop: nat)
      requires Accounted() && bufBytes == Bytes(buf)
      modifies this`buf, this`bufBytes, this`dropped, this`pendingDrops, this`overflowed
      ensures Valid()
      ensures LeastDrop(old(buf), drop, maxBuf, maxBufBytes)
      ensures buf == old(buf)[drop..] && overflowed == old(overflowed) + old(buf)[..drop]
      ensures dropped == old(dropped) + drop && (trimmed <==> drop > 0)
    {
      hide Conserved, Bytes, CountOrg;
      var n := Overrun();
      drop := n;
      trimmed := n > 0;
      OverflowMoves(arrived, inserted, overflowed, poisoned, inFlight, buf, n);
      OverflowCounts(overflowed, buf[..n]);
      if n <= 0 {
        assert buf[..0] == [] && overflowed + [] == overflowed && buf[0..] == buf;
        return;
      }
      ChargeOrgs(n);
      overflowed := overflowed + buf[..n];
      buf := buf[n..];
      dropped := dropped + n;
    }

    /** Hands the pending drops to the sink; without one they are forgotten. */
    method EmitDrops()
      requires Valid()
      modifies this`pendingDrops, this`reported
      ensures Valid() && pendingDrops == map[]
    {
      hide Conserved, Bytes, CountOrg, Fits;
      if |pendingDrops| == 0 {
        return;
      }
      if hasSink {
        reported := map org | org in reported.Keys + pendingDrops.Keys :: At(reported, org) + At(pendingDrops, org);
      }
      pendingDrops := map[];
    }

    method RecountLocked()
      modifies this`bufBytes
      ensures bufBytes == Bytes(buf)
    {
      bufBytes := 0;
      for i := 0 to |buf|
        invariant bufBytes == Bytes(buf[..i])
      {
        assert buf[..i + 1] == buf[..i] + [buf[i]];
        BytesConcat(buf[..i], [buf[i]]);
        bufBytes := bufBytes + buf[i].bytes;
      }
      assert buf[..|buf|] == buf;
    }

    /** kick asks the flusher to run now. */
    method Add(org: int, bytes: nat) returns (kick: bool, ghost drop: nat)
      requires Valid()
      modifies this`taken, this`buf, this`bufBytes, this`dropped, this`pendingDrops, this`reported, this`arrived, this`overflowed
      ensures Valid() && pendingDrops == map[]
      ensures var all := old(buf) + [Event(|old(arrived)|, org, bytes)];
              && arrived == old(arrived) + [all[|all| - 1]]
              && LeastDrop(all, drop, maxBuf, maxBufBytes)
              && buf == all[drop..] && overflowed == old(overflowed) + all[..drop]
      ensures kick <==> |buf| >= batchSize
    {
      hide Conserved, Bytes, CountOrg, LeastDrop, Fits;
      var ev := Event(taken, org, bytes);
      BytesSnoc(buf, ev);
      ArrivalJoins(arrived, inserted, overflowed, poisoned, inFlight + buf, ev);
      assert inFlight + buf + [ev] == inFlight + (buf + [ev]);
      arrived := arrived + [ev];
      taken := taken + 1;
      buf := buf + [ev];
      bufBytes := bufBytes + bytes;
      var trimmed;
      trimmed, drop := TrimLocked();
      kick := |buf| >= batchSize;
      EmitDrops();
    }

    /** Takes the oldest rows into flight. */
    method BeginFlush() returns (any: bool)
      requires Valid() && inFlight == []
      modifies this`buf, this`bufBytes, this`inFlight
      ensures Valid()
      ensures var n := if |old(buf)| > batchSize then batchSize else |old(buf)|;
              inFlight == old(buf)[..n] && buf == old(buf)[n..]
      ensures any <==> inFlight != []
    {
      hide Conserved, Bytes, CountOrg, Fits;
      any := |buf| > 0;
      if !any {
        return;
      }
      var n := |buf|;
      if n > batchSize {
        n := batchSize;
      }
      SuffixFits(buf, n, maxBuf, maxBufBytes);
      assert [] + buf == buf[..n] + buf[n..];
      inFlight := buf[..n];
      buf := buf[n..];
      RecountLocked();
    }

    /** The whole batch went in; more asks for another flush. */
    method FinishInserted() returns (more: bool)
      requires Valid()
      modifies this`inFlight, this`failStreak, this`inserted, this`pendingDrops, this`reported
      ensures Valid() && inFlight == [] && inserted == old(inserted) + old(inFlight)
      ensures failStreak == 0 && (more <==> buf != [])
    {
      hide Conserved, Bytes, CountOrg, Fits;
      BatchInserted(arrived, inserted, overflowed, poisoned, inFlight, buf);
      inserted := inserted + inFlight;
      inFlight := [];
      failStreak := 0;
      more := |buf| > 0;
      EmitDrops();
    }

    /** Whether the failed batch is to be taken apart now. */
    method InsertFailed(poison: bool) returns (isolate: bool)
      requires Valid()
      modifies this`failStreak
      ensures Valid() && failStreak == old(failStreak) + 1
      ensures isolate <==> poison || failStreak >= 3
    {
      hide Conserved, Bytes, CountOrg, Fits;
      failStreak := failStreak + 1;
      isolate := poison || failStreak >= POISON_THRESHOLD;
    }

    /** What is in flight returns to the front of the buffer. */
    method ReturnBatch() returns (ghost drop: nat)
      requires Accounted()
      modifies this`buf, this`bufBytes, this`inFlight, this`dropped, this`overflowed, this`pendingDrops
      ensures Valid() && inFlight == []
      ensures var all := old(inFlight + buf);
              && LeastDrop(all, drop, maxBuf, maxBufBytes)
              && buf == all[drop..] && overflowed == old(overflowed) + all[..drop]
    {
      hide Conserved, Bytes, CountOrg, LeastDrop, Fits;
      assert inFlight + buf == [] + (inFlight + buf);
      buf := inFlight + buf;
      inFlight := [];
      RecountLocked();
      var trimmed;
      trimmed, drop := TrimLocked();
    }

    /** The same, leaving the buffer alone when nothing is left to return. */
    method ReturnUnresolved() returns (ghost drop: nat)
      requires Valid()
      modifies this`buf, this`bufBytes, this`inFlight, this`dropped, this`overflowed, this`pendingDrops
      ensures Valid() && inFlight == []
      ensures var all := old(inFlight + buf);
              && LeastDrop(all, drop, maxBuf, maxBufBytes)
              && buf == all[drop..] && overflowed == old(overflowed) + all[..drop]
    {
      hide Conserved, Bytes, CountOrg, LeastDrop, Fits;
      if |inFlight| > 0 {
        drop := ReturnBatch();
      } else {
        drop := 0;
        assert inFlight + buf == buf == buf[0..] && overflowed + buf[..0] == overflowed;
        FitsDropsNone(buf, maxBuf, maxBufBytes);
      }
    }

    /** The whole batch is kept for a later attempt. */
    method FinishRetry() returns (ghost drop: nat)
      requires Valid()
      modifies this`buf, this`bufBytes, this`inFlight, this`insertFails, this`dropped, this`overflowed,
               this`pendingDrops, this`reported
      ensures Valid() && inFlight == [] && insertFails == old(insertFails) + 1
      ensures var all := old(inFlight + buf);
              && LeastDrop(all, drop, maxBuf, maxBufBytes)
              && buf == all[drop..] && overflowed == old(overflowed) + all[..drop]
    {
      hide Conserved, Bytes, CountOrg, LeastDrop, Fits;
      drop := ReturnBatch();
      insertFails := insertFails + 1;
      EmitDrops();
    }

    /** The fates of the batch are written down; what is unresolved is in flight still. */
    method TakeReport(r: Report<Event>, ghost fates: seq<Fate>)
      requires Valid() && inFlight != [] && Explains(inFlight, fates, r)
      modifies this`inFlight, this`failStreak, this`insertFails, this`dropped, this`inserted, this`poisoned
      ensures Valid() && inFlight == r.unresolved && insertFails == old(insertFails) + 1
      ensures inserted == old(inserted) + RowsOf(r.calls, Inserted)
      ensures poisoned == old(poisoned) + RowsOf(r.calls, Poison)
      ensures failStreak == if r.unresolved != old(inFlight) then 0 else old(failStreak)
    {
      hide Conserved, Bytes, CountOrg, Fits, RowsOf, Select, Explains;
      ReportByFate(inFlight, fates, r);
      BatchSplits(arrived, inserted, overflowed, poisoned, inFlight, buf, fates);
      dropped := dropped + r.dropped;
      insertFails := insertFails + 1;
      if r.dropped > 0 || |r.unresolved| < |inFlight| {
        failStreak := 0;
      }
      inserted := inserted + RowsOf(r.calls, Inserted);
      poisoned := poisoned + RowsOf(r.calls, Poison);
      inFlight := r.unresolved;
    }

    /** The batch was taken apart: good rows in, poison rows dropped, the rest back to the front. */
    method FinishIsolation(answer: nat -> InsertResult, expired: nat -> bool) returns (ghost drop: nat, ghost fates: seq<Fate>)
      requires Valid() && inFlight != []
      modifies this`buf, this`bufBytes, this`inFlight, this`failStreak, this`insertFails, this`dropped,
               this`inserted, this`overflowed, this`poisoned, this`pendingDrops, this`reported
      ensures Valid() && inFlight == [] && insertFails == old(insertFails) + 1
      ensures var r := IsolatePoison(old(inFlight), answer, expired, 0, 0);
              && Explains(old(inFlight), fates, r)
              && inserted == old(inserted) + RowsOf(r.calls, Inserted)
              && poisoned == old(poisoned) + RowsOf(r.calls, Poison)
              && LeastDrop(r.unresolved + old(buf), drop, maxBuf, maxBufBytes)
              && buf == (r.unresolved + old(buf))[drop..]
              && overflowed == old(overflowed) + (r.unresolved + old(buf))[..drop]
              && failStreak == if r.unresolved != old(inFlight) then 0 else old(failStreak)
    {
      hide Conserved, Bytes, CountOrg, LeastDrop, Fits, IsolatePoison, RowsOf, Select, Explains;
      var r := IsolatePoison(inFlight, answer, expired, 0, 0);
      fates := EveryRowHasOneFate(inFlight, answer, expired, 0, 0);
      TakeReport(r, fates);
      drop := ReturnUnresolved();
      EmitDrops();
    }

    /** One flush with no Add in between. Only rows refused as poison on their own are
        lost: the batch that comes back always finds its room again. */
    method Flush(first: InsertResult, answer: nat -> InsertResult, expired: nat -> bool) returns (ghost batch: seq<Event>)
      requires Valid() && inFlight == []
      modifies this
      ensures Valid() && inFlight == [] && arrived == old(arrived) && overflowed == old(overflowed)
      ensures batch == old(buf)[..if |old(buf)| > batchSize then batchSize else |old(buf)|]
      ensures var rest := old(buf)[|batch|..];
              var tried := IsolatePoison(batch, answer, expired, 0, 0);
              if batch == [] || first.Inserted? then
                buf == rest && inserted == old(inserted) + batch && poisoned == old(poisoned)
              else if first.Poison? || old(failStreak) >= 2 then
                && buf == tried.unresolved + rest && inserted == old(inserted) + RowsOf(tried.calls, Inserted)
                && poisoned == old(poisoned) + RowsOf(tried.calls, Poison)
              else
                buf == old(buf) && inserted == old(inserted) && poisoned == old(poisoned)
    {
      hide Conserved, Bytes, CountOrg, LeastDrop, Fits, IsolatePoison, RowsOf, Select, Explains;
      var all := buf;
      var any := BeginFlush();
      batch := inFlight;
      assert all == batch + buf;
      if !any {
        EmitDrops();
      } else if first.Inserted? {
        var more := FinishInserted();
      } else {
        var isolate := InsertFailed(first.Poison?);
        if isolate {
          ghost var r := IsolatePoison(batch, answer, expired, 0, 0);
          ghost var drop, fates := FinishIsolation(answer, expired);
          ReportByFate(batch, fates, r);
          BackFits(batch, fates, all[|batch|..], maxBuf, maxBufBytes);
          NothingToDrop(r.unresolved + all[|batch|..], drop, maxBuf, maxBufBytes);
        } else {
          ghost var drop := FinishRetry();
          NothingToDrop(all, drop, maxBuf, maxBufBytes);
        }
      }
    }
  }

  lemma BatchInserted(arrived: seq<Event>, inserted: seq<Event>, overflowed: seq<Event>,
                      poisoned: seq<Event>, batch: seq<Event>, buf: seq<Event>)
    requires Conserved(arrived, inserted, overflowed, poisoned, batch + buf)
    ensures Conserved(arrived, inserted + batch, overflowed, poisoned, [] + buf)
  {
    var held := batch + buf;
    assert forall i :: 0 <= i < |buf| ==> held[i + |batch|] == buf[i];
    assert [] + buf == buf;
  }

  /** An organisation's reported and pending drops are all its losses exactly when it lost none as poison. */
  lemma ReportsMissPoison(b: Batcher, org: int)
    requires b.Valid() && b.hasSink && org > 0
    ensures At(b.reported, org) + At(b.pendingDrops, org) == CountOrg(b.overflowed, org) + CountOrg(b.poisoned, org)
            <==> forall e :: e in b.poisoned ==> e.org != org
  {
    NoneOfOrg(b.poisoned, org);
  }

  lemma {:induction false} NoneOfOrg(rows: seq<Event>, org: int)
    ensures CountOrg(rows, org) == 0 <==> forall e :: e in rows ==> e.org != org
  {
    if rows != [] {
      NoneOfOrg(rows[1..], org);
      assert forall e :: e in rows <==> e == rows[0] || e in rows[1..];
    }
  }

  /** One event, refused by the store as bad data: lost, counted, and reported to nobody. */
  method PoisonGoesUnreported() returns (b: Batcher)
    ensures b.Valid() && b.hasSink && b.dropped == 1 && b.poisoned == [Event(0, 1, 100)]
    ensures At(b.reported, 1) + At(b.pendingDrops, 1) == 0
  {
    b := new Batcher(10, 1000, 10, true);
    var kick: bool;
    ghost var drop;
    var e := Event(0, 1, 100);
    kick, drop := b.Add(1, 100);
    OneRowFits(e);
    assert [] + [e] == [e];
    NothingToDrop([e], drop, 10, 1000);
    ghost var batch := b.Flush(Poison, k => Poison, k => false);
    assert batch == [e] && [e][1..] == [];
    LonePoison(e);
    NoneOfOrg(b.overflowed, 1);
  }

  lemma OneRowFits(e: Event)
    requires e.bytes == 100
    ensures Fits([e], 10, 1000)
  {
  }

  lemma LonePoison(e: Event)
    ensures var r := IsolatePoison([e], k => Poison, k => false, 0, 0);
            r.unresolved == [] && RowsOf(r.calls, Poison) == [e] && RowsOf(r.calls, Inserted) == []
  {
    SingleCall(Call([e], Poison), Poison);
    SingleCall(Call([e], Poison), Inserted);
  }
}
