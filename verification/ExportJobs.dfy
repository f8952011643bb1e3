/** The queue of export jobs: a lease that can run out, an attempt number that fences
    late writes, and terminal states. Each statement is one atomic step. */
module ExportJobs {
  import opened Wrappers

  const MAX_ATTEMPTS := 3
  const LEASE := 20 * 60

  datatype Status = Queued | Running | Done | Failed | Expired

  datatype Job = Job(project: int, author: int, status: Status, attempts: nat, claimedAt: Option<int>,
                     createdAt: int, finishedAt: Option<int>, expiresAt: Option<int>)

  /** What happened to one job, oldest first; a number names the attempt, at is when it was claimed. */
  datatype Event =
    | Claimed(attempt: nat, at: int)
    | Requeued(attempt: nat)
    | Released(attempt: nat)
    | Finished(attempt: nat)
    | GaveUp(attempt: nat)
    | Aged
    | Removed

  // ----- the life of a job, told without the table -----

  datatype Life = Waiting | Held | Complete | Broken | Gone | Erased

  function Claims(h: seq<Event>): nat {
    if h == [] then 0 else Claims(h[..|h| - 1]) + if h[|h| - 1].Claimed? then 1 else 0
  }

  function Releases(h: seq<Event>): nat {
    if h == [] then 0 else Releases(h[..|h| - 1]) + if h[|h| - 1].Released? then 1 else 0
  }

  function Requeues(h: seq<Event>): nat {
    if h == [] then 0 else Requeues(h[..|h| - 1]) + if h[|h| - 1].Requeued? then 1 else 0
  }

  /** Claims that followed a claim: the lease of the earlier attempt had run out. */
  function Lapses(h: seq<Event>): nat {
    if |h| < 2 then 0
    else Lapses(h[..|h| - 1]) + if h[|h| - 1].Claimed? && h[|h| - 2].Claimed? then 1 else 0
  }

  function LifeOf(h: seq<Event>): Life {
    if h == [] then Waiting
    else match h[|h| - 1]
      case Claimed(_, _) => Held
      case Requeued(_) => Waiting
      case Released(_) => Waiting
      case Finished(_) => Complete
      case GaveUp(_) => Broken
      case Aged => Gone
      case Removed => Erased
  }

  /** An attempt is numbered by its claim; whatever ends it follows that claim directly. */
  ghost predicate Legal(h: seq<Event>) {
    h == [] || (
      var earlier, e := h[..|h| - 1], h[|h| - 1];
      && Legal(earlier)
      && match e
         case Claimed(a, at) =>
           && a == Claims(earlier) + 1
           && (LifeOf(earlier).Waiting?
               || (LifeOf(earlier).Held? && a <= MAX_ATTEMPTS && earlier[|earlier| - 1].at + LEASE < at))
         case Requeued(a) => LifeOf(earlier).Held? && a == Claims(earlier) && a < MAX_ATTEMPTS
         case Released(a) => LifeOf(earlier).Held? && a == Claims(earlier)
         case Finished(a) => LifeOf(earlier).Held? && a == Claims(earlier)
         case GaveUp(a) => LifeOf(earlier).Held? && a == Claims(earlier)
         case Aged => LifeOf(earlier).Complete?
         case Removed => LifeOf(earlier).Complete? || LifeOf(earlier).Broken? || LifeOf(earlier).Gone?)
  }

  ghost predicate Terminal(e: Event) {
    e.Finished? || e.GaveUp?
  }

  ghost predicate Ends(e: Event) {
    e.Requeued? || e.Released? || e.Finished? || e.GaveUp?
  }

  lemma {:induction false} PrefixesAreLegal(h: seq<Event>, n: nat)
    requires Legal(h) && n <= |h|
    ensures Legal(h[..n]) && Claims(h[..n]) <= Claims(h)
  {
    if n < |h| {
      PrefixesAreLegal(h[..|h| - 1], n);
      assert h[..|h| - 1][..n] == h[..n];
    } else {
      assert h[..n] == h;
    }
  }

  /** Attempt numbers strictly grow from claim to claim. */
  lemma AttemptsGrow(h: seq<Event>, i: nat, j: nat)
    requires Legal(h) && i < j < |h| && h[i].Claimed? && h[j].Claimed?
    ensures h[i].attempt < h[j].attempt
  {
    PrefixesAreLegal(h, j + 1);
    PrefixesAreLegal(h, j);
    PrefixesAreLegal(h, i + 1);
    PrefixesAreLegal(h[..j], i + 1);
    assert h[..j][..i + 1] == h[..i + 1] && h[..i + 1][..i] == h[..i] && h[..j + 1][..j] == h[..j];
  }

  lemma EndFollowsItsClaim(h: seq<Event>, j: nat)
    requires Legal(h) && j < |h| && Ends(h[j])
    ensures j > 0 && h[j - 1].Claimed? && h[j - 1].attempt == h[j].attempt && Claims(h[..j - 1]) + 1 == h[j].attempt
  {
    PrefixesAreLegal(h, j + 1);
    assert h[..j + 1][..j] == h[..j];
    if j > 0 { assert h[..j][..j - 1] == h[..j - 1]; }
  }

  /** A write that took effect was made by the newest attempt, before any later claim,
      and no attempt ends twice. */
  lemma SupersededWritesDoNothing(h: seq<Event>, j: nat)
    requires Legal(h) && j < |h| && Ends(h[j])
    ensures j > 0 && h[j - 1].Claimed? && h[j - 1].attempt == h[j].attempt
    ensures forall i :: 0 <= i < j && h[i].Claimed? ==> h[i].attempt <= h[j].attempt
    ensures forall i :: 0 <= i < j && Ends(h[i]) ==> h[i].attempt < h[j].attempt
  {
    hide Legal, Claims;
    EndFollowsItsClaim(h, j);
    forall i | 0 <= i < j - 1 && h[i].Claimed? ensures h[i].attempt < h[j].attempt {
      AttemptsGrow(h, i, j - 1);
    }
    forall i | 0 <= i < j && Ends(h[i]) ensures h[i].attempt < h[j].attempt {
      EndFollowsItsClaim(h, i);
      AttemptsGrow(h, i - 1, j - 1);
    }
  }

  /** A job is claimed again under a running attempt only after its lease: n claims on end
      with nothing that ends an attempt between them take more than n leases of twenty minutes. */
  lemma {:induction false} LeasesAreRespected(h: seq<Event>, i: nat, j: nat)
    requires Legal(h) && i < j < |h| && h[i].Claimed? && h[j].Claimed? && forall k :: i < k < j ==> !Ends(h[k])
    ensures h[j].at > h[i].at + (j - i) * 1200
    ensures forall k :: i < k < j ==> h[k].Claimed?
  {
    PrefixesAreLegal(h, j + 1);
    PrefixesAreLegal(h, j);
    assert h[..j + 1][..j] == h[..j];
    if i < j - 1 {
      assert h[j - 1].Claimed?;
      LeasesAreRespected(h, i, j - 1);
    }
  }

  lemma {:induction false} AfterTheEnd(h: seq<Event>, i: nat)
    requires Legal(h) && i < |h| && Terminal(h[i])
    ensures forall j :: i < j < |h| ==> h[j].Aged? || h[j].Removed?
    ensures var l := LifeOf(h); l.Complete? || l.Broken? || l.Gone? || l.Erased?
    ensures h[i].GaveUp? ==> forall j :: i < j < |h| ==> h[j].Removed?
    ensures h[i].GaveUp? ==> !LifeOf(h).Complete? && !LifeOf(h).Gone?
  {
    if i < |h| - 1 {
      AfterTheEnd(h[..|h| - 1], i);
    }
  }

  /** A terminal outcome is written once, and from it a job only ages (if it was done) and is removed. */
  lemma OutcomeWrittenOnce(h: seq<Event>, i: nat, j: nat)
    requires Legal(h) && i < j < |h| && Terminal(h[i])
    ensures h[j].Removed? || (h[j].Aged? && h[i].Finished?)
    ensures h[j].Removed? ==> j == |h| - 1
    ensures h[j].Aged? ==> forall k :: j < k < |h| ==> h[k].Removed?
  {
    AfterTheEnd(h, i);
    if j < |h| - 1 {
      PrefixesAreLegal(h, j + 2);
      assert h[..j + 2][..j + 1] == h[..j + 1];
      AfterAging(h, j);
    }
  }

  lemma {:induction false} AfterAging(h: seq<Event>, j: nat)
    requires Legal(h) && j < |h| && (h[j].Aged? || h[j].Removed?)
    ensures forall k :: j < k < |h| ==> h[k].Removed?
    ensures LifeOf(h).Gone? || LifeOf(h).Erased?
    ensures h[j].Removed? ==> j == |h| - 1
  {
    if j < |h| - 1 {
      AfterAging(h[..|h| - 1], j);
    }
  }

  /** Beyond the limit a job is claimed again only because it was released. */
  lemma {:induction false} ClaimsAreBounded(h: seq<Event>)
    requires Legal(h)
    ensures Claims(h) <= MAX_ATTEMPTS + Releases(h)
    ensures LifeOf(h).Waiting? ==> Claims(h) < MAX_ATTEMPTS + Releases(h)
  {
    if h != [] { ClaimsAreBounded(h[..|h| - 1]); }
  }

  /** Every claim but the one standing was given back, released or lapsed. */
  lemma {:induction false} WhereAttemptsWent(h: seq<Event>)
    requires Legal(h)
    ensures Claims(h) == Requeues(h) + Releases(h) + Lapses(h) + if LifeOf(h).Waiting? then 0 else 1
  {
    if h != [] {
      var earlier := h[..|h| - 1];
      WhereAttemptsWent(earlier);
      if |h| >= 2 { assert h[|h| - 2] == earlier[|earlier| - 1]; }
    }
  }

  /** A release does cost an attempt, whatever its comment says: claimed, released,
      claimed, released and claimed again, a job ends at its first failure. */
  lemma ReleasesCostAttempts() returns (h: seq<Event>)
    ensures h == [Claimed(1, 0), Released(1), Claimed(2, 60), Released(2), Claimed(3, 120), GaveUp(3)]
    ensures Legal(h) && Requeues(h) == 0 && Releases(h) == 2 && Lapses(h) == 0
  {
    h := [];
    h := Longer(h, Claimed(1, 0));
    h := Longer(h, Released(1));
    h := Longer(h, Claimed(2, 60));
    h := Longer(h, Released(2));
    h := Longer(h, Claimed(3, 120));
    h := Longer(h, GaveUp(3));
  }

  /** The failure of the attempt under way is final when requeues, releases and lapses so far
      make two; it is final too early, had releases been free, exactly when they tip the count. */
  lemma {:induction false} WhenFailureIsFinal(h: seq<Event>)
    requires Legal(h) && LifeOf(h).Held?
    ensures Legal(h + [GaveUp(Claims(h))])
    ensures Claims(h) >= MAX_ATTEMPTS <==> Requeues(h) + Releases(h) + Lapses(h) >= MAX_ATTEMPTS - 1
    ensures Claims(h) >= MAX_ATTEMPTS && Claims(h) - Releases(h) < MAX_ATTEMPTS <==>
            && Releases(h) > 0 && Requeues(h) + Lapses(h) < MAX_ATTEMPTS - 1
            && Requeues(h) + Lapses(h) + Releases(h) >= MAX_ATTEMPTS - 1
  {
    WhereAttemptsWent(h);
    assert (h + [GaveUp(Claims(h))])[..|h|] == h;
  }

  lemma Longer(h: seq<Event>, e: Event) returns (h': seq<Event>)
    requires Legal(h) && LifeOf(h).Waiting? == e.Claimed? && !e.Aged? && !e.Removed? && !e.Requeued?
    requires LifeOf(h).Waiting? || LifeOf(h).Held?
    requires e.attempt == Claims(h) + if e.Claimed? then 1 else 0
    ensures h' == h + [e] && Legal(h') && Requeues(h') == Requeues(h) && Lapses(h') == Lapses(h)
    ensures Claims(h') == Claims(h) + (if e.Claimed? then 1 else 0) && Releases(h') == Releases(h) + if e.Released? then 1 else 0
    ensures LifeOf(h') == match e case Claimed(_, _) => Held case Released(_) => Waiting case Finished(_) => Complete case _ => Broken
  {
    h' := h + [e];
    assert h'[..|h|] == h;
    if h != [] { assert h'[|h'| - 2] == h[|h| - 1]; }
  }

  // ----- the table -----

  predicate Active(j: Job) {
    j.status.Queued? || j.status.Running?
  }

  /** The row is what its history says; a row that is gone was removed when it had ended. */
  ghost predicate RowOk(row: Option<Job>, h: seq<Event>) {
    && Legal(h)
    && match row
       case None => LifeOf(h).Erased?
       case Some(j) =>
         && j.attempts == Claims(h)
         && j.status == (match LifeOf(h)
                         case Waiting => Queued case Held => Running case Complete => Done
                         case Broken => Failed case Gone => Expired case Erased => j.status)
         && !LifeOf(h).Erased?
         && (j.status.Running? ==> j.claimedAt == Some(h[|h| - 1].at))
  }

  function Lookup(jobs: map<int, Job>, id: int): Option<Job> {
    if id in jobs then Some(jobs[id]) else None
  }

  predicate Lapsed(j: Job, now: int) {
    j.status.Running? && j.claimedAt.Some? && j.claimedAt.value < now - LEASE
  }

  predicate Claimable(j: Job, now: int) {
    j.status.Queued? || (Lapsed(j, now) && j.attempts < MAX_ATTEMPTS)
  }

  function CountActive(jobs: map<int, Job>, mine: Job -> bool): nat {
    |set id | id in jobs && Active(jobs[id]) && mine(jobs[id])|
  }

  /** At any time a job that has not ended is waiting, within its twenty minutes, up for
      another claim, or out of its three attempts; only the last kind is swept. */
  lemma WhatTimeDoes(jobs: map<int, Job>, id: int, now: int)
    requires id in jobs && (jobs[id].status.Running? ==> jobs[id].claimedAt.Some?)
    ensures var j := jobs[id]; var late := j.status == Running && now - j.claimedAt.value > 1200;
            && (Claimable(j, now) <==> j.status == Queued || (late && j.attempts < 3))
            && (id in Stuck(jobs, now) <==> late && j.attempts >= 3)
  {
  }

  /** Active and ended jobs make up all of them. */
  lemma ActiveOrEnded(jobs: map<int, Job>, mine: Job -> bool)
    ensures CountActive(jobs, mine) + |set id | id in jobs && mine(jobs[id]) && jobs[id].status in {Done, Failed, Expired}|
         == |set id | id in jobs && mine(jobs[id])|
  {
    var all := set id | id in jobs && mine(jobs[id]);
    var ended := set id | id in jobs && mine(jobs[id]) && jobs[id].status in {Done, Failed, Expired};
    var active := set id | id in jobs && Active(jobs[id]) && mine(jobs[id]);
    assert all == active + ended && active !! ended;
  }

  lemma OneMoreActive(jobs: map<int, Job>, id: int, j: Job, mine: Job -> bool)
    requires id !in jobs && Active(j) && mine(j)
    ensures CountActive(jobs[id := j], mine) == CountActive(jobs, mine) + 1
  {
    var jobs' := jobs[id := j];
    var now, later := set i | i in jobs && Active(jobs[i]) && mine(jobs[i]),
                      set i | i in jobs' && Active(jobs'[i]) && mine(jobs'[i]);
    assert later == now + {id};
  }

  class Store {
    var jobs: map<int, Job>
    var nextId: int
    ghost var history: map<int, seq<Event>>

    ghost predicate Valid()
      reads this
    {
      && jobs.Keys <= history.Keys
      && (forall id :: id in history ==> id < nextId && RowOk(Lookup(jobs, id), history[id]))
    }

    constructor ()
      ensures Valid() && jobs == map[]
    {
      jobs, nextId, history := map[], 0, map[];
    }

    /** One statement changed one row. */
    ghost predicate Steps(jobs0: map<int, Job>, history0: map<int, seq<Event>>, id: int, e: Event)
      reads this
    {
      && id in history0 && history == history0[id := history0[id] + [e]]
      && id in jobs0
      && (if e.Removed? then jobs == jobs0 - {id} else id in jobs && jobs == jobs0[id := jobs[id]])
    }

    method EnqueueLimited(project: int, author: int, now: int, userLimit: int, projectLimit: int) returns (id: Option<int>)
      requires Valid()
      modifies this
      ensures Valid()
      ensures id.Some? <==> (CountActive(old(jobs), (j: Job) => j.project == project) < projectLimit
                             && CountActive(old(jobs), (j: Job) => j.author == author) < userLimit)
      ensures id.Some? ==> (id.value !in old(jobs) && id.value !in old(history)
                            && jobs == old(jobs)[id.value := Job(project, author, Queued, 0, None, now, None, None)]
                            && history == old(history)[id.value := []]
                            && CountActive(jobs, (j: Job) => j.project == project) <= projectLimit
                            && CountActive(jobs, (j: Job) => j.author == author) <= userLimit)
      ensures id.None? ==> jobs == old(jobs) && history == old(history)
    {
      var proj := CountActive(jobs, (j: Job) => j.project == project);
      var user := CountActive(jobs, (j: Job) => j.author == author);
      if proj >= projectLimit || user >= userLimit {
        return None;
      }
      id := Some(nextId);
      OneMoreActive(jobs, nextId, Job(project, author, Queued, 0, None, now, None, None), (j: Job) => j.project == project);
      OneMoreActive(jobs, nextId, Job(project, author, Queued, 0, None, now, None, None), (j: Job) => j.author == author);
      jobs := jobs[nextId := Job(project, author, Queued, 0, None, now, None, None)];
      history := history[nextId := []];
      nextId := nextId + 1;
    }

    /** The oldest job that waits, or whose lease ran out with attempts left. */
    method Claim(now: int) returns (claimed: Option<(int, nat)>)
      requires Valid()
      modifies this`jobs, this`history
      ensures Valid()
      ensures claimed.None? ==> unchanged(this) && forall id :: id in jobs ==> !Claimable(jobs[id], now)
      ensures claimed.Some? ==>
                var (id, attempt) := claimed.value;
                && id in old(jobs) && Claimable(old(jobs)[id], now) && attempt == old(jobs)[id].attempts + 1
                && (forall o :: o in old(jobs) && Claimable(old(jobs)[o], now) ==> old(jobs)[id].createdAt <= old(jobs)[o].createdAt)
                && Steps(old(jobs), old(history), id, Claimed(attempt, now))
                && jobs[id] == old(jobs)[id].(status := Running, attempts := attempt, claimedAt := Some(now))
    {
      var pick := Oldest(now);
      if pick.None? {
        return None;
      }
      var id := pick.value;
      var attempt := jobs[id].attempts + 1;
      Write(id, Some(jobs[id].(status := Running, attempts := attempt, claimedAt := Some(now))), Claimed(attempt, now));
      claimed := Some((id, attempt));
    }

    method Oldest(now: int) returns (pick: Option<int>)
      ensures pick.None? ==> forall id :: id in jobs ==> !Claimable(jobs[id], now)
      ensures pick.Some? ==> pick.value in jobs && Claimable(jobs[pick.value], now)
      ensures pick.Some? ==> forall o :: o in jobs && Claimable(jobs[o], now) ==> jobs[pick.value].createdAt <= jobs[o].createdAt
    {
      pick := None;
      var left := jobs.Keys;
      while left != {}
        invariant left <= jobs.Keys
        invariant pick.None? ==> forall id :: id in jobs && id !in left ==> !Claimable(jobs[id], now)
        invariant pick.Some? ==> pick.value in jobs && Claimable(jobs[pick.value], now)
        invariant pick.Some? ==>
          forall o :: o in jobs && o !in left && Claimable(jobs[o], now) ==> jobs[pick.value].createdAt <= jobs[o].createdAt
        decreases |left|
      {
        assert (forall x: int :: x !in left) ==> left == {};
        var id: int :| id in left;
        left := left - {id};
        if Claimable(jobs[id], now) && (pick.None? || jobs[id].createdAt < jobs[pick.value].createdAt) {
          pick := Some(id);
        }
      }
    }

    /** UPDATE or DELETE of one row, recorded. */
    method Write(id: int, row: Option<Job>, ghost e: Event)
      requires Valid() && id in jobs && Legal(history[id] + [e])
      requires RowOk(row, history[id] + [e]) && (row.None? <==> e.Removed?)
      modifies this`jobs, this`history
      ensures Valid() && Steps(old(jobs), old(history), id, e)
      ensures row.Some? ==> jobs[id] == row.value
    {
      history := history[id := history[id] + [e]];
      if row.Some? {
        jobs := jobs[id := row.value];
      } else {
        jobs := jobs - {id};
      }
    }

    /** The fence of every write by a worker: still running, and still this attempt. */
    predicate Owns(id: int, attempt: nat)
      reads this`jobs
    {
      id in jobs && jobs[id].status.Running? && jobs[id].attempts == attempt
    }

    /** false is the stale claim: nothing was written. */
    method Fail(id: int, attempt: nat, now: int) returns (ok: bool)
      requires Valid()
      modifies this`jobs, this`history
      ensures Valid() && ok == old(Owns(id, attempt)) && (!ok ==> unchanged(this))
      ensures ok ==>
                if attempt >= MAX_ATTEMPTS then
                  && Steps(old(jobs), old(history), id, GaveUp(attempt))
                  && jobs[id] == old(jobs)[id].(status := Failed, finishedAt := Some(now), claimedAt := None)
                else
                  && Steps(old(jobs), old(history), id, Requeued(attempt))
                  && jobs[id] == old(jobs)[id].(status := Queued, finishedAt := None, claimedAt := None)
    {
      ok := Owns(id, attempt);
      if ok {
        if attempt >= MAX_ATTEMPTS {
          Write(id, Some(jobs[id].(status := Failed, finishedAt := Some(now), claimedAt := None)), GaveUp(attempt));
        } else {
          Write(id, Some(jobs[id].(status := Queued, finishedAt := None, claimedAt := None)), Requeued(attempt));
        }
      }
    }

    method FailPermanent(id: int, attempt: nat, now: int) returns (ok: bool)
      requires Valid()
      modifies this`jobs, this`history
      ensures Valid() && ok == old(Owns(id, attempt)) && (!ok ==> unchanged(this))
      ensures ok ==> Steps(old(jobs), old(history), id, GaveUp(attempt))
                     && jobs[id] == old(jobs)[id].(status := Failed, finishedAt := Some(now))
    {
      ok := Owns(id, attempt);
      if ok {
        Write(id, Some(jobs[id].(status := Failed, finishedAt := Some(now))), GaveUp(attempt));
      }
    }

    method Finish(id: int, attempt: nat, now: int, ttl: int) returns (ok: bool)
      requires Valid()
      modifies this`jobs, this`history
      ensures Valid() && ok == old(Owns(id, attempt)) && (!ok ==> unchanged(this))
      ensures ok ==> Steps(old(jobs), old(history), id, Finished(attempt))
                     && jobs[id] == old(jobs)[id].(status := Done, finishedAt := Some(now), expiresAt := Some(now + ttl))
    {
      ok := Owns(id, attempt);
      if ok {
        Write(id, Some(jobs[id].(status := Done, finishedAt := Some(now), expiresAt := Some(now + ttl))), Finished(attempt));
      }
    }

    method Release(id: int, attempt: nat) returns (ok: bool)
      requires Valid()
      modifies this`jobs, this`history
      ensures Valid() && ok == old(Owns(id, attempt)) && (!ok ==> unchanged(this))
      ensures ok ==> Steps(old(jobs), old(history), id, Released(attempt))
                     && jobs[id] == old(jobs)[id].(status := Queued, claimedAt := None)
    {
      ok := Owns(id, attempt);
      if ok {
        Write(id, Some(jobs[id].(status := Queued, claimedAt := None)), Released(attempt));
      }
    }

    method Delete(id: int) returns (ok: bool)
      requires Valid()
      modifies this`jobs, this`history
      ensures Valid() && ok == (id in old(jobs) && !Active(old(jobs)[id])) && (!ok ==> unchanged(this))
      ensures ok ==> Steps(old(jobs), old(history), id, Removed)
    {
      ok := id in jobs && !Active(jobs[id]);
      if ok {
        Write(id, None, Removed);
      }
    }

    method Abandon(id: int, now: int)
      requires Valid() && id in Stuck(jobs, now)
      modifies this`jobs, this`history
      ensures Valid() && jobs == old(jobs)[id := old(jobs)[id].(status := Failed, finishedAt := Some(now))]
      ensures id in old(history) && history == old(history)[id := old(history)[id] + [GaveUp(old(jobs)[id].attempts)]]
    {
      Write(id, Some(jobs[id].(status := Failed, finishedAt := Some(now))), GaveUp(jobs[id].attempts));
    }

    /** Ends the jobs whose last attempt lapsed. */
    method SweepStale(now: int) returns (swept: set<int>)
      requires Valid()
      modifies this`jobs, this`history
      ensures Valid() && jobs.Keys == old(jobs).Keys && history.Keys == old(history).Keys
      ensures swept == Stuck(old(jobs), now)
      ensures forall id :: id in old(jobs) && id !in swept ==> jobs[id] == old(jobs)[id] && history[id] == old(history)[id]
      ensures forall id :: id in swept ==>
                && jobs[id] == old(jobs)[id].(status := Failed, finishedAt := Some(now))
                && history[id] == old(history)[id] + [GaveUp(old(jobs)[id].attempts)]
    {
      hide RowOk;
      swept := Stuck(jobs, now);
      var left := swept;
      while left != {}
        invariant Valid() && left <= swept && jobs.Keys == old(jobs).Keys && history.Keys == old(history).Keys
        invariant forall id :: id in jobs && (id in left || id !in swept) ==> jobs[id] == old(jobs)[id] && history[id] == old(history)[id]
        invariant forall id :: id in swept && id !in left ==>
                    && jobs[id] == old(jobs)[id].(status := Failed, finishedAt := Some(now))
                    && history[id] == old(history)[id] + [GaveUp(old(jobs)[id].attempts)]
        decreases |left|
      {
        assert (forall x: int :: x !in left) ==> left == {};
        var id: int :| id in left;
        Abandon(id, now);
        left := left - {id};
      }
    }

    /** Of the given jobs those that are done become expired, once. */
    method MarkExpired(ids: set<int>)
      requires Valid()
      modifies this`jobs, this`history
      ensures Valid() && jobs.Keys == old(jobs).Keys && history.Keys == old(history).Keys
      ensures forall id :: id in old(jobs) ==>
                if id in ids && old(jobs)[id].status.Done? then
                  jobs[id] == old(jobs)[id].(status := Expired) && history[id] == old(history)[id] + [Aged]
                else jobs[id] == old(jobs)[id] && history[id] == old(history)[id]
    {
      var left := ids;
      while left != {}
        invariant Valid() && left <= ids && jobs.Keys == old(jobs).Keys && history.Keys == old(history).Keys
        invariant forall id :: id in old(jobs) ==>
                    if id in ids && id !in left && old(jobs)[id].status.Done? then
                      jobs[id] == old(jobs)[id].(status := Expired) && history[id] == old(history)[id] + [Aged]
                    else jobs[id] == old(jobs)[id] && history[id] == old(history)[id]
        decreases |left|
      {
        assert (forall x: int :: x !in left) ==> left == {};
        var id: int :| id in left;
        left := left - {id};
        if id in jobs && jobs[id].status.Done? {
          Write(id, Some(jobs[id].(status := Expired)), Aged);
        }
      }
    }

    /** What the worker does with the job it claimed, by how the build went. */
    method Settle(id: int, attempt: nat, build: Build, now: int, ttl: int) returns (told: bool)
      requires Valid()
      modifies this`jobs, this`history
      ensures Valid() && (!old(Owns(id, attempt)) ==> unchanged(this) && !told)
      ensures old(Owns(id, attempt)) ==>
                && Steps(old(jobs), old(history), id, EndOf(build, attempt))
                && (told <==> jobs[id].status in {Done, Failed})
                && jobs[id].status == (match build case Written => Done case Hopeless => Failed case Stopped => Queued
                                       case Broke => if attempt >= 3 then Failed else Queued)
    {
      var ok;
      match build
      case Written =>
        ok := Finish(id, attempt, now, ttl);
        told := ok;
      case Hopeless =>
        ok := FailPermanent(id, attempt, now);
        told := ok;
      case Stopped =>
        ok := Release(id, attempt);
        told := false;
      case Broke =>
        ok := Fail(id, attempt, now);
        told := ok && attempt >= MAX_ATTEMPTS;
    }
  }

  function Stuck(jobs: map<int, Job>, now: int): set<int> {
    set id | id in jobs && Lapsed(jobs[id], now) && jobs[id].attempts >= MAX_ATTEMPTS
  }

  /** Written, refused for a reason a retry will not mend, cut off by the process stopping, or failed. */
  datatype Build = Written | Hopeless | Stopped | Broke

  function EndOf(b: Build, attempt: nat): Event {
    match b
    case Written => Finished(attempt)
    case Hopeless => GaveUp(attempt)
    case Stopped => Released(attempt)
    case Broke => if attempt >= MAX_ATTEMPTS then GaveUp(attempt) else Requeued(attempt)
  }
}
