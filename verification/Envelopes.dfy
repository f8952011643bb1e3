/** What one envelope costs and what the sender is told: three classes of items, each
    with its own buffer and quota, charged, stored, dropped and refunded in one pass. */
module Envelopes {
  import opened Wrappers

  datatype Class = Events | Transactions | Profiles

  /** The quota checker of a class: none set, failing, or granting so many of those asked for. */
  datatype Quota = NoQuota | Failing | Granting(n: nat)

  /** One item: whether it parses, and whether this attempt finds room for it. For an
      event or a transaction that is a place in the queue, for a profile the budget to
      decode it. */
  datatype Item = Item(id: int, parses: bool, room: bool)

  /** A parsed envelope; txs are those left after parsing and sampling. overLimit counts
      items beyond the limit. */
  datatype Envelope = Envelope(events: seq<Item>, txs: seq<Item>, profiles: seq<Item>, overLimit: nat)

  /** The world as the request meets it. Without a profile store profilesOn is false. */
  datatype World = World(
    eventLoad: real, txLoad: real, profLoad: real, profilesOn: bool,
    eventQuota: Quota, txQuota: Quota, profQuota: Quota)

  const THRESHOLD := 0.95

  datatype Status = Accepted | Overloaded(of: Class) | QuotaExceeded(of: Class)

  datatype Fate = Stored | Malformed | Refused

  /** A bad event is told before the queue is asked, a bad profile after the budget. */
  function FateOf(c: Class, i: Item): Fate {
    match c
    case Events => if !i.parses then Malformed else if i.room then Stored else Refused
    case Transactions => if i.room then Stored else Refused
    case Profiles => if !i.room then Refused else if i.parses then Stored else Malformed
  }

  function Ids(items: seq<Item>): (ids: seq<int>)
    ensures |ids| == |items|
  {
    if items == [] then [] else Ids(items[..|items| - 1]) + [items[|items| - 1].id]
  }

  /** Those that meet the fate, in order. */
  function With(c: Class, items: seq<Item>, f: Fate): seq<int> {
    if items == [] then []
    else
      var last := items[|items| - 1];
      With(c, items[..|items| - 1], f) + if FateOf(c, last) == f then [last.id] else []
  }

  /** One class of one envelope: items granted by the quota; of those the ones stored, and
      how many were malformed or refused for want of room; what was added to the drop
      counter and to the quota's count. */
  datatype Tally = Tally(granted: nat, stored: seq<int>, malformed: nat, refused: nat, dropped: nat, charged: int)

  predicate Sane(q: Quota, want: nat) {
    q.Granting? ==> q.n <= want
  }

  /** No checker or a failing one lets everything through, charging nothing. */
  function Grant(q: Quota, want: nat): nat {
    if q.Granting? && want > 0 then q.n else want
  }

  // ----- the decision, class by class -----

  function Items(e: Envelope, c: Class): seq<Item> {
    match c case Events => e.events case Transactions => e.txs case Profiles => e.profiles
  }

  function QuotaOf(w: World, c: Class): Quota {
    match c case Events => w.eventQuota case Transactions => w.txQuota case Profiles => w.profQuota
  }

  predicate Present(e: Envelope, c: Class) {
    Items(e, c) != []
  }

  function Load(w: World, c: Class): real {
    match c case Events => w.eventLoad case Transactions => w.txLoad
            case Profiles => if w.profilesOn then w.profLoad else 0.0
  }

  predicate Full(e: Envelope, w: World, c: Class) {
    Present(e, c) && Load(w, c) >= THRESHOLD
  }

  /** The class asks its quota. */
  predicate Asks(e: Envelope, w: World, c: Class) {
    Present(e, c) && !Full(e, w, c) && (c.Profiles? ==> w.profilesOn)
  }

  predicate Wellformed(e: Envelope, w: World) {
    Sane(w.eventQuota, |e.events|) && Sane(w.txQuota, |e.txs|) && Sane(w.profQuota, |e.profiles|)
  }

  function Granted(e: Envelope, w: World, c: Class): (n: nat)
    requires Wellformed(e, w)
    ensures n <= |Items(e, c)|
  {
    if !Asks(e, w, c) then 0 else Grant(QuotaOf(w, c), |Items(e, c)|)
  }

  /** The items the quota lets through: the first ones. */
  function Share(e: Envelope, w: World, c: Class): seq<Item>
    requires Wellformed(e, w)
  {
    Items(e, c)[..Granted(e, w, c)]
  }

  ghost predicate AllFull(e: Envelope, w: World) {
    (exists c :: Present(e, c)) && forall c :: Present(e, c) ==> Full(e, w, c)
  }

  /** Some quota was asked and none gave anything. */
  ghost predicate NoneGranted(e: Envelope, w: World)
    requires Wellformed(e, w)
  {
    (exists c :: Asks(e, w, c)) && forall c :: Granted(e, w, c) == 0
  }

  /** Turned away with 503 before anything was counted. */
  ghost predicate Rejected(e: Envelope, w: World)
    requires Wellformed(e, w)
  {
    AllFull(e, w) || (NoneGranted(e, w) && exists c :: Full(e, w, c))
  }

  /** The class named in a refusal. */
  function First(events: bool, txs: bool): Class {
    if events then Events else if txs then Transactions else Profiles
  }

  /** What the class's share comes to. What the queue refuses is refunded; profiles
      without decode budget are counted as dropped instead. */
  function TallyOf(e: Envelope, w: World, c: Class): Tally
    requires Wellformed(e, w)
  {
    var part := Share(e, w, c);
    var refused := |With(c, part, Refused)|;
    Tally(|part|, With(c, part, Stored), |With(c, part, Malformed)|, refused,
          |Items(e, c)| - |part| + (if c.Events? then e.overLimit else if c.Profiles? then refused else 0),
          if !QuotaOf(w, c).Granting? then 0 else if c.Profiles? then |part| else |part| - refused)
  }

  /** What one envelope does to the counts of one class. */
  ghost function Done(e: Envelope, w: World, c: Class): Tally
    requires Wellformed(e, w)
  {
    if Rejected(e, w) then Tally(0, [], 0, 0, if c.Events? then e.overLimit else 0, 0) else TallyOf(e, w, c)
  }

  /** And what the sender is told. */
  ghost function Answer(e: Envelope, w: World): Status
    requires Wellformed(e, w)
  {
    if Rejected(e, w) then Overloaded(First(Full(e, w, Events), Full(e, w, Transactions)))
    else if NoneGranted(e, w) then QuotaExceeded(First(Asks(e, w, Events), Asks(e, w, Transactions)))
    else
      var ev, tx := Done(e, w, Events), Done(e, w, Transactions);
      if ev.stored == [] && tx.stored == [] && ev.refused + tx.refused > 0
      then Overloaded(if ev.refused > 0 then Events else Transactions) else Accepted
  }

  // ----- one envelope -----

  /** One class: the quota's count, the drop counter, the items handed on, in order. */
  class Meter {
    var charge: int
    var drops: nat
    var queue: seq<int>

    constructor ()
      ensures charge == 0 && drops == 0 && queue == []
    {
      charge, drops, queue := 0, 0, [];
    }

    method GrantFrom(q: Quota, want: nat) returns (granted: nat)
      requires Sane(q, want)
      modifies this`charge
      ensures granted == Grant(q, want)
      ensures charge == old(charge) + if q.Granting? then granted else 0
    {
      if want <= 0 {
        return 0;
      }
      if !q.Granting? {
        return want;
      }
      granted := q.n;
      charge := charge + granted;
    }

    method CountDrop(n: int)
      modifies this`drops
      ensures drops == old(drops) + if n > 0 then n else 0
    {
      if n <= 0 {
        return;
      }
      drops := drops + n;
    }

    /** A failing checker charged nothing at a known time, so its refund finds no row. */
    method Refund(q: Quota, n: nat)
      modifies this`charge
      ensures charge == old(charge) - if q.Granting? then n else 0
    {
      if !q.Granting? || n <= 0 {
        return;
      }
      charge := charge - n;
    }

    method EnqueueEvents(events: seq<Item>) returns (enqueued: nat, refused: nat)
      modifies this`queue
      ensures queue == old(queue) + With(Events, events, Stored)
      ensures enqueued == |With(Events, events, Stored)| && refused == |With(Events, events, Refused)|
    {
      enqueued, refused := 0, 0;
      for i := 0 to |events|
        invariant queue == old(queue) + With(Events, events[..i], Stored)
        invariant enqueued == |With(Events, events[..i], Stored)| && refused == |With(Events, events[..i], Refused)|
      {
        assert events[..i + 1][..i] == events[..i];
        if !events[i].parses {
          continue;
        }
        if events[i].room {
          queue := queue + [events[i].id];
          enqueued := enqueued + 1;
        } else {
          refused := refused + 1;
        }
      }
      assert events[..|events|] == events;
    }

    method EnqueueTransactions(txs: seq<Item>) returns (enqueued: nat, refused: nat)
      modifies this`queue
      ensures queue == old(queue) + With(Transactions, txs, Stored)
      ensures enqueued == |With(Transactions, txs, Stored)| && refused == |With(Transactions, txs, Refused)|
    {
      enqueued, refused := 0, 0;
      for i := 0 to |txs|
        invariant queue == old(queue) + With(Transactions, txs[..i], Stored)
        invariant enqueued == |With(Transactions, txs[..i], Stored)| && refused == |With(Transactions, txs[..i], Refused)|
      {
        assert txs[..i + 1][..i] == txs[..i];
        if txs[i].room {
          queue := queue + [txs[i].id];
          enqueued := enqueued + 1;
        } else {
          refused := refused + 1;
        }
      }
      assert txs[..|txs|] == txs;
    }

    method AddProfiles(profiles: seq<Item>)
      modifies this`queue, this`drops
      ensures queue == old(queue) + With(Profiles, profiles, Stored)
      ensures drops == old(drops) + |With(Profiles, profiles, Refused)|
    {
      for i := 0 to |profiles|
        invariant queue == old(queue) + With(Profiles, profiles[..i], Stored)
        invariant drops == old(drops) + |With(Profiles, profiles[..i], Refused)|
      {
        assert profiles[..i + 1][..i] == profiles[..i];
        if !profiles[i].room {
          CountDrop(1);
          continue;
        }
        if !profiles[i].parses {
          continue;
        }
        queue := queue + [profiles[i].id];
      }
      assert profiles[..|profiles|] == profiles;
    }
  }

  lemma Decision(e: Envelope, w: World)
    requires Wellformed(e, w)
    ensures AllFull(e, w) <==>
            && (Present(e, Events) || Present(e, Transactions) || Present(e, Profiles))
            && (Present(e, Events) ==> Full(e, w, Events)) && (Present(e, Transactions) ==> Full(e, w, Transactions))
            && (Present(e, Profiles) ==> Full(e, w, Profiles))
    ensures NoneGranted(e, w) <==>
            && (Asks(e, w, Events) || Asks(e, w, Transactions) || Asks(e, w, Profiles))
            && Granted(e, w, Events) == 0 && Granted(e, w, Transactions) == 0 && Granted(e, w, Profiles) == 0
    ensures Rejected(e, w) <==>
            AllFull(e, w) || (NoneGranted(e, w) && (Full(e, w, Events) || Full(e, w, Transactions) || Full(e, w, Profiles)))
  {
    assert forall c: Class :: Present(e, c) ==> c.Events? || c.Transactions? || c.Profiles?;
    assert forall c: Class :: Asks(e, w, c) ==> c.Events? || c.Transactions? || c.Profiles?;
    assert forall c: Class :: Granted(e, w, c) > 0 ==> c.Events? || c.Transactions? || c.Profiles?;
  }

  class Handler {
    const events: Meter
    const txs: Meter
    const profiles: Meter

    constructor ()
      ensures Distinct() && fresh(events) && fresh(txs) && fresh(profiles)
    {
      events := new Meter();
      txs := new Meter();
      profiles := new Meter();
    }

    predicate Distinct() {
      events != txs && txs != profiles && events != profiles
    }

    /** The quotas are asked, the shares they refuse are counted as dropped, unless the
        answer is 503 at once. */
    method Charge(e: Envelope, w: World) returns (answer: Option<Status>, g: nat, t: nat, p: nat)
      requires Distinct() && Wellformed(e, w)
      modifies events, txs, profiles
      ensures Rejected(e, w) ==> answer == Some(Overloaded(First(Full(e, w, Events), Full(e, w, Transactions))))
      ensures Rejected(e, w) ==> unchanged(txs) && unchanged(profiles) && unchanged(events`charge, events`queue)
      ensures Rejected(e, w) ==> events.drops == old(events.drops) + e.overLimit
      ensures !Rejected(e, w) ==> answer == None
      ensures !Rejected(e, w) ==> g == Granted(e, w, Events) && t == Granted(e, w, Transactions) && p == Granted(e, w, Profiles)
      ensures !Rejected(e, w) ==>
                && events.charge == old(events.charge) + (if w.eventQuota.Granting? then g else 0)
                && txs.charge == old(txs.charge) + (if w.txQuota.Granting? then t else 0)
                && profiles.charge == old(profiles.charge) + (if w.profQuota.Granting? then p else 0)
      ensures !Rejected(e, w) ==>
                && events.drops == old(events.drops) + e.overLimit + |e.events| - g
                && txs.drops == old(txs.drops) + |e.txs| - t && profiles.drops == old(profiles.drops)
      ensures unchanged(events`queue, txs`queue, profiles`queue)
    {
      Decision(e, w);
      hide AllFull, NoneGranted, Rejected;
      g, t, p := 0, 0, 0;
      events.CountDrop(e.overLimit);
      var hasEvents, hasTx, hasProfiles := |e.events| > 0, |e.txs| > 0, |e.profiles| > 0;
      var profSat := if w.profilesOn then w.profLoad else 0.0;
      var eventOver, txOver, profOver := hasEvents && w.eventLoad >= THRESHOLD, hasTx && w.txLoad >= THRESHOLD,
                                         hasProfiles && profSat >= THRESHOLD;
      if (hasEvents || hasTx || hasProfiles) && (!hasEvents || eventOver) && (!hasTx || txOver) && (!hasProfiles || profOver) {
        answer := Some(Overloaded(First(hasEvents, hasTx)));
        return;
      }
      var eventAsks, txAsks, profAsks := hasEvents && !eventOver, hasTx && !txOver, hasProfiles && w.profilesOn && !profOver;
      if eventAsks {
        g := events.GrantFrom(w.eventQuota, |e.events|);
      }
      if txAsks {
        t := txs.GrantFrom(w.txQuota, |e.txs|);
      }
      if profAsks {
        p := profiles.GrantFrom(w.profQuota, |e.profiles|);
      }
      if (eventAsks || txAsks || profAsks) && g == 0 && t == 0 && p == 0 && (eventOver || txOver || profOver) {
        answer := Some(Overloaded(First(eventOver, txOver)));
        return;
      }
      events.CountDrop(|e.events| - g);
      txs.CountDrop(|e.txs| - t);
      answer := None;
    }

    method TakeProfiles(e: Envelope, w: World, p: nat)
      requires Wellformed(e, w) && p == Granted(e, w, Profiles)
      modifies profiles
      ensures profiles.queue == old(profiles.queue) + TallyOf(e, w, Profiles).stored
      ensures profiles.drops == old(profiles.drops) + TallyOf(e, w, Profiles).dropped
      ensures profiles.charge == old(profiles.charge)
    {
      if |e.profiles| > 0 && w.profilesOn {
        if w.profLoad >= THRESHOLD {
          profiles.CountDrop(|e.profiles|);
        } else {
          profiles.CountDrop(|e.profiles| - p);
          profiles.AddProfiles(e.profiles[..p]);
        }
      } else if |e.profiles| > 0 {
        profiles.CountDrop(|e.profiles|);
      }
    }

    /** The granted events and transactions go to the queue; what it refuses is refunded. */
    method Enqueue(e: Envelope, w: World, g: nat, t: nat) returns (s: Status)
      requires Distinct() && Wellformed(e, w) && g == Granted(e, w, Events) && t == Granted(e, w, Transactions)
      modifies events`queue, events`charge, txs`queue, txs`charge
      ensures var ev, tx := TallyOf(e, w, Events), TallyOf(e, w, Transactions);
              && events.queue == old(events.queue) + ev.stored && txs.queue == old(txs.queue) + tx.stored
              && events.charge == old(events.charge) - (if w.eventQuota.Granting? then ev.refused else 0)
              && txs.charge == old(txs.charge) - (if w.txQuota.Granting? then tx.refused else 0)
              && s == if ev.stored == [] && tx.stored == [] && ev.refused + tx.refused > 0
                      then Overloaded(if ev.refused > 0 then Events else Transactions) else Accepted
    {
      var eventsEnqueued, eventsRefused := events.EnqueueEvents(e.events[..g]);
      var txEnqueued, txRefused := txs.EnqueueTransactions(e.txs[..t]);
      events.Refund(w.eventQuota, eventsRefused);
      txs.Refund(w.txQuota, txRefused);
      if eventsEnqueued == 0 && txEnqueued == 0 && (eventsRefused > 0 || txRefused > 0) {
        s := Overloaded(if eventsRefused > 0 then Events else Transactions);
        return;
      }
      s := Accepted;
    }

    /** Each meter moves by its tally. Beyond that: any answer but 200 leaves both queues
        as they were; no item is lost sight of unless the envelope is turned away at the
        door; and the quota is charged for what entered the queue and for the malformed. */
    method Accept(e: Envelope, w: World) returns (s: Status)
      requires Distinct() && Wellformed(e, w)
      modifies events, txs, profiles
      ensures s == Answer(e, w)
      ensures events.queue == old(events.queue) + Done(e, w, Events).stored
           && events.charge == old(events.charge) + Done(e, w, Events).charged
           && events.drops == old(events.drops) + Done(e, w, Events).dropped
      ensures txs.queue == old(txs.queue) + Done(e, w, Transactions).stored
           && txs.charge == old(txs.charge) + Done(e, w, Transactions).charged
           && txs.drops == old(txs.drops) + Done(e, w, Transactions).dropped
      ensures profiles.queue == old(profiles.queue) + Done(e, w, Profiles).stored
           && profiles.charge == old(profiles.charge) + Done(e, w, Profiles).charged
           && profiles.drops == old(profiles.drops) + Done(e, w, Profiles).dropped
      ensures !s.Accepted? ==> events.queue == old(events.queue) && txs.queue == old(txs.queue)
      ensures s.QuotaExceeded? ==> profiles.queue == old(profiles.queue)
      ensures events.charge - old(events.charge) ==
              if w.eventQuota.Granting?
              then |events.queue| - old(|events.queue|) + |With(Events, Share(e, w, Events), Malformed)| else 0
      ensures txs.charge - old(txs.charge) == if w.txQuota.Granting? then |txs.queue| - old(|txs.queue|) else 0
      ensures !Rejected(e, w) ==>
                |events.queue| - old(|events.queue|) + events.drops - old(events.drops)
                + |With(Events, Share(e, w, Events), Malformed)| + |With(Events, Share(e, w, Events), Refused)|
                == |e.events| + e.overLimit
      ensures !Rejected(e, w) ==>
                |txs.queue| - old(|txs.queue|) + txs.drops - old(txs.drops)
                + |With(Transactions, Share(e, w, Transactions), Refused)| == |e.txs|
      ensures !Rejected(e, w) ==>
                |profiles.queue| - old(|profiles.queue|) + profiles.drops - old(profiles.drops)
                + |With(Profiles, Share(e, w, Profiles), Malformed)| == |e.profiles|
    {
      hide Done, Answer, With, Share, Granted, Rejected;
      ItemsAreAccounted(e, w, Events);
      ItemsAreAccounted(e, w, Transactions);
      ItemsAreAccounted(e, w, Profiles);
      if !Answer(e, w).Accepted? { RefusalQueuesNothing(e, w); }
      s := Serve(e, w);
    }

    /** The three steps of the request. */
    method Serve(e: Envelope, w: World) returns (s: Status)
      requires Distinct() && Wellformed(e, w)
      modifies events, txs, profiles
      ensures s == Answer(e, w)
      ensures events.queue == old(events.queue) + Done(e, w, Events).stored
           && events.charge == old(events.charge) + Done(e, w, Events).charged
           && events.drops == old(events.drops) + Done(e, w, Events).dropped
      ensures txs.queue == old(txs.queue) + Done(e, w, Transactions).stored
           && txs.charge == old(txs.charge) + Done(e, w, Transactions).charged
           && txs.drops == old(txs.drops) + Done(e, w, Transactions).dropped
      ensures profiles.queue == old(profiles.queue) + Done(e, w, Profiles).stored
           && profiles.charge == old(profiles.charge) + Done(e, w, Profiles).charged
           && profiles.drops == old(profiles.drops) + Done(e, w, Profiles).dropped
    {
      hide Rejected, NoneGranted, AllFull;
      var answer, g, t, p := Charge(e, w);
      if answer.Some? {
        return answer.value;
      }
      Decision(e, w);
      TakeProfiles(e, w, p);
      var eventAsks, txAsks := Asks(e, w, Events), Asks(e, w, Transactions);
      if (eventAsks || txAsks || Asks(e, w, Profiles)) && g == 0 && t == 0 && p == 0 {
        return QuotaExceeded(First(eventAsks, txAsks));
      }
      s := Enqueue(e, w, g, t);
    }
  }

  // ----- what the outcome means -----

  /** The fates split the items: none is lost, none counted twice. */
  lemma {:induction false} Parts(c: Class, items: seq<Item>)
    ensures |With(c, items, Stored)| + |With(c, items, Malformed)| + |With(c, items, Refused)| == |items|
    ensures multiset(With(c, items, Stored)) + multiset(With(c, items, Malformed)) + multiset(With(c, items, Refused))
         == multiset(Ids(items))
    ensures c.Transactions? ==> With(c, items, Malformed) == []
  {
    hide With, Ids, FateOf;
    if items == [] {
      NoItems(c);
    } else {
      var front, last := items[..|items| - 1], items[|items| - 1];
      Parts(c, front);
      OneMore(c, items, Stored);
      OneMore(c, items, Malformed);
      OneMore(c, items, Refused);
      var f := FateOf(c, last);
      assert f == Stored || f == Malformed || f == Refused;
      if c.Transactions? { NeverMalformed(last); }
    }
  }

  lemma NeverMalformed(i: Item)
    ensures FateOf(Transactions, i) != Malformed
  {
  }

  lemma OneMore(c: Class, items: seq<Item>, f: Fate)
    requires items != []
    ensures var front, last, add := With(c, items[..|items| - 1], f), items[|items| - 1], |With(c, items, f)|;
            if FateOf(c, last) == f then multiset(With(c, items, f)) == multiset(front) + multiset{last.id} && add == |front| + 1
            else With(c, items, f) == front
    ensures multiset(Ids(items)) == multiset(Ids(items[..|items| - 1])) + multiset{items[|items| - 1].id}
  {
  }

  lemma {:induction false} PrefixIds(items: seq<Item>, n: nat)
    requires n <= |items|
    ensures multiset(Ids(items[..n])) <= multiset(Ids(items))
  {
    if n < |items| {
      var butLast := items[..|items| - 1];
      PrefixIds(butLast, n);
      assert butLast[..n] == items[..n];
    } else {
      assert items[..n] == items;
    }
  }

  /** Nothing is lost sight of: past the early refusal every item is stored, malformed,
      refused for want of room or counted as dropped, the stored ones are the envelope's
      own, and the quota has charged for those stored and the malformed, of profiles for
      all it granted. */
  lemma ItemsAreAccounted(e: Envelope, w: World, c: Class)
    requires Wellformed(e, w)
    ensures var d := Done(e, w, c);
            && multiset(d.stored) <= multiset(Ids(Items(e, c)))
            && (!Rejected(e, w) ==>
                  |d.stored| + d.malformed + d.dropped + (if c.Profiles? then 0 else d.refused)
                  == |Items(e, c)| + if c.Events? then e.overLimit else 0)
            && d.charged == (if !QuotaOf(w, c).Granting? then 0
                             else |d.stored| + d.malformed + if c.Profiles? then d.refused else 0)
            && d.malformed == |With(c, Share(e, w, c), Malformed)| && d.refused == |With(c, Share(e, w, c), Refused)|
            && (c.Transactions? ==> d.malformed == 0)
  {
    hide Rejected, Granted, Asks, Full, With, Ids, QuotaOf;
    Parts(c, Share(e, w, c));
    PrefixIds(Items(e, c), Granted(e, w, c));
    if Rejected(e, w) { RejectedGrantsNothing(e, w, c); }
  }

  lemma RejectedGrantsNothing(e: Envelope, w: World, c: Class)
    requires Wellformed(e, w) && Rejected(e, w)
    ensures Granted(e, w, c) == 0 && Share(e, w, c) == []
  {
    Decision(e, w);
    assert AllFull(e, w) || Granted(e, w, c) == 0;
  }

  /** Any answer but 200 means no event and no transaction of the envelope was queued; a
      quota refusal stored no profile either. */
  lemma RefusalQueuesNothing(e: Envelope, w: World)
    requires Wellformed(e, w) && !Answer(e, w).Accepted?
    ensures Done(e, w, Events).stored == [] && Done(e, w, Transactions).stored == []
    ensures Answer(e, w).QuotaExceeded? ==> Done(e, w, Profiles).stored == []
  {
  }

  /** A refusal names a class with that very trouble, events before transactions before profiles:
      a full buffer at the door, a quota that was asked, items the queue turned down. */
  lemma RefusalNamesTheFirst(e: Envelope, w: World)
    requires Wellformed(e, w) && !Answer(e, w).Accepted?
    ensures var c := Answer(e, w).of;
            && Present(e, c)
            && (Rejected(e, w) ==>
                  && Full(e, w, c) && (!c.Events? ==> !Full(e, w, Events)) && (c.Profiles? ==> !Full(e, w, Transactions)))
            && (Answer(e, w).QuotaExceeded? ==>
                  && Asks(e, w, c) && (!c.Events? ==> !Asks(e, w, Events)) && (c.Profiles? ==> !Asks(e, w, Transactions)))
            && (!Rejected(e, w) && Answer(e, w).Overloaded? ==>
                  With(c, Share(e, w, c), Refused) != [] && (!c.Events? ==> With(Events, Share(e, w, Events), Refused) == []))
  {
    Decision(e, w);
    hide AllFull, NoneGranted, Rejected;
    assert With(Events, [], Refused) == [] && With(Transactions, [], Refused) == [];
  }

  /** What 200 leaves open: nothing at all was stored exactly when no granted event
      parsed, no transaction was granted and no granted profile could be read. So a 200
      never covers up that the queue refused everything. */
  lemma NothingKeptUnder200(e: Envelope, w: World)
    requires Wellformed(e, w)
    ensures && Answer(e, w).Accepted? && Done(e, w, Events).stored == []
            && Done(e, w, Transactions).stored == [] && Done(e, w, Profiles).stored == []
            <==>
            && !Rejected(e, w) && !NoneGranted(e, w)
            && |With(Events, Share(e, w, Events), Malformed)| == Granted(e, w, Events)
            && Granted(e, w, Transactions) == 0 && With(Profiles, Share(e, w, Profiles), Stored) == []
  {
    Decision(e, w);
    hide Rejected, NoneGranted, AllFull, With, Granted, Ids;
    Parts(Events, Share(e, w, Events));
    Parts(Transactions, Share(e, w, Transactions));
  }

  /** Profiles went in, and then the queue refused all events and transactions granted. */
  predicate StaysBehind(e: Envelope, w: World)
    requires Wellformed(e, w)
  {
    && With(Profiles, Share(e, w, Profiles), Stored) != []
    && With(Events, Share(e, w, Events), Stored) == [] && With(Transactions, Share(e, w, Transactions), Stored) == []
    && |With(Events, Share(e, w, Events), Malformed)| < Granted(e, w, Events) + Granted(e, w, Transactions)
  }

  /** The promise that a refusal leaves nothing behind does not hold of profiles. */
  lemma ProfilesStayBehind(e: Envelope, w: World)
    requires Wellformed(e, w)
    ensures !Answer(e, w).Accepted? && Done(e, w, Profiles).stored != [] <==> StaysBehind(e, w)
  {
    Decision(e, w);
    hide Rejected, NoneGranted, AllFull;
    Parts(Events, Share(e, w, Events));
    Parts(Transactions, Share(e, w, Transactions));
    if Granted(e, w, Profiles) == 0 { assert With(Profiles, Share(e, w, Profiles), Stored) == []; }
  }

  // ----- one envelope, sent until it is accepted -----

  /** One delivery attempt and the world it met. */
  datatype Attempt = Attempt(e: Envelope, w: World)

  predicate SameItems(a: seq<Item>, b: seq<Item>) {
    |a| == |b| && forall k :: 0 <= k < |a| ==> a[k].id == b[k].id && a[k].parses == b[k].parses
  }

  /** e is what was sent, met by other room and perhaps another sampling rate. */
  predicate Resent(sent: Envelope, e: Envelope) {
    && SameItems(sent.events, e.events) && SameItems(sent.profiles, e.profiles)
    && multiset(Ids(e.txs)) <= multiset(Ids(sent.txs)) && e.overLimit == sent.overLimit
  }

  ghost predicate Sound(sent: Envelope, a: Attempt) {
    Wellformed(a.e, a.w) && Resent(sent, a.e)
  }

  /** The sender repeats the envelope after every answer but 200. */
  ghost predicate Delivery(sent: Envelope, attempts: seq<Attempt>) {
    && |attempts| > 0 && (forall i :: 0 <= i < |attempts| ==> Sound(sent, attempts[i]))
    && forall i :: 0 <= i < |attempts| - 1 ==> !Answer(attempts[i].e, attempts[i].w).Accepted?
  }

  ghost function At(sent: Envelope, attempts: seq<Attempt>, i: nat, c: Class): Tally
    requires Delivery(sent, attempts) && i < |attempts|
  {
    assert Sound(sent, attempts[i]);
    Done(attempts[i].e, attempts[i].w, c)
  }

  ghost predicate Behind(sent: Envelope, attempts: seq<Attempt>, i: nat)
    requires Delivery(sent, attempts) && i < |attempts|
  {
    assert Sound(sent, attempts[i]);
    StaysBehind(attempts[i].e, attempts[i].w)
  }

  ghost predicate StoredAt(sent: Envelope, attempts: seq<Attempt>, i: nat, profile: int)
    requires Delivery(sent, attempts) && i < |attempts|
  {
    profile in At(sent, attempts, i, Profiles).stored
  }

  /** What the first n attempts stored, in order. */
  ghost function Queue(sent: Envelope, attempts: seq<Attempt>, n: nat, c: Class): seq<int>
    requires Delivery(sent, attempts) && n <= |attempts|
  {
    if n == 0 then [] else Queue(sent, attempts, n - 1, c) + At(sent, attempts, n - 1, c).stored
  }

  ghost function Charges(sent: Envelope, attempts: seq<Attempt>, n: nat, c: Class): int
    requires Delivery(sent, attempts) && n <= |attempts|
  {
    if n == 0 then 0 else Charges(sent, attempts, n - 1, c) + At(sent, attempts, n - 1, c).charged
  }

  /** The malformed events that met a working quota checker. */
  ghost function Spoiled(sent: Envelope, attempts: seq<Attempt>, n: nat): nat
    requires Delivery(sent, attempts) && n <= |attempts|
  {
    if n == 0 then 0
    else
      assert Sound(sent, attempts[n - 1]);
      Spoiled(sent, attempts, n - 1)
      + if attempts[n - 1].w.eventQuota.Granting? then |With(Events, Share(attempts[n - 1].e, attempts[n - 1].w, Events), Malformed)|
        else 0
  }

  lemma SameIds(a: seq<Item>, b: seq<Item>)
    requires SameItems(a, b)
    ensures Ids(a) == Ids(b)
  {
    if a != [] { SameIds(a[..|a| - 1], b[..|b| - 1]); }
  }

  lemma {:induction false} RefusedAttempts(sent: Envelope, attempts: seq<Attempt>, n: nat)
    requires Delivery(sent, attempts) && n < |attempts|
    ensures Queue(sent, attempts, n, Events) == [] && Queue(sent, attempts, n, Transactions) == []
    ensures Charges(sent, attempts, n, Transactions) == 0
    ensures Charges(sent, attempts, n, Events) == Spoiled(sent, attempts, n)
  {
    hide Done, Answer, Share, With, Granted, Wellformed, Resent, Ids;
    if n > 0 {
      RefusedAttempts(sent, attempts, n - 1);
      var a := attempts[n - 1];
      assert Sound(sent, a);
      RefusalQueuesNothing(a.e, a.w);
      ItemsAreAccounted(a.e, a.w, Events);
      ItemsAreAccounted(a.e, a.w, Transactions);
    }
  }

  lemma StoredIsSent(sent: Envelope, a: Attempt, c: Class)
    requires Sound(sent, a)
    ensures multiset(Done(a.e, a.w, c).stored) <= multiset(Ids(Items(sent, c)))
  {
    hide Done, Share, With, Granted, Wellformed, Ids, Rejected;
    ItemsAreAccounted(a.e, a.w, c);
    SameIds(sent.events, a.e.events);
    SameIds(sent.profiles, a.e.profiles);
  }

  /** However often one envelope is sent until it is accepted: all its events and
      transactions that are queued are queued by the last attempt, each at most as often
      as the envelope holds it; and the quota's count over all attempts is what was queued,
      plus the malformed events each attempt was charged for. */
  lemma RetryDoublesNothing(sent: Envelope, attempts: seq<Attempt>)
    requires Delivery(sent, attempts)
    ensures var n := |attempts|;
            && (forall i: nat, c: Class :: i < n && !c.Profiles? && At(sent, attempts, i, c).stored != [] ==> i == n - 1)
            && (forall c: Class :: !c.Profiles? ==>
                  multiset(Queue(sent, attempts, n, c)) <= multiset(Ids(Items(sent, c))))
            && Charges(sent, attempts, n, Transactions) ==
               (if attempts[n - 1].w.txQuota.Granting? then |Queue(sent, attempts, n, Transactions)| else 0)
            && Charges(sent, attempts, n, Events) == Spoiled(sent, attempts, n) +
               if attempts[n - 1].w.eventQuota.Granting? then |Queue(sent, attempts, n, Events)| else 0
  {
    hide Done, Answer, Share, With, Granted, Wellformed, Resent, Ids;
    var n := |attempts|;
    var last := attempts[n - 1];
    assert Sound(sent, last);
    RefusedAttempts(sent, attempts, n - 1);
    forall i: nat, c: Class | i < n && !c.Profiles? && At(sent, attempts, i, c).stored != [] ensures i == n - 1 {
      assert Sound(sent, attempts[i]);
      if i < n - 1 { RefusalQueuesNothing(attempts[i].e, attempts[i].w); }
    }
    ItemsAreAccounted(last.e, last.w, Events);
    ItemsAreAccounted(last.e, last.w, Transactions);
    StoredIsSent(sent, last, Events);
    StoredIsSent(sent, last, Transactions);
  }

  lemma {:induction false} QueueOfRefused(sent: Envelope, attempts: seq<Attempt>, n: nat)
    requires Delivery(sent, attempts) && n < |attempts|
    ensures Queue(sent, attempts, n, Profiles) == [] <==> forall i :: 0 <= i < n ==> !Behind(sent, attempts, i)
  {
    hide Done, Answer, Share, With, Granted, Wellformed, Resent, Ids, StaysBehind;
    if n > 0 {
      QueueOfRefused(sent, attempts, n - 1);
      assert Sound(sent, attempts[n - 1]);
      ProfilesStayBehind(attempts[n - 1].e, attempts[n - 1].w);
      assert Behind(sent, attempts, n - 1) <==> At(sent, attempts, n - 1, Profiles).stored != [];
      if forall i :: 0 <= i < n - 1 ==> !Behind(sent, attempts, i) {
        assert (forall i :: 0 <= i < n ==> !Behind(sent, attempts, i)) <==> !Behind(sent, attempts, n - 1);
      }
    }
  }

  /** Profiles are stored by the last attempt alone exactly when no earlier one left them
      behind; and a profile stored by two attempts was left behind by the first of them. */
  lemma ProfilesAreDoubledExactly(sent: Envelope, attempts: seq<Attempt>)
    requires Delivery(sent, attempts)
    ensures var n := |attempts|;
            && (Queue(sent, attempts, n, Profiles) == At(sent, attempts, n - 1, Profiles).stored
                <==> forall i :: 0 <= i < n - 1 ==> !Behind(sent, attempts, i))
            && (forall i, j, x :: 0 <= i < j < n && StoredAt(sent, attempts, i, x) && StoredAt(sent, attempts, j, x)
                  ==> Behind(sent, attempts, i))
            && ((forall i :: 0 <= i < n - 1 ==> !Behind(sent, attempts, i)) ==>
                  multiset(Queue(sent, attempts, n, Profiles)) <= multiset(Ids(sent.profiles)))
  {
    hide Done, Answer, Share, With, Granted, Wellformed, Resent, Ids, StaysBehind;
    var n := |attempts|;
    var before, last := Queue(sent, attempts, n - 1, Profiles), At(sent, attempts, n - 1, Profiles).stored;
    QueueOfRefused(sent, attempts, n - 1);
    assert Sound(sent, attempts[n - 1]);
    StoredIsSent(sent, attempts[n - 1], Profiles);
    assert |before + last| == |before| + |last|;
    forall i, j, x | 0 <= i < j < n && StoredAt(sent, attempts, i, x) && StoredAt(sent, attempts, j, x)
      ensures Behind(sent, attempts, i)
    {
      assert Sound(sent, attempts[i]);
      ProfilesStayBehind(attempts[i].e, attempts[i].w);
    }
  }

  /** Two attempts at such an envelope: one event, refused by the full queue and then
      taken, and one profile, which ends up stored and charged twice. */
  lemma ProfileStoredTwice() returns (sent: Envelope, attempts: seq<Attempt>)
    ensures Delivery(sent, attempts) && |attempts| == 2 && Answer(attempts[1].e, attempts[1].w).Accepted?
    ensures Queue(sent, attempts, 2, Events) == [1] && Queue(sent, attempts, 2, Profiles) == [7, 7]
    ensures Charges(sent, attempts, 2, Profiles) == 2
  {
    hide Answer, Done;
    var w := World(0.5, 0.5, 0.0, true, Granting(1), Granting(0), Granting(1));
    var full, free := OneOfEach(false), OneOfEach(true);
    sent, attempts := free, [Attempt(full, w), Attempt(free, w)];
    OneEventOneProfile(w, false);
    OneEventOneProfile(w, true);
    assert Sound(sent, attempts[0]) && Sound(sent, attempts[1]);
    SecondAttempt(sent, attempts);
  }

  lemma SecondAttempt(sent: Envelope, attempts: seq<Attempt>)
    requires Delivery(sent, attempts) && |attempts| == 2
    requires forall i :: 0 <= i < 2 ==> At(sent, attempts, i, Profiles).stored == [7]
    requires forall i :: 0 <= i < 2 ==> At(sent, attempts, i, Profiles).charged == 1
    requires At(sent, attempts, 0, Events).stored == [] && At(sent, attempts, 1, Events).stored == [1]
    ensures Queue(sent, attempts, 2, Events) == [1] && Queue(sent, attempts, 2, Profiles) == [7, 7]
    ensures Charges(sent, attempts, 2, Profiles) == 2
  {
    hide At, Delivery;
    assert Queue(sent, attempts, 0, Profiles) == [] && Queue(sent, attempts, 0, Events) == [];
    assert Queue(sent, attempts, 1, Profiles) == [7] && Charges(sent, attempts, 1, Profiles) == 1;
    assert Queue(sent, attempts, 1, Events) == [];
  }

  function OneOfEach(room: bool): Envelope {
    Envelope([Item(1, true, room)], [], [Item(7, true, true)], 0)
  }

  lemma OneEventOneProfile(w: World, room: bool)
    requires w == World(0.5, 0.5, 0.0, true, Granting(1), Granting(0), Granting(1))
    ensures var e := OneOfEach(room);
            && Wellformed(e, w) && Done(e, w, Events).stored == (if room then [1] else [])
            && Done(e, w, Profiles).stored == [7] && Done(e, w, Profiles).charged == 1
            && Answer(e, w) == if room then Accepted else Overloaded(Events)
  {
    var e := OneOfEach(room);
    Decision(e, w);
    Single(Events, e.events[0]);
    Single(Profiles, e.profiles[0]);
    hide Rejected, NoneGranted, AllFull, With;
    assert Share(e, w, Events) == e.events && Share(e, w, Profiles) == e.profiles && Share(e, w, Transactions) == [];
    assert forall f :: With(Transactions, [], f) == [] by { NoItems(Transactions); }
  }

  lemma NoItems(c: Class)
    ensures Ids([]) == [] && forall f :: With(c, [], f) == []
  {
  }

  lemma Single(c: Class, i: Item)
    ensures forall f :: With(c, [i], f) == if FateOf(c, i) == f then [i.id] else []
  {
    assert [i][..0] == [];
  }
}
