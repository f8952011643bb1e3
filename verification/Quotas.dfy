/** The monthly quota of an organisation: one counter per month, charged for what is
    granted, and a short memory of organisations found exhausted. */
module Quotas {
  import opened Wrappers

  const MAX_ENTRIES := 10000
  const EXHAUSTED_FOR := 5

  type Month = (int, int)

  function At(used: map<Month, nat>, m: Month): nat {
    if m in used then used[m] else 0
  }

  /** What the statement grants of want; a quota that is not positive limits nothing. */
  function Grantable(used: nat, quota: int, want: nat): (n: nat)
    ensures n <= want && (quota > 0 ==> used + n <= quota || n == 0)
    ensures n == want || (quota > 0 && (used + n == quota || used >= quota))
  {
    if quota <= 0 || used + want <= quota then want
    else if used < quota then quota - used
    else 0
  }

  // ----- runs on one counter -----

  datatype Op = Take(want: nat) | GiveBack(n: nat)

  function After(used: nat, quota: int, op: Op): nat {
    match op
    case Take(want) => used + Grantable(used, quota, want)
    case GiveBack(n) => if used >= n then used - n else 0
  }

  function Run(used: nat, quota: int, ops: seq<Op>): nat {
    if ops == [] then used else After(Run(used, quota, ops[..|ops| - 1]), quota, ops[|ops| - 1])
  }

  function GrantedIn(used: nat, quota: int, ops: seq<Op>): nat {
    if ops == [] then 0
    else
      var earlier, op := ops[..|ops| - 1], ops[|ops| - 1];
      GrantedIn(used, quota, earlier) + if op.Take? then Grantable(Run(used, quota, earlier), quota, op.want) else 0
  }

  function ReturnedIn(ops: seq<Op>): nat {
    if ops == [] then 0 else ReturnedIn(ops[..|ops| - 1]) + if ops[|ops| - 1].GiveBack? then ops[|ops| - 1].n else 0
  }

  /** However charges and refunds follow each other, a positive quota is never passed. */
  lemma {:induction false} NeverOverQuota(used: nat, quota: int, ops: seq<Op>)
    requires quota > 0 && used <= quota
    ensures Run(used, quota, ops) <= quota
  {
    if ops != [] { NeverOverQuota(used, quota, ops[..|ops| - 1]); }
  }

  function WantedIn(ops: seq<Op>): nat {
    if ops == [] then 0 else WantedIn(ops[..|ops| - 1]) + if ops[|ops| - 1].Take? then ops[|ops| - 1].want else 0
  }

  /** Nor is anything withheld: until something is given back, what is granted in all is
      what was wanted in all, as far as the quota goes. */
  lemma {:induction false} GrantsUpToTheQuota(used: nat, quota: int, ops: seq<Op>)
    requires (forall i :: 0 <= i < |ops| ==> ops[i].Take?) && (quota <= 0 || used <= quota)
    ensures Run(used, quota, ops) == used + GrantedIn(used, quota, ops)
    ensures GrantedIn(used, quota, ops) ==
            if quota <= 0 || used + WantedIn(ops) <= quota then WantedIn(ops) else quota - used
  {
    if ops != [] { GrantsUpToTheQuota(used, quota, ops[..|ops| - 1]); }
  }

  /** While no more is given back than was granted, the counter is exactly the difference. */
  lemma {:induction false} CounterIsTheDifference(used: nat, quota: int, ops: seq<Op>)
    requires forall k :: 0 <= k <= |ops| ==> ReturnedIn(ops[..k]) <= GrantedIn(used, quota, ops[..k])
    ensures Run(used, quota, ops) == used + GrantedIn(used, quota, ops) - ReturnedIn(ops)
  {
    if ops != [] {
      var earlier := ops[..|ops| - 1];
      forall k | 0 <= k <= |earlier| ensures ReturnedIn(earlier[..k]) <= GrantedIn(used, quota, earlier[..k]) {
        assert earlier[..k] == ops[..k];
      }
      CounterIsTheDifference(used, quota, earlier);
      assert ops[..|ops|] == ops;
    }
  }

  // ----- the checker with its memory -----

  class OrgQuota {
    var used: map<Month, nat>
    /** Until when an organisation is taken for exhausted. */
    var exhausted: map<int, int>
    /** When a check last granted an organisation less than it asked for. */
    ghost var shortAt: map<int, int>

    ghost predicate Valid()
      reads this
    {
      |exhausted| <= MAX_ENTRIES
      && forall o :: o in exhausted ==> o in shortAt && exhausted[o] == shortAt[o] + EXHAUSTED_FOR
    }

    constructor ()
      ensures Valid() && used == map[] && exhausted == map[]
    {
      used, exhausted, shortAt := map[], map[], map[];
    }

    method Forget(o: int)
      requires Valid() && o in exhausted
      modifies this`exhausted
      ensures Valid() && exhausted == old(exhausted) - {o} && |exhausted| == |old(exhausted)| - 1
    {
      assert (exhausted - {o}).Keys == exhausted.Keys - {o};
      exhausted := exhausted - {o};
    }

    method DropExpired(now: int)
      requires Valid()
      modifies this`exhausted
      ensures Valid() && forall o :: o in exhausted <==> o in old(exhausted) && old(exhausted)[o] > now
      ensures forall o :: o in exhausted ==> exhausted[o] == old(exhausted)[o]
    {
      var left := exhausted.Keys;
      while left != {}
        invariant Valid() && left <= exhausted.Keys
        invariant forall o :: o in exhausted ==> o in old(exhausted) && exhausted[o] == old(exhausted)[o]
        invariant forall o :: o in old(exhausted) ==> (o in exhausted <==> o in left || old(exhausted)[o] > now)
        decreases |left|
      {
        assert (forall x: int :: x !in left) ==> left == {};
        var o: int :| o in left;
        left := left - {o};
        if exhausted[o] <= now {
          Forget(o);
        }
      }
    }

    /** The expired go first, then a tenth of the rest, any. */
    method EvictExhausted(now: int)
      requires Valid()
      modifies this`exhausted
      ensures Valid() && |exhausted| < MAX_ENTRIES
      ensures forall o :: o in exhausted ==> o in old(exhausted) && exhausted[o] == old(exhausted)[o]
      ensures var live := set o | o in old(exhausted) && old(exhausted)[o] > now;
              if |live| < MAX_ENTRIES then exhausted.Keys == live
              else exhausted.Keys <= live && |exhausted| == |live| - if |live| / 10 == 0 then 1 else |live| / 10
    {
      ghost var live := set o | o in exhausted && exhausted[o] > now;
      DropExpired(now);
      forall o ensures o in exhausted.Keys <==> o in live {}
      assert exhausted.Keys == live && |exhausted.Keys| == |exhausted|;
      if |exhausted| < MAX_ENTRIES {
        return;
      }
      var drop := |exhausted| / 10;
      if drop == 0 {
        drop := 1;
      }
      ghost var all := drop;
      while drop > 0
        invariant Valid() && 0 <= drop <= all && |exhausted| == |live| - all + drop && exhausted.Keys <= live
        invariant forall o :: o in exhausted ==> o in old(exhausted) && exhausted[o] == old(exhausted)[o]
      {
        assert |exhausted.Keys| == |exhausted| && ((forall x: int :: x !in exhausted.Keys) ==> exhausted.Keys == {});
        var o: int :| o in exhausted.Keys;
        Forget(o);
        drop := drop - 1;
      }
    }

    method RecentlyExhausted(o: int, now: int) returns (yes: bool)
      requires Valid()
      modifies this`exhausted
      ensures Valid() && (yes <==> o in old(exhausted) && now < old(exhausted)[o])
      ensures yes ==> o in shortAt && now < shortAt[o] + 5
      ensures exhausted == if o in old(exhausted) && !yes then old(exhausted) - {o} else old(exhausted)
    {
      if o !in exhausted {
        return false;
      }
      if exhausted[o] <= now {
        Forget(o);
        return false;
      }
      yes := true;
    }

    method MarkExhausted(o: int, now: int)
      requires Valid()
      modifies this`exhausted, this`shortAt
      ensures Valid() && o in exhausted && exhausted[o] == now + 5 && shortAt == old(shortAt)[o := now]
      ensures forall p :: p in exhausted && p != o ==> p in old(exhausted) && exhausted[p] == old(exhausted)[p]
      ensures |old(exhausted)| < MAX_ENTRIES ==> exhausted == old(exhausted)[o := now + EXHAUSTED_FOR]
    {
      if |exhausted| >= MAX_ENTRIES {
        EvictExhausted(now);
      }
      assert exhausted[o := now + EXHAUSTED_FOR].Keys == exhausted.Keys + {o};
      exhausted := exhausted[o := now + EXHAUSTED_FOR];
      shortAt := shortAt[o := now];
    }

    /** quota is the organisation's limit, none if it cannot be looked up; stored is false
        when the counting statement fails. None is an error of the check. */
    method CheckAndCount(o: int, want: int, now: int, month: int, quota: Option<int>, stored: bool) returns (granted: Option<nat>)
      requires Valid()
      modifies this
      ensures Valid()
      ensures granted.Some? ==> granted.value <= want || granted.value == 0
      ensures var key := (o, month);
              && (forall k :: k != key ==> At(used, k) == At(old(used), k))
              && At(used, key) == At(old(used), key) + (if granted.Some? then granted.value else 0)
      ensures want > 0 && (o !in old(exhausted) || old(exhausted)[o] <= now) ==>
                granted == if quota.Some? && stored then Some(Grantable(At(old(used), (o, month)), quota.value, want)) else None
      ensures want > 0 && (o !in old(exhausted) || old(exhausted)[o] <= now) && granted.Some? ==>
                if granted.value < want then o in exhausted && exhausted[o] == now + EXHAUSTED_FOR
                else o !in exhausted && shortAt == old(shortAt)
      ensures want > 0 && o in old(exhausted) && now < old(exhausted)[o] ==>
                granted == Some(0) && o in shortAt && now < shortAt[o] + EXHAUSTED_FOR
    {
      if want <= 0 {
        return Some(0);
      }
      var denied := RecentlyExhausted(o, now);
      if denied {
        return Some(0);
      }
      if quota.None? || !stored {
        return None;
      }
      var n := Grantable(At(used, (o, month)), quota.value, want);
      used := used[(o, month) := At(used, (o, month)) + n];
      if n < want {
        MarkExhausted(o, now);
      }
      granted := Some(n);
    }

    /** The month is the one the charge was made in. */
    method Refund(o: int, n: int, month: int)
      requires Valid()
      modifies this`used
      ensures Valid()
      ensures var key := (o, month);
              && (forall k :: k != key ==> At(used, k) == At(old(used), k))
              && At(used, key) == if n <= 0 then At(old(used), key) else After(At(old(used), key), 0, GiveBack(n))
    {
      if n <= 0 || (o, month) !in used {
        return;
      }
      used := used[(o, month) := if used[(o, month)] >= n then used[(o, month)] - n else 0];
    }
  }
}
