/** Token buckets by key in a map of bounded size, against a limiter that never forgets.
    Tokens and seconds are reals. */
module RateLimiter {
  import opened Wrappers

  const MAX_KEYS := 10000

  datatype Bucket = Bucket(tokens: real, last: real)

  datatype Rate = Rate(perSecond: real, burst: real)

  /** One request for a key and its answer. */
  datatype Request = Request(at: real, ok: bool)

  function Min(x: real, y: real): real {
    if x < y then x else y
  }

  function Earned(g: Rate, since: real, now: real): real {
    (now - since) * g.perSecond
  }

  lemma EarnedAddsUp(g: Rate, a: real, b: real, c: real)
    requires g.perSecond >= 0.0 && a <= b <= c
    ensures Earned(g, a, b) + Earned(g, b, c) == Earned(g, a, c) && Earned(g, b, c) >= 0.0 && Earned(g, a, b) >= 0.0
    ensures Earned(g, a, a) == 0.0
  {
  }

  /** n whole seconds earn n times the rate. */
  lemma {:induction false} SecondsEarn(g: Rate, t: real, n: nat)
    requires g.perSecond >= 0.0
    ensures Earned(g, t, t + n as real) == n as real * g.perSecond
  {
    if n > 0 {
      SecondsEarn(g, t, n - 1);
      var m := (n - 1) as real;
      EarnedAddsUp(g, t, t + m, t + m + 1.0);
      assert n as real * g.perSecond == m * g.perSecond + g.perSecond;
    }
  }

  /** The bucket as the request finds it: new and full, or refilled if time has passed. */
  function Refilled(g: Rate, b: Option<Bucket>, now: real): Bucket {
    match b
    case None => Bucket(g.burst, now)
    case Some(c) =>
      if now - c.last > 0.0 then Bucket(Min(g.burst, c.tokens + Earned(g, c.last, now)), now) else c
  }

  function Spent(b: Bucket): Bucket {
    if b.tokens < 1.0 then b else b.(tokens := b.tokens - 1.0)
  }

  /** Nothing would be lost by forgetting this bucket now. */
  predicate Replete(g: Rate, b: Bucket, now: real) {
    now - b.last > 0.0 && Min(g.burst, b.tokens + Earned(g, b.last, now)) >= g.burst
  }

  // ----- a limiter that never forgets -----

  /** The bucket after these requests. */
  function After(g: Rate, reqs: seq<Request>): Option<Bucket> {
    if reqs == [] then None
    else Some(Spent(Refilled(g, After(g, reqs[..|reqs| - 1]), reqs[|reqs| - 1].at)))
  }

  /** Each request was answered as the unforgetting limiter answers it, at times that do not run back. */
  ghost predicate Ideal(g: Rate, reqs: seq<Request>) {
    reqs == [] || (
      var earlier, r := reqs[..|reqs| - 1], reqs[|reqs| - 1];
      && Ideal(g, earlier) && (earlier != [] ==> earlier[|earlier| - 1].at <= r.at)
      && r.ok == (Refilled(g, After(g, earlier), r.at).tokens >= 1.0))
  }

  function Allowed(reqs: seq<Request>): nat {
    if reqs == [] then 0 else Allowed(reqs[..|reqs| - 1]) + if reqs[|reqs| - 1].ok then 1 else 0
  }

  lemma {:induction false} BucketBounds(g: Rate, reqs: seq<Request>)
    requires Ideal(g, reqs) && g.perSecond >= 0.0 && g.burst >= 0.0 && reqs != []
    ensures var b := After(g, reqs).value; 0.0 <= b.tokens <= g.burst && b.last == reqs[|reqs| - 1].at
  {
    hide Earned;
    var earlier, r := reqs[..|reqs| - 1], reqs[|reqs| - 1];
    if earlier != [] {
      BucketBounds(g, earlier);
      var b := After(g, earlier).value;
      EarnedAddsUp(g, b.last, b.last, r.at);
    }
  }

  /** From the i-th request on, grants and tokens left are paid for by the burst and by time. */
  lemma {:induction false} GrantsArePaidFor(g: Rate, reqs: seq<Request>, i: nat)
    requires Ideal(g, reqs) && g.perSecond >= 0.0 && g.burst >= 0.0 && i < |reqs|
    ensures reqs[i].at <= reqs[|reqs| - 1].at
    ensures Allowed(reqs[i..]) as real + After(g, reqs).value.tokens
         <= g.burst + Earned(g, reqs[i].at, reqs[|reqs| - 1].at)
    decreases |reqs|
  {
    hide Earned;
    var n := |reqs| - 1;
    var earlier, r := reqs[..n], reqs[n];
    assert reqs[i..][..n - i] == earlier[i..];
    EarnedAddsUp(g, r.at, r.at, r.at);
    if earlier != [] {
      BucketBounds(g, earlier);
      var b := After(g, earlier).value;
      EarnedAddsUp(g, b.last, b.last, r.at);
      if i < n {
        GrantsArePaidFor(g, earlier, i);
        EarnedAddsUp(g, reqs[i].at, b.last, r.at);
      }
    }
  }

  /** In any stretch of requests those allowed number at most the burst plus the rate times its length. */
  lemma {:induction false} AllowedInAnyInterval(g: Rate, reqs: seq<Request>, i: nat, j: nat)
    requires Ideal(g, reqs) && g.perSecond >= 0.0 && g.burst >= 0.0 && i < j <= |reqs|
    ensures Allowed(reqs[i..j]) as real <= g.burst + Earned(g, reqs[i].at, reqs[j - 1].at)
    decreases |reqs|
  {
    hide Earned, After;
    if j == |reqs| {
      GrantsArePaidFor(g, reqs, i);
      BucketBounds(g, reqs);
      assert reqs[i..j] == reqs[i..];
    } else {
      var earlier := reqs[..|reqs| - 1];
      AllowedInAnyInterval(g, earlier, i, j);
      assert earlier[i..j] == reqs[i..j];
    }
  }

  /** What the burst and the time since the i-th request still leave at now. */
  function Spare(g: Rate, reqs: seq<Request>, i: nat, now: real): real
    requires i < |reqs|
  {
    g.burst + Earned(g, reqs[i].at, now) - Allowed(reqs[i..]) as real
  }

  lemma SpareNext(g: Rate, reqs: seq<Request>, i: nat, now: real)
    requires g.perSecond >= 0.0 && i < |reqs| && Ideal(g, reqs) && reqs[i].at <= reqs[|reqs| - 1].at <= now
    ensures var n := |reqs| - 1; var paid := if reqs[n].ok then 1.0 else 0.0;
            Spare(g, reqs, i, now) ==
              (if i < n then Spare(g, reqs[..n], i, reqs[n].at) else g.burst) + Earned(g, reqs[n].at, now) - paid
  {
    var n := |reqs| - 1;
    assert reqs[i..][..n - i] == reqs[..n][i..];
    assert Allowed(reqs[i..]) == Allowed(reqs[..n][i..]) + if reqs[n].ok then 1 else 0;
    if i < n { EarnedAddsUp(g, reqs[i].at, reqs[n].at, now); }
  }

  /** The bucket after the last request, when it comes to be used again. */
  lemma BucketNext(g: Rate, reqs: seq<Request>, now: real)
    requires Ideal(g, reqs) && g.perSecond >= 0.0 && g.burst >= 0.0 && reqs != [] && reqs[|reqs| - 1].at <= now
    ensures var r := reqs[|reqs| - 1]; var before := Refilled(g, After(g, reqs[..|reqs| - 1]), r.at).tokens;
            Refilled(g, After(g, reqs), now).tokens == Min(g.burst, before - (if r.ok then 1.0 else 0.0) + Earned(g, r.at, now))
  {
    hide Earned;
    BucketBounds(g, reqs);
    EarnedAddsUp(g, reqs[|reqs| - 1].at, reqs[|reqs| - 1].at, now);
  }

  lemma {:induction false} RequestsInOrder(g: Rate, reqs: seq<Request>)
    requires Ideal(g, reqs)
    ensures forall i :: 0 <= i < |reqs| ==> reqs[i].at <= reqs[|reqs| - 1].at
  {
    if reqs != [] { RequestsInOrder(g, reqs[..|reqs| - 1]); }
  }

  /** What a request finds in the bucket is the least that the burst and the time since any
      earlier request leave: no stretch of requests is favoured, none is forgotten. */
  lemma {:induction false} TokensAreTheLeastSpare(g: Rate, reqs: seq<Request>, now: real)
    requires Ideal(g, reqs) && g.perSecond >= 0.0 && g.burst >= 0.0 && (reqs != [] ==> reqs[|reqs| - 1].at <= now)
    ensures var found := Refilled(g, After(g, reqs), now).tokens;
            && found <= g.burst && (forall i :: 0 <= i < |reqs| ==> found <= Spare(g, reqs, i, now))
            && (found == g.burst || exists i :: 0 <= i < |reqs| && found == Spare(g, reqs, i, now))
    decreases |reqs|
  {
    if reqs != [] {
      var n := |reqs| - 1;
      var earlier, r := reqs[..n], reqs[n];
      TokensAreTheLeastSpare(g, earlier, r.at);
      RequestsInOrder(g, reqs);
      BucketNext(g, reqs, now);
      hide Earned, Refilled, After, Spare, Ideal;
      forall i | 0 <= i < |reqs|
        ensures Spare(g, reqs, i, now) == (if i < n then Spare(g, earlier, i, r.at) else g.burst)
                                          + Earned(g, r.at, now) - if r.ok then 1.0 else 0.0
      {
        SpareNext(g, reqs, i, now);
      }
      var before := Refilled(g, After(g, earlier), r.at).tokens;
      if before == g.burst {
        assert Spare(g, reqs, n, now) == before + Earned(g, r.at, now) - if r.ok then 1.0 else 0.0;
      } else {
        var i :| 0 <= i < |earlier| && before == Spare(g, earlier, i, r.at);
        assert Spare(g, reqs, i, now) == before + Earned(g, r.at, now) - if r.ok then 1.0 else 0.0;
      }
    }
  }

  /** So a request is allowed exactly when no stretch that ends with it would then hold more
      than the burst and the rate pay for: the limiter refuses nothing it could allow. */
  lemma AllowedExactlyWithinTheRate(g: Rate, reqs: seq<Request>, n: nat)
    requires Ideal(g, reqs) && g.perSecond >= 0.0 && g.burst >= 0.0 && n < |reqs|
    ensures reqs[n].ok <==>
            forall i :: 0 <= i <= n ==> Allowed(reqs[i..n]) as real + 1.0 <= g.burst + Earned(g, reqs[i].at, reqs[n].at)
  {
    IdealPrefix(g, reqs, n + 1);
    var head := reqs[..n + 1];
    var earlier := reqs[..n];
    assert head[..n] == earlier && head[n] == reqs[n];
    RequestsInOrder(g, head);
    TokensAreTheLeastSpare(g, earlier, reqs[n].at);
    forall i | 0 <= i < n ensures Allowed(reqs[i..n]) == Allowed(earlier[i..]) {
      assert reqs[i..n] == earlier[i..];
    }
    assert reqs[n..n] == [] && Earned(g, reqs[n].at, reqs[n].at) == 0.0;
    hide Earned, Refilled, After, Ideal;
    var found := Refilled(g, After(g, earlier), reqs[n].at).tokens;
    if found >= 1.0 {
      forall i | 0 <= i <= n ensures Allowed(reqs[i..n]) as real + 1.0 <= g.burst + Earned(g, reqs[i].at, reqs[n].at) {
        if i < n { assert found <= Spare(g, earlier, i, reqs[n].at); }
      }
    } else if found == g.burst {
      assert !(Allowed(reqs[n..n]) as real + 1.0 <= g.burst + Earned(g, reqs[n].at, reqs[n].at));
    } else {
      var i :| 0 <= i < |earlier| && found == Spare(g, earlier, i, reqs[n].at);
      assert !(Allowed(reqs[i..n]) as real + 1.0 <= g.burst + Earned(g, reqs[i].at, reqs[n].at));
    }
  }

  lemma {:induction false} IdealPrefix(g: Rate, reqs: seq<Request>, n: nat)
    requires Ideal(g, reqs) && n <= |reqs|
    ensures Ideal(g, reqs[..n])
  {
    if n < |reqs| {
      IdealPrefix(g, reqs[..|reqs| - 1], n);
      assert reqs[..|reqs| - 1][..n] == reqs[..n];
    } else {
      assert reqs[..n] == reqs;
    }
  }

  /** A swept bucket comes back as it would have been. */
  lemma SweepIsInvisible(g: Rate, b: Bucket, swept: real, now: real)
    requires g.perSecond >= 0.0 && Replete(g, b, swept) && swept <= now
    ensures Refilled(g, Some(b), now) == Refilled(g, None, now)
  {
    hide Earned;
    EarnedAddsUp(g, b.last, swept, now);
  }

  /** A bucket is swept exactly when coming back new it would be the same. */
  lemma RepleteIsFull(g: Rate, b: Bucket, now: real)
    requires g.perSecond >= 0.0 && b.last < now
    ensures Replete(g, b, now) <==> Refilled(g, Some(b), now) == Refilled(g, None, now)
  {
  }

  // ----- the limiter with bounded memory -----

  /** The bounded map stands for the unforgetting one: a key it lost to no eviction but the
      sweep has the same bucket, or one that would be full again. */
  ghost predicate Mirrors(g: Rate, buckets: map<int, Bucket>, log: map<int, seq<Request>>, evicted: set<int>, clock: real) {
    && (forall k :: k in buckets ==> k in log)
    && (forall k :: k in log && k !in evicted ==> Same(g, k, buckets, log[k], clock))
  }

  ghost predicate Same(g: Rate, k: int, buckets: map<int, Bucket>, reqs: seq<Request>, clock: real) {
    && reqs != [] && Ideal(g, reqs) && reqs[|reqs| - 1].at <= clock
    && if k in buckets then buckets[k] == After(g, reqs).value else Replete(g, After(g, reqs).value, clock)
  }

  class RateLimiter {
    const g: Rate
    var buckets: map<int, Bucket>
    ghost var log: map<int, seq<Request>>
    /** Keys ever dropped while not yet full. */
    ghost var evicted: set<int>
    ghost var clock: real

    ghost predicate Valid()
      reads this
    {
      |buckets| <= MAX_KEYS && (g.perSecond > 0.0 ==> Mirrors(g, buckets, log, evicted, clock))
    }

    constructor (g: Rate)
      ensures Valid() && this.g == g && log == map[] && evicted == {}
    {
      this.g := g;
      buckets, log, evicted, clock := map[], map[], {}, 0.0;
    }

    /** Drops the buckets that are full again. */
    method Sweep(now: real)
      requires Valid() && g.perSecond > 0.0 && clock <= now
      modifies this`buckets, this`clock
      ensures Valid() && clock == now
      ensures forall k :: k in buckets <==> k in old(buckets) && !Replete(g, old(buckets)[k], now)
      ensures buckets.Keys <= old(buckets).Keys && forall k :: k in buckets ==> buckets[k] == old(buckets)[k]
    {
      StillMirrors(g, buckets, log, evicted, clock, now);
      hide Mirrors, Replete;
      clock := now;
      var left := buckets.Keys;
      while left != {}
        invariant left <= buckets.Keys <= old(buckets).Keys && Valid() && clock == now
        invariant forall k :: k in buckets ==> buckets[k] == old(buckets)[k]
        invariant forall k :: k in old(buckets) ==>
                    (k in buckets <==> k in left || !Replete(g, old(buckets)[k], now))
        decreases |left|
      {
        assert (forall x: int :: x !in left) ==> left == {};
        var k: int :| k in left;
        left := left - {k};
        if Replete(g, buckets[k], now) {
          Shrinks(buckets, k);
          SweptMirrors(g, buckets, log, evicted, clock, k);
          buckets := buckets - {k};
        }
      }
    }

    method Drop(k: int)
      requires Valid() && k in buckets && g.perSecond > 0.0
      modifies this`buckets, this`evicted
      ensures Valid() && buckets == old(buckets) - {k} && |buckets| == |old(buckets)| - 1
      ensures evicted == old(evicted) + {k}
    {
      EvictedMirrors(g, buckets, log, evicted, clock, k);
      Shrinks(buckets, k);
      hide Mirrors;
      buckets := buckets - {k};
      evicted := evicted + {k};
    }

    /** Drops the buckets that are at least half full. */
    method DropHalfFull(half: real)
      requires Valid() && g.perSecond > 0.0
      modifies this`buckets, this`evicted
      ensures Valid() && old(evicted) <= evicted <= old(evicted) + old(buckets).Keys
      ensures forall k :: k in buckets <==> k in old(buckets) && old(buckets)[k].tokens < half
      ensures forall k :: k in buckets ==> buckets[k] == old(buckets)[k]
    {
      hide Mirrors;
      var left := buckets.Keys;
      while left != {}
        invariant Valid() && left <= buckets.Keys && old(evicted) <= evicted <= old(evicted) + old(buckets).Keys
        invariant forall k :: k in buckets ==> k in old(buckets) && buckets[k] == old(buckets)[k]
        invariant forall k :: k in old(buckets) ==> (k in buckets <==> k in left || old(buckets)[k].tokens < half)
        decreases |left|
      {
        assert (forall x: int :: x !in left) ==> left == {};
        var k: int :| k in left;
        left := left - {k};
        if buckets[k].tokens >= half {
          Drop(k);
        }
      }
    }

    /** Drops a tenth of the buckets, at least one, any. */
    method DropTenth()
      requires Valid() && g.perSecond > 0.0 && buckets != map[]
      modifies this`buckets, this`evicted
      ensures Valid() && old(evicted) <= evicted <= old(evicted) + old(buckets).Keys && buckets.Keys <= old(buckets).Keys
      ensures forall k :: k in buckets ==> buckets[k] == old(buckets)[k]
      ensures |buckets| == |old(buckets)| - if |old(buckets)| / 10 == 0 then 1 else |old(buckets)| / 10
    {
      hide Mirrors;
      var drop := |buckets| / 10;
      if drop == 0 {
        drop := 1;
      }
      assert buckets.Keys != {};
      ghost var all := drop;
      while drop > 0
        invariant Valid() && 0 <= drop <= all && |buckets| == |old(buckets)| - all + drop
        invariant buckets.Keys <= old(buckets).Keys && forall k :: k in buckets ==> buckets[k] == old(buckets)[k]
        invariant old(evicted) <= evicted <= old(evicted) + old(buckets).Keys
        decreases drop
      {
        assert |buckets.Keys| == |buckets| && ((forall x: int :: x !in buckets.Keys) ==> buckets.Keys == {});
        var k: int :| k in buckets.Keys;
        Drop(k);
        drop := drop - 1;
      }
    }

    /** Makes room: full buckets first, then the half-full, then a tenth of what is left, any. */
    method Evict(now: real)
      requires Valid() && g.perSecond > 0.0 && clock <= now
      modifies this`buckets, this`evicted, this`clock
      ensures Valid() && clock == now && |buckets| < MAX_KEYS && buckets.Keys <= old(buckets).Keys
      ensures old(evicted) <= evicted <= old(evicted) + old(buckets).Keys
      ensures (exists k :: k in old(buckets) && Replete(g, old(buckets)[k], now)) ==> evicted == old(evicted)
      ensures forall k :: k in buckets ==> buckets[k] == old(buckets)[k]
      ensures var rest := set k | k in old(buckets) && !Replete(g, old(buckets)[k], now);
              var low := set k | k in rest && old(buckets)[k].tokens < g.burst / 2.0;
              if |rest| < MAX_KEYS then buckets.Keys == rest
              else if |low| < MAX_KEYS then buckets.Keys == low
              else buckets.Keys <= low && |buckets| == |low| - if |low| / 10 == 0 then 1 else |low| / 10
    {
      hide Mirrors, Replete;
      ghost var before := buckets;
      ghost var rest := set k | k in before && !Replete(g, before[k], now);
      ghost var low := set k | k in rest && before[k].tokens < g.burst / 2.0;
      Sweep(now);
      forall k ensures k in buckets.Keys <==> k in rest {}
      assert buckets.Keys == rest && |buckets.Keys| == |buckets|;
      if |buckets| < MAX_KEYS {
        return;
      }
      NoneSwept(g, before, buckets, now);
      DropHalfFull(g.burst / 2.0);
      forall k ensures k in buckets.Keys <==> k in low {}
      assert buckets.Keys == low && |buckets.Keys| == |buckets|;
      if |buckets| < MAX_KEYS {
        return;
      }
      DropTenth();
    }

    /** With a clock that does not run back, a key that no eviction took before it was full
        is answered as if nothing had ever been forgotten. A rate of zero switches the limiter off. */
    method Allow(k: int, now: real) returns (ok: bool)
      requires Valid() && clock <= now
      modifies this`buckets, this`log, this`evicted, this`clock
      ensures Valid() && (g.perSecond <= 0.0 ==> ok && unchanged(this))
      ensures g.perSecond > 0.0 ==>
                && clock == now && old(evicted) <= evicted && |buckets| <= 10000
                && log == old(log)[k := Entries(old(log), k) + [Request(now, ok)]]
                && (k !in evicted ==> (ok <==> Refilled(g, After(g, Entries(old(log), k)), now).tokens >= 1.0))
    {
      hide Mirrors, Refilled, Spent, After;
      if g.perSecond <= 0.0 {
        return true;
      }
      if |buckets| >= MAX_KEYS {
        Evict(now);
      }
      var b := Refilled(g, Find(buckets, k), now);
      ok := b.tokens >= 1.0;
      if k !in evicted { FindsTheSame(g, buckets, log, evicted, clock, k, now); }
      AnsweredMirrors(g, buckets, log, evicted, clock, k, now, b);
      Grows(buckets, k, Spent(b));
      buckets := buckets[k := Spent(b)];
      log := log[k := Entries(log, k) + [Request(now, ok)]];
      clock := now;
    }
  }

  lemma NoneSwept(g: Rate, before: map<int, Bucket>, after: map<int, Bucket>, now: real)
    requires |before| <= MAX_KEYS <= |after|
    requires forall k :: k in after ==> k in before && !Replete(g, before[k], now)
    ensures forall k :: k in before ==> !Replete(g, before[k], now)
  {
    if k :| k in before && Replete(g, before[k], now) {
      assert k !in after;
      assert forall x :: x in after.Keys ==> x in after && x in before.Keys - {k};
      Fewer(after.Keys, before.Keys - {k});
    }
  }

  lemma Fewer(a: set<int>, b: set<int>)
    requires a <= b
    ensures |a| <= |b|
    decreases b
  {
    if a != {} {
      assert (forall x: int :: x !in a) ==> a == {};
      var x: int :| x in a;
      Fewer(a - {x}, b - {x});
    }
  }

  lemma Shrinks(m: map<int, Bucket>, k: int)
    requires k in m
    ensures |m - {k}| == |m| - 1
  {
    assert (m - {k}).Keys == m.Keys - {k};
  }

  lemma SweptMirrors(g: Rate, buckets: map<int, Bucket>, log: map<int, seq<Request>>, evicted: set<int>, clock: real, k: int)
    requires Mirrors(g, buckets, log, evicted, clock) && k in buckets && Replete(g, buckets[k], clock)
    ensures Mirrors(g, buckets - {k}, log, evicted, clock)
  {
    forall q | q in log && q !in evicted ensures Same(g, q, buckets - {k}, log[q], clock) {
      assert Same(g, q, buckets, log[q], clock);
    }
  }

  lemma EvictedMirrors(g: Rate, buckets: map<int, Bucket>, log: map<int, seq<Request>>, evicted: set<int>, clock: real, k: int)
    requires Mirrors(g, buckets, log, evicted, clock) && k in buckets
    ensures Mirrors(g, buckets - {k}, log, evicted + {k}, clock)
  {
    forall q | q in log && q !in evicted + {k} ensures Same(g, q, buckets - {k}, log[q], clock) {
      assert Same(g, q, buckets, log[q], clock);
    }
  }

  /** The bucket the request finds is the unforgetting limiter's. */
  lemma FindsTheSame(g: Rate, buckets: map<int, Bucket>, log: map<int, seq<Request>>, evicted: set<int>,
                     clock: real, k: int, now: real)
    requires g.perSecond > 0.0 && Mirrors(g, buckets, log, evicted, clock) && clock <= now && k !in evicted
    ensures Refilled(g, Find(buckets, k), now) == Refilled(g, After(g, Entries(log, k)), now)
  {
    if k in log {
      assert Same(g, k, buckets, log[k], clock);
      if k !in buckets { SweepIsInvisible(g, After(g, log[k]).value, clock, now); }
    }
  }

  lemma AnsweredMirrors(g: Rate, buckets: map<int, Bucket>, log: map<int, seq<Request>>, evicted: set<int>,
                        clock: real, k: int, now: real, b: Bucket)
    requires g.perSecond > 0.0 && Mirrors(g, buckets, log, evicted, clock) && clock <= now
    requires b == Refilled(g, Find(buckets, k), now)
    ensures Mirrors(g, buckets[k := Spent(b)], log[k := Entries(log, k) + [Request(now, b.tokens >= 1.0)]], evicted, now)
  {
    var reqs := Entries(log, k) + [Request(now, b.tokens >= 1.0)];
    var buckets' := buckets[k := Spent(b)];
    assert reqs[..|reqs| - 1] == Entries(log, k);
    StillMirrors(g, buckets, log, evicted, clock, now);
    if k !in evicted {
      FindsTheSame(g, buckets, log, evicted, clock, k, now);
      if k in log { assert Same(g, k, buckets, log[k], clock); }
      assert After(g, reqs) == Some(Spent(Refilled(g, After(g, reqs[..|reqs| - 1]), now)));
      assert Same(g, k, buckets', reqs, now);
    }
    var log' := log[k := reqs];
    forall q | q in log' && q !in evicted ensures Same(g, q, buckets', log'[q], now) {
      if q != k { assert Same(g, q, buckets, log[q], now); }
    }
  }

  function Find(m: map<int, Bucket>, k: int): Option<Bucket> {
    if k in m then Some(m[k]) else None
  }

  function Entries(m: map<int, seq<Request>>, k: int): seq<Request> {
    if k in m then m[k] else []
  }

  lemma Grows(m: map<int, Bucket>, k: int, b: Bucket)
    ensures |m[k := b]| == |m| + if k in m then 0 else 1
  {
    assert m[k := b].Keys == m.Keys + {k};
  }

  lemma StillMirrors(g: Rate, buckets: map<int, Bucket>, log: map<int, seq<Request>>, evicted: set<int>,
                     clock: real, now: real)
    requires g.perSecond > 0.0 && Mirrors(g, buckets, log, evicted, clock) && clock <= now
    ensures Mirrors(g, buckets, log, evicted, now)
  {
    forall k | k in log && k !in evicted ensures Same(g, k, buckets, log[k], now) {
      var b := After(g, log[k]).value;
      if k !in buckets {
        EarnedAddsUp(g, b.last, clock, now);
      }
    }
  }

  /** What the limiter promises of itself: a key that no early eviction took was allowed, in
      any stretch of its requests, at most the burst plus the rate times the stretch. */
  lemma EachKeyIsLimited(l: RateLimiter, k: int, i: nat, j: nat)
    requires l.Valid() && l.g.perSecond > 0.0 && l.g.burst >= 0.0
    requires k in l.log && k !in l.evicted && i < j <= |l.log[k]|
    ensures Allowed(l.log[k][i..j]) as real <= l.g.burst + Earned(l.g, l.log[k][i].at, l.log[k][j - 1].at)
  {
    assert Same(l.g, k, l.buckets, l.log[k], l.clock);
    AllowedInAnyInterval(l.g, l.log[k], i, j);
  }

  /** And refuses such a key nothing the rate would allow. */
  lemma EachKeyIsServed(l: RateLimiter, k: int, n: nat)
    requires l.Valid() && l.g.perSecond > 0.0 && l.g.burst >= 0.0 && k in l.log && k !in l.evicted && n < |l.log[k]|
    ensures var reqs := l.log[k];
            reqs[n].ok <==>
            forall i :: 0 <= i <= n ==> Allowed(reqs[i..n]) as real + 1.0 <= l.g.burst + Earned(l.g, reqs[i].at, reqs[n].at)
  {
    assert Same(l.g, k, l.buckets, l.log[k], l.clock);
    AllowedExactlyWithinTheRate(l.g, l.log[k], n);
  }
}
