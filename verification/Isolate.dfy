/** Isolating bad rows by halving. The insert is an oracle that may answer
    differently at every call, the deadline one that may pass at any check. */
module Isolate {

  datatype InsertResult = Inserted | Poison | Transient

  datatype Call<T> = Call(rows: seq<T>, result: InsertResult)

  /** The two results of the code, and the inserts it made, in order; checks counts
      the looks at the deadline. */
  datatype Report<T> = Report(dropped: nat, unresolved: seq<T>, calls: seq<Call<T>>, checks: nat)

  function IsolatePoison<T>(rows: seq<T>, answer: nat -> InsertResult, expired: nat -> bool,
                            calls: nat, checks: nat): (r: Report<T>)
    decreases |rows|
  {
    if |rows| == 0 then Report(0, [], [], 0)
    else if expired(checks) then Report(0, rows, [], 1)
    else
      var res := answer(calls);
      if res.Inserted? then Report(0, [], [Call(rows, res)], 1)
      else if |rows| == 1 then
        if res.Poison? then Report(1, [], [Call(rows, res)], 1)
        else Report(0, rows, [Call(rows, res)], 1)
      else
        var mid := |rows| / 2;
        var l := IsolatePoison(rows[..mid], answer, expired, calls + 1, checks + 1);
        var r := IsolatePoison(rows[mid..], answer, expired, calls + 1 + |l.calls|, checks + 1 + l.checks);
        Join(Call(rows, res), l, r)
  }

  /** The results of the two halves after a refused whole. */
  function Join<T>(first: Call<T>, l: Report<T>, r: Report<T>): Report<T> {
    Report(l.dropped + r.dropped, l.unresolved + r.unresolved, [first] + l.calls + r.calls, 1 + l.checks + r.checks)
  }

  // ----- the tree of inserts behind a report -----

  /** A slice left alone (empty, or the deadline had passed), one settled by its own
      insert, or one that was refused and cut in two. */
  datatype Trace<T> =
    | Untried(rows: seq<T>, checks: nat)
    | Settled(rows: seq<T>, result: InsertResult)
    | Halved(rows: seq<T>, result: InsertResult, left: Trace<T>, right: Trace<T>)

  function ReportOf<T>(t: Trace<T>): Report<T> {
    match t
    case Untried(rows, checks) => Report(0, rows, [], checks)
    case Settled(rows, res) =>
      Report(if res.Poison? then 1 else 0, if res.Transient? then rows else [], [Call(rows, res)], 1)
    case Halved(rows, res, left, right) => Join(Call(rows, res), ReportOf(left), ReportOf(right))
  }

  ghost predicate Shaped<T>(t: Trace<T>) {
    match t
    case Untried(_, _) => true
    case Settled(rows, res) => rows != [] && (res.Inserted? || |rows| == 1)
    case Halved(rows, res, left, right) =>
      !res.Inserted? && rows == left.rows + right.rows && left.rows != [] && right.rows != [] && Shaped(left) && Shaped(right)
  }

  /** Every non-empty slice was tried. */
  ghost predicate InTime<T>(t: Trace<T>) {
    match t
    case Untried(rows, _) => rows == []
    case Settled(_, _) => true
    case Halved(_, _, left, right) => InTime(left) && InTime(right)
  }

  lemma CutReport<T>(rows: seq<T>, answer: nat -> InsertResult, expired: nat -> bool, calls: nat, checks: nat,
                     l: Report<T>, r: Report<T>)
    requires |rows| > 1 && !expired(checks) && !answer(calls).Inserted?
    requires l == IsolatePoison(rows[..|rows| / 2], answer, expired, calls + 1, checks + 1)
    requires r == IsolatePoison(rows[|rows| / 2..], answer, expired, calls + 1 + |l.calls|, checks + 1 + l.checks)
    ensures IsolatePoison(rows, answer, expired, calls, checks) == Join(Call(rows, answer(calls)), l, r)
  {
  }

  lemma Cut<T>(rows: seq<T>, res: InsertResult, l: Trace<T>, r: Trace<T>) returns (t: Trace<T>)
    requires |rows| > 1 && !res.Inserted? && l.rows == rows[..|rows| / 2] && r.rows == rows[|rows| / 2..]
    requires Shaped(l) && Shaped(r)
    ensures t.rows == rows && Shaped(t) && ReportOf(t) == Join(Call(rows, res), ReportOf(l), ReportOf(r))
    ensures InTime(l) && InTime(r) ==> InTime(t)
  {
    t := Halved(rows, res, l, r);
    assert rows == l.rows + r.rows;
  }

  lemma {:induction false} HasTrace<T>(
      rows: seq<T>, answer: nat -> InsertResult, expired: nat -> bool, calls: nat, checks: nat) returns (t: Trace<T>)
    ensures t.rows == rows && Shaped(t) && ReportOf(t) == IsolatePoison(rows, answer, expired, calls, checks)
    ensures (forall k :: !expired(k)) ==> InTime(t)
    decreases |rows|
  {
    if |rows| == 0 {
      t := Untried(rows, 0);
    } else if expired(checks) {
      t := Untried(rows, 1);
    } else if answer(calls).Inserted? || |rows| == 1 {
      t := Settled(rows, answer(calls));
    } else {
      var x, y := rows[..|rows| / 2], rows[|rows| / 2..];
      var l := HasTrace(x, answer, expired, calls + 1, checks + 1);
      var lr := ReportOf(l);
      var r := HasTrace(y, answer, expired, calls + 1 + |lr.calls|, checks + 1 + lr.checks);
      CutReport(rows, answer, expired, calls, checks, lr, ReportOf(r));
      t := Cut(rows, answer(calls), l, r);
    }
  }

  // ----- what became of each row -----

  /** Rows of the inserts with one result; of refused inserts only those sent alone. */
  function RowsOf<T>(calls: seq<Call<T>>, res: InsertResult): seq<T> {
    if calls == [] then []
    else if calls[0].result == res && (res.Inserted? || |calls[0].rows| == 1) then calls[0].rows + RowsOf(calls[1..], res)
    else RowsOf(calls[1..], res)
  }

  lemma {:induction false} RowsOfConcat<T>(a: seq<Call<T>>, b: seq<Call<T>>, res: InsertResult)
    ensures RowsOf(a + b, res) == RowsOf(a, res) + RowsOf(b, res)
  {
    if a == [] {
      assert a + b == b;
    } else {
      assert (a + b)[1..] == a[1..] + b;
      RowsOfConcat(a[1..], b, res);
    }
  }

  /** What became of a row. */
  datatype Fate = Stored | Dropped | HandedBack

  /** The rows of one fate, in the order of the batch. */
  function Select<T>(rows: seq<T>, fates: seq<Fate>, f: Fate): seq<T>
    requires |fates| == |rows|
  {
    if rows == [] then []
    else (if fates[0] == f then [rows[0]] else []) + Select(rows[1..], fates[1..], f)
  }

  lemma SelectFirst<T>(rows: seq<T>, fates: seq<Fate>, f: Fate)
    requires |fates| == |rows| > 0
    ensures Select(rows, fates, f) == (if fates[0] == f then [rows[0]] else []) + Select(rows[1..], fates[1..], f)
  {
  }

  lemma {:induction false} SelectConcat<T>(x: seq<T>, y: seq<T>, p: seq<Fate>, q: seq<Fate>, f: Fate)
    requires |p| == |x| && |q| == |y|
    ensures Select(x + y, p + q, f) == Select(x, p, f) + Select(y, q, f)
  {
    if x == [] {
      assert x + y == y && p + q == q;
      assert Select(x, p, f) == [];
    } else {
      SelectStep(x, y, p, q, f);
      SelectConcat(x[1..], y, p[1..], q, f);
      SelectFirst(x, p, f);
      hide Select;
    }
  }

  lemma SelectStep<T>(x: seq<T>, y: seq<T>, p: seq<Fate>, q: seq<Fate>, f: Fate)
    requires |p| == |x| > 0 && |q| == |y|
    ensures Select(x + y, p + q, f) == (if p[0] == f then [x[0]] else []) + Select(x[1..] + y, p[1..] + q, f)
  {
    SelectFirst(x + y, p + q, f);
    hide Select;
    assert (x + y)[1..] == x[1..] + y && (p + q)[1..] == p[1..] + q;
  }

  lemma {:induction false} SelectUniform<T>(rows: seq<T>, f: Fate, g: Fate)
    ensures Select(rows, seq(|rows|, _ => f), g) == if f == g then rows else []
  {
    if rows != [] {
      SelectUniform(rows[1..], f, g);
      assert seq(|rows|, _ => f)[1..] == seq(|rows[1..]|, _ => f);
    }
  }

  /** A refused batch of several rows contributes nothing itself. */
  lemma RefusedCall<T>(c: Call<T>, l: seq<Call<T>>, r: seq<Call<T>>, res: InsertResult)
    requires !c.result.Inserted? && |c.rows| > 1
    ensures RowsOf([c] + l + r, res) == RowsOf(l, res) + RowsOf(r, res)
  {
    assert [c] + l + r == [c] + (l + r);
    assert ([c] + (l + r))[1..] == l + r;
    RowsOfConcat(l, r, res);
  }

  lemma SingleCall<T>(c: Call<T>, res: InsertResult)
    ensures RowsOf([c], res) == if c.result == res && (res.Inserted? || |c.rows| == 1) then c.rows else []
  {
    assert [c][1..] == [];
  }

  /** The fates explain the report: what was inserted, refused alone and handed back. */
  ghost predicate Explains<T>(rows: seq<T>, fates: seq<Fate>, r: Report<T>) {
    && |fates| == |rows|
    && RowsOf(r.calls, Inserted) == Select(rows, fates, Stored)
    && RowsOf(r.calls, Poison) == Select(rows, fates, Dropped)
    && r.unresolved == Select(rows, fates, HandedBack)
    && r.dropped == |RowsOf(r.calls, Poison)|
  }

  lemma ExplainsJoin<T>(x: seq<T>, y: seq<T>, p: seq<Fate>, q: seq<Fate>, first: Call<T>, l: Report<T>, r: Report<T>)
    requires x != [] && y != [] && first.rows == x + y && !first.result.Inserted?
    requires Explains(x, p, l) && Explains(y, q, r)
    ensures Explains(x + y, p + q, Join(first, l, r))
  {
    RefusedCall(first, l.calls, r.calls, Inserted);
    RefusedCall(first, l.calls, r.calls, Poison);
    SelectConcat(x, y, p, q, Stored);
    SelectConcat(x, y, p, q, Dropped);
    SelectConcat(x, y, p, q, HandedBack);
  }

  /** No insert at all, or one for the whole batch that settles it. */
  lemma ExplainsWhole<T>(rows: seq<T>, tried: seq<Call<T>>, f: Fate, checks: nat)
    requires |tried| <= 1 && forall c :: c in tried ==> c.rows == rows
    requires tried == [] ==> f.HandedBack? || rows == []
    requires forall c :: c in tried && c.result.Inserted? ==> f.Stored?
    requires forall c :: c in tried && !c.result.Inserted? ==> |rows| == 1 && f == if c.result.Poison? then Dropped else HandedBack
    ensures Explains(rows, seq(|rows|, _ => f),
                     Report(if f.Dropped? then |rows| else 0, if f.HandedBack? then rows else [], tried, checks))
  {
    SelectUniform(rows, f, Stored);
    SelectUniform(rows, f, Dropped);
    SelectUniform(rows, f, HandedBack);
    if tried != [] {
      assert tried[0] in tried && tried == [tried[0]];
      SingleCall(tried[0], Inserted);
      SingleCall(tried[0], Poison);
    }
  }

  lemma {:induction false} TraceFates<T>(t: Trace<T>) returns (fates: seq<Fate>)
    requires Shaped(t)
    ensures Explains(t.rows, fates, ReportOf(t))
  {
    match t
    case Untried(rows, checks) =>
      fates := seq(|rows|, _ => HandedBack);
      ExplainsWhole(rows, [], HandedBack, checks);
    case Settled(rows, res) =>
      var f := match res case Inserted => Stored case Poison => Dropped case Transient => HandedBack;
      fates := seq(|rows|, _ => f);
      ExplainsWhole(rows, [Call(rows, res)], f, 1);
    case Halved(rows, res, left, right) =>
      var p := TraceFates(left);
      var q := TraceFates(right);
      fates := p + q;
      ExplainsJoin(left.rows, right.rows, p, q, Call(rows, res), ReportOf(left), ReportOf(right));
  }

  /** Whatever the store answers and whenever the deadline passes: every row has one
      fate, stored by one insert, dropped because it was refused as poison on its own,
      or handed back; each of the three keeps the order of the batch. */
  lemma {:induction false} EveryRowHasOneFate<T>(
      rows: seq<T>, answer: nat -> InsertResult, expired: nat -> bool, calls: nat, checks: nat)
    returns (fates: seq<Fate>)
    ensures Explains(rows, fates, IsolatePoison(rows, answer, expired, calls, checks))
  {
    var t := HasTrace(rows, answer, expired, calls, checks);
    fates := TraceFates(t);
  }

  lemma {:induction false} TraceBound<T>(t: Trace<T>)
    requires Shaped(t)
    ensures |ReportOf(t).calls| <= if t.rows == [] then 0 else 2 * |t.rows| - 1
  {
    if t.Halved? {
      TraceBound(t.left);
      TraceBound(t.right);
    }
  }

  /** At most 2n - 1 inserts. */
  lemma {:induction false} CallBound<T>(rows: seq<T>, answer: nat -> InsertResult, expired: nat -> bool, calls: nat, checks: nat)
    ensures |IsolatePoison(rows, answer, expired, calls, checks).calls| <= if rows == [] then 0 else 2 * |rows| - 1
  {
    var t := HasTrace(rows, answer, expired, calls, checks);
    TraceBound(t);
  }

  lemma {:induction false} TraceHandsBack<T>(t: Trace<T>)
    requires Shaped(t) && InTime(t)
    ensures ReportOf(t).unresolved == RowsOf(ReportOf(t).calls, Transient)
  {
    match t
    case Untried(_, _) =>
    case Settled(rows, res) => SingleCall(Call(rows, res), Transient);
    case Halved(rows, res, left, right) =>
      TraceHandsBack(left);
      TraceHandsBack(right);
      RefusedCall(Call(rows, res), ReportOf(left).calls, ReportOf(right).calls, Transient);
  }

  /** With time left, the rows handed back are those refused alone for a reason that may pass. */
  lemma {:induction false} HandsBackTransients<T>(
      rows: seq<T>, answer: nat -> InsertResult, expired: nat -> bool, calls: nat, checks: nat)
    requires forall k :: !expired(k)
    ensures var r := IsolatePoison(rows, answer, expired, calls, checks); r.unresolved == RowsOf(r.calls, Transient)
  {
    var t := HasTrace(rows, answer, expired, calls, checks);
    TraceHandsBack(t);
  }

  /** The rows that are bad, or those that are not, in order. */
  function Filter<T>(bad: T -> bool, want: bool, rows: seq<T>): seq<T> {
    if rows == [] then []
    else (if bad(rows[0]) == want then [rows[0]] else []) + Filter(bad, want, rows[1..])
  }

  /** The store failed exactly on the batches that hold a bad row, and said so of a bad row alone. */
  ghost predicate FailedExactlyOn<T(!new)>(calls: seq<Call<T>>, bad: T -> bool) {
    forall c :: c in calls ==>
      && (c.result.Inserted? <==> forall x :: x in c.rows ==> !bad(x))
      && (|c.rows| == 1 && bad(c.rows[0]) ==> c.result.Poison?)
  }

  lemma {:induction false} CallsTell<T(!new)>(calls: seq<Call<T>>, bad: T -> bool)
    requires FailedExactlyOn(calls, bad)
    ensures forall x :: x in RowsOf(calls, Inserted) ==> !bad(x)
    ensures forall x :: x in RowsOf(calls, Poison) ==> bad(x)
    ensures RowsOf(calls, Transient) == []
  {
    if calls != [] {
      assert calls[0] in calls && forall c :: c in calls[1..] ==> c in calls;
      CallsTell(calls[1..], bad);
    }
  }

  lemma {:induction false} FatesTell<T(!new)>(rows: seq<T>, fates: seq<Fate>, bad: T -> bool)
    requires |fates| == |rows| && Select(rows, fates, HandedBack) == []
    requires forall x :: x in Select(rows, fates, Stored) ==> !bad(x)
    requires forall x :: x in Select(rows, fates, Dropped) ==> bad(x)
    ensures Select(rows, fates, Stored) == Filter(bad, false, rows)
    ensures Select(rows, fates, Dropped) == Filter(bad, true, rows)
  {
    if rows != [] {
      assert forall x :: x in Select(rows[1..], fates[1..], Stored) ==> x in Select(rows, fates, Stored);
      assert forall x :: x in Select(rows[1..], fates[1..], Dropped) ==> x in Select(rows, fates, Dropped);
      assert rows[0] in Select(rows, fates, fates[0]);
      FatesTell(rows[1..], fates[1..], bad);
    }
  }

  /** With time left, exactly the bad rows are dropped, all others inserted in order. */
  lemma {:induction false} DropsExactlyThePoison<T(!new)>(
      rows: seq<T>, answer: nat -> InsertResult, expired: nat -> bool, bad: T -> bool, calls: nat, checks: nat)
    requires FailedExactlyOn(IsolatePoison(rows, answer, expired, calls, checks).calls, bad) && forall k :: !expired(k)
    ensures var r := IsolatePoison(rows, answer, expired, calls, checks);
            && r.unresolved == [] && r.dropped == |Filter(bad, true, rows)|
            && RowsOf(r.calls, Poison) == Filter(bad, true, rows)
            && RowsOf(r.calls, Inserted) == Filter(bad, false, rows)
  {
    var fates := EveryRowHasOneFate(rows, answer, expired, calls, checks);
    HandsBackTransients(rows, answer, expired, calls, checks);
    CallsTell(IsolatePoison(rows, answer, expired, calls, checks).calls, bad);
    FatesTell(rows, fates, bad);
  }

  lemma {:induction false} TraceDown<T>(t: Trace<T>)
    requires Shaped(t) && InTime(t) && t.rows != [] && forall c :: c in ReportOf(t).calls ==> c.result.Transient?
    ensures ReportOf(t).dropped == 0 && ReportOf(t).unresolved == t.rows && |ReportOf(t).calls| == 2 * |t.rows| - 1
  {
    match t
    case Untried(_, _) =>
    case Settled(rows, res) => assert Call(rows, res) in ReportOf(t).calls;
    case Halved(rows, res, left, right) =>
      assert forall c :: c in ReportOf(left).calls ==> c in ReportOf(t).calls;
      assert forall c :: c in ReportOf(right).calls ==> c in ReportOf(t).calls;
      TraceDown(left);
      TraceDown(right);
  }

  /** A store that is simply down costs the full 2n - 1 inserts and loses nothing. */
  lemma {:induction false} DownStoreLosesNothing<T>(
      rows: seq<T>, answer: nat -> InsertResult, expired: nat -> bool, calls: nat, checks: nat)
    requires rows != [] && (forall k :: !expired(k))
    requires forall c :: c in IsolatePoison(rows, answer, expired, calls, checks).calls ==> c.result.Transient?
    ensures var r := IsolatePoison(rows, answer, expired, calls, checks);
            r.dropped == 0 && r.unresolved == rows && |r.calls| == 2 * |rows| - 1
  {
    var t := HasTrace(rows, answer, expired, calls, checks);
    TraceDown(t);
  }

  // ----- what it costs -----

  /** Looks at the deadline, of the n from the given one on, that found time left. */
  function LooksInTime(expired: nat -> bool, from: nat, n: nat): nat {
    if n == 0 then 0 else LooksInTime(expired, from, n - 1) + if expired(from + n - 1) then 0 else 1
  }

  lemma {:induction false} LooksAddUp(expired: nat -> bool, from: nat, m: nat, n: nat)
    ensures LooksInTime(expired, from, m + n) == LooksInTime(expired, from, m) + LooksInTime(expired, from + m, n)
  {
    if n > 0 {
      LooksAddUp(expired, from, m, n - 1);
      assert from + m + (n - 1) == from + (m + n) - 1;
    }
  }

  lemma {:induction false} LooksEnd(expired: nat -> bool, from: nat, n: nat, end: nat)
    requires forall k: nat :: k >= end ==> expired(k)
    ensures LooksInTime(expired, from, n) <= if from <= end then end - from else 0
    ensures LooksInTime(expired, from, n) <= n
  {
    if n > 0 { LooksEnd(expired, from, n - 1, end); }
  }

  /** A batch that is not cut makes at most one insert. */
  lemma WholeReport<T>(rows: seq<T>, answer: nat -> InsertResult, expired: nat -> bool, calls: nat, checks: nat)
    requires |rows| <= 1 || expired(checks) || answer(calls).Inserted?
    ensures var r := IsolatePoison(rows, answer, expired, calls, checks);
            && r.checks == (if rows == [] then 0 else 1)
            && r.calls == if rows == [] || expired(checks) then [] else [Call(rows, answer(calls))]
  {
  }

  ghost predicate InTurn<T>(made: seq<Call<T>>, answer: nat -> InsertResult, calls: nat) {
    forall i :: 0 <= i < |made| ==> made[i].result == answer(calls + i)
  }

  lemma InTurnJoin<T>(first: Call<T>, l: seq<Call<T>>, r: seq<Call<T>>, answer: nat -> InsertResult, calls: nat)
    requires first.result == answer(calls) && InTurn(l, answer, calls + 1) && InTurn(r, answer, calls + 1 + |l|)
    ensures InTurn([first] + l + r, answer, calls)
  {
    var all := [first] + l + r;
    forall i | 0 <= i < |all| ensures all[i].result == answer(calls + i) {
      if 0 < i <= |l| {
        assert all[i] == l[i - 1] && calls + 1 + (i - 1) == calls + i;
      } else if i > 0 {
        assert all[i] == r[i - 1 - |l|] && calls + 1 + |l| + (i - 1 - |l|) == calls + i;
      }
    }
  }

  /** One look before each insert and one insert after each look that finds time left, and
      the inserts get the store's answers in their order. */
  lemma {:induction false} EveryInsertWasInTime<T>(
      rows: seq<T>, answer: nat -> InsertResult, expired: nat -> bool, calls: nat, checks: nat)
    ensures var r := IsolatePoison(rows, answer, expired, calls, checks);
            |r.calls| == LooksInTime(expired, checks, r.checks) && InTurn(r.calls, answer, calls)
    decreases |rows|
  {
    hide IsolatePoison, InTurn, LooksInTime;
    FirstLook(expired, checks);
    if |rows| > 1 && !expired(checks) && !answer(calls).Inserted? {
      var x, y := rows[..|rows| / 2], rows[|rows| / 2..];
      var l := IsolatePoison(x, answer, expired, calls + 1, checks + 1);
      var r := IsolatePoison(y, answer, expired, calls + 1 + |l.calls|, checks + 1 + l.checks);
      CutReport(rows, answer, expired, calls, checks, l, r);
      EveryInsertWasInTime(x, answer, expired, calls + 1, checks + 1);
      EveryInsertWasInTime(y, answer, expired, calls + 1 + |l.calls|, checks + 1 + l.checks);
      JoinedLooks(expired, checks, l.checks, r.checks);
      InTurnJoin(Call(rows, answer(calls)), l.calls, r.calls, answer, calls);
    } else {
      WholeReport(rows, answer, expired, calls, checks);
      OneInTurn(rows, answer, calls);
    }
  }

  lemma JoinedLooks(expired: nat -> bool, checks: nat, l: nat, r: nat)
    requires !expired(checks)
    ensures LooksInTime(expired, checks, 1 + l + r)
         == 1 + LooksInTime(expired, checks + 1, l) + LooksInTime(expired, checks + 1 + l, r)
  {
    FirstLook(expired, checks);
    LooksAddUp(expired, checks, 1, l);
    LooksAddUp(expired, checks, 1 + l, r);
    hide LooksInTime;
  }

  lemma OneInTurn<T>(rows: seq<T>, answer: nat -> InsertResult, calls: nat)
    ensures InTurn<T>([], answer, calls) && InTurn([Call(rows, answer(calls))], answer, calls)
  {
  }

  lemma FirstLook(expired: nat -> bool, from: nat)
    ensures LooksInTime(expired, from, 0) == 0 && LooksInTime(expired, from, 1) == if expired(from) then 0 else 1
  {
    assert LooksInTime(expired, from, 0) == 0;
  }

  /** So once the deadline has passed nothing is inserted any more: a deadline that is found
      passed from the end-th look on leaves at most end inserts, and none if it had passed. */
  lemma NoInsertPastTheDeadline<T>(rows: seq<T>, answer: nat -> InsertResult, expired: nat -> bool, end: nat)
    requires forall k: nat :: k >= end ==> expired(k)
    ensures |IsolatePoison(rows, answer, expired, 0, 0).calls| <= end
    ensures end == 0 ==> IsolatePoison(rows, answer, expired, 0, 0).unresolved == rows
  {
    EveryInsertWasInTime(rows, answer, expired, 0, 0);
    LooksEnd(expired, 0, IsolatePoison(rows, answer, expired, 0, 0).checks, end);
  }

  function PowerOfTwo(h: nat): nat {
    if h == 0 then 1 else 2 * PowerOfTwo(h - 1)
  }

  lemma FilterFirst<T>(bad: T -> bool, want: bool, rows: seq<T>)
    requires rows != []
    ensures Filter(bad, want, rows) == (if bad(rows[0]) == want then [rows[0]] else []) + Filter(bad, want, rows[1..])
  {
  }

  lemma {:induction false} FilterConcat<T>(bad: T -> bool, want: bool, x: seq<T>, y: seq<T>)
    ensures Filter(bad, want, x + y) == Filter(bad, want, x) + Filter(bad, want, y)
  {
    if x == [] {
      assert x + y == y && Filter(bad, want, x) == [];
    } else {
      assert (x + y)[1..] == x[1..] + y;
      FilterFirst(bad, want, x);
      FilterFirst(bad, want, x + y);
      FilterConcat(bad, want, x[1..], y);
      hide Filter;
    }
  }

  lemma {:induction false} NoneFiltered<T(!new)>(bad: T -> bool, rows: seq<T>)
    ensures Filter(bad, true, rows) == [] <==> forall x :: x in rows ==> !bad(x)
  {
    if rows != [] {
      NoneFiltered(bad, rows[1..]);
      assert rows == [rows[0]] + rows[1..];
    }
  }

  lemma BudgetSplits(h: nat, k: nat, m: nat)
    requires h > 0 && k + m > 0
    ensures 1 + (1 + 2 * (h - 1) * k) + (1 + 2 * (h - 1) * m) <= 1 + 2 * h * (k + m)
  {
    assert 2 * h * (k + m) == 2 * (h - 1) * k + 2 * (h - 1) * m + 2 * (k + m);
  }

  /** Halving is what makes it cheap: each of the bad rows among at most 2^h costs at most
      2h inserts beyond the first. */
  lemma {:induction false} BadRowsCostTheirDepth<T(!new)>(
      rows: seq<T>, answer: nat -> InsertResult, expired: nat -> bool, bad: T -> bool, calls: nat, checks: nat, h: nat)
    requires FailedExactlyOn(IsolatePoison(rows, answer, expired, calls, checks).calls, bad) && |rows| <= PowerOfTwo(h)
    ensures |IsolatePoison(rows, answer, expired, calls, checks).calls| <= 1 + 2 * h * |Filter(bad, true, rows)|
    decreases |rows|
  {
    hide IsolatePoison, FailedExactlyOn, Filter;
    if |rows| > 1 && !expired(checks) && !answer(calls).Inserted? {
      var x, y := rows[..|rows| / 2], rows[|rows| / 2..];
      var l := IsolatePoison(x, answer, expired, calls + 1, checks + 1);
      var r := IsolatePoison(y, answer, expired, calls + 1 + |l.calls|, checks + 1 + l.checks);
      CutReport(rows, answer, expired, calls, checks, l, r);
      SomeoneIsBad(Call(rows, answer(calls)), l.calls, r.calls, bad);
      BadRowsCostTheirDepth(x, answer, expired, bad, calls + 1, checks + 1, h - 1);
      BadRowsCostTheirDepth(y, answer, expired, bad, calls + 1 + |l.calls|, checks + 1 + l.checks, h - 1);
      assert rows == x + y;
      FilterConcat(bad, true, x, y);
      BudgetSplits(h, |Filter(bad, true, x)|, |Filter(bad, true, y)|);
    } else {
      WholeReport(rows, answer, expired, calls, checks);
      assert 2 * h * |Filter(bad, true, rows)| >= 0;
    }
  }

  /** A refused batch holds a bad row, and its halves fail on the same rows. */
  lemma SomeoneIsBad<T(!new)>(first: Call<T>, l: seq<Call<T>>, r: seq<Call<T>>, bad: T -> bool)
    requires FailedExactlyOn([first] + l + r, bad) && !first.result.Inserted?
    ensures FailedExactlyOn(l, bad) && FailedExactlyOn(r, bad) && |Filter(bad, true, first.rows)| > 0
  {
    var all := [first] + l + r;
    assert all[0] in all && (forall c :: c in l ==> c in all) && forall c :: c in r ==> c in all;
    NoneFiltered(bad, first.rows);
  }
}
