/** SendStepIfDue as the code runs it, over the same rows, levels and outbox as the
    protocol, and the proof that each of its calls is a run of the protocol. */
module StepSender {
  import opened Escalation

  /** won without what was enqueued, in order. */
  function Without(won: seq<int>, skip: set<int>): seq<int> {
    if won == [] then []
    else Without(won[..|won| - 1], skip) + if won[|won| - 1] in skip then [] else [won[|won| - 1]]
  }

  lemma {:induction false} WithoutElements(won: seq<int>, skip: set<int>)
    ensures forall c :: c in Without(won, skip) <==> c in won && c !in skip
  {
    if won != [] {
      WithoutElements(won[..|won| - 1], skip);
      assert won == won[..|won| - 1] + [won[|won| - 1]];
    }
  }

  function Elements(s: seq<int>): set<int> {
    set c | c in s
  }

  /** Of the claimed channels those that were not accepted are left over. */
  lemma LeftOver(won: seq<int>, enqueued: seq<int>, accepts: set<int>)
    requires Elements(enqueued) == Elements(won) * accepts
    ensures Elements(Without(won, Elements(enqueued))) == Elements(won) - accepts
  {
    WithoutElements(won, Elements(enqueued));
    forall c ensures c in Elements(Without(won, Elements(enqueued))) <==> c in Elements(won) - accepts {
      assert c in Elements(enqueued) <==> c in Elements(won) * accepts;
    }
  }

  method Difference(won: seq<int>, enqueued: seq<int>) returns (out: seq<int>)
    ensures out == Without(won, Elements(enqueued))
  {
    var skip: set<int> := {};
    for i := 0 to |enqueued|
      invariant skip == set e | e in enqueued[..i]
    {
      skip := skip + {enqueued[i]};
    }
    assert enqueued[..|enqueued|] == enqueued;
    assert skip == Elements(enqueued);
    out := [];
    for i := 0 to |won|
      invariant out == Without(won[..i], skip)
    {
      assert won[..i + 1][..i] == won[..i];
      if won[i] !in skip {
        out := out + [won[i]];
      }
    }
    assert won[..|won|] == won;
  }

  function Queue(incident: int, step: nat, channels: seq<int>): seq<Slot> {
    seq(|channels|, i requires 0 <= i < |channels| => Slot(incident, step, channels[i]))
  }

  ghost predicate NoRepeats(s: seq<int>) {
    forall i, j :: 0 <= i < j < |s| ==> s[i] != s[j]
  }

  lemma HasElement(s: seq<int>)
    ensures s != [] ==> Elements(s) != {}
  {
    if s != [] { assert s[0] in Elements(s); }
  }

  lemma Append(s: seq<int>, c: int)
    ensures Elements(s + [c]) == Elements(s) + {c}
    ensures NoRepeats(s) && c !in Elements(s) ==> NoRepeats(s + [c])
  {
  }

  /** What one call does when nothing interleaves. accepts: the channels that are
      deliverable and whose enqueue succeeds; notifyErr: the notifier reports an
      error; releaseOk: the DELETE goes through. */
  datatype Outcome = Outcome(rows: set<Slot>, levels: map<int, nat>, queued: set<int>, sent: bool)

  function Bump(levels: map<int, nat>, incident: int, from: nat): map<int, nat> {
    if incident in levels && levels[incident] == from then levels[incident := from + 1] else levels
  }

  function SendSpec(rows: set<Slot>, levels: map<int, nat>, ladder: Ladder, incident: int, level: nat, elapsed: int,
                    accepts: set<int>, notifyErr: bool, releaseOk: bool): Outcome
  {
    var bumped := Bump(levels, incident, level);
    var moves := incident in levels && levels[incident] == level;
    if level >= |ladder| || elapsed < ladder[level].delay then Outcome(rows, levels, {}, false)
    else if ladder[level].channels == [] then Outcome(rows, bumped, {}, moves)
    else
      var won := Won(rows, incident, level, ladder[level].channels);
      if won == {} then Outcome(rows, bumped, {}, moves)
      else
        var queued := won * accepts;
        var kept := rows + Slots(incident, level, if releaseOk then queued else won);
        if notifyErr && queued == {} then Outcome(kept, levels, {}, false)
        else Outcome(kept, bumped, queued, moves)
  }

  /** The ladder's delay for the level has passed. */
  predicate IsDue(ladder: Ladder, level: nat, elapsed: int) {
    level < |ladder| && elapsed >= ladder[level].delay
  }

  /** The one thing that holds a due step back: channels were left to claim, none of them
      took the notification, and the notifier said so. */
  ghost predicate NobodyToldAloud(rows: set<Slot>, incident: int, level: nat, channels: seq<int>, accepts: set<int>, notifyErr: bool) {
    && notifyErr && (exists c :: c in channels && Slot(incident, level, c) !in rows)
    && forall c :: c in channels && Slot(incident, level, c) !in rows ==> c !in accepts
  }

  /** A call, row by row and not by the order of its statements: a due step on the level it
      was read at passes unless nobody was told aloud, and nothing else moves a level; the
      channels told are those without a row that accept; their rows are added, and the
      rows of the others only stay when the release fails. */
  lemma CallMeans(rows: set<Slot>, levels: map<int, nat>, ladder: Ladder, incident: int, level: nat, elapsed: int,
                  accepts: set<int>, notifyErr: bool, releaseOk: bool)
    ensures var o := SendSpec(rows, levels, ladder, incident, level, elapsed, accepts, notifyErr, releaseOk);
            var channels := if IsDue(ladder, level, elapsed) then ladder[level].channels else [];
            && (o.sent <==> && incident in levels && levels[incident] == level && IsDue(ladder, level, elapsed)
                            && !NobodyToldAloud(rows, incident, level, channels, accepts, notifyErr))
            && o.levels == (if o.sent then levels[incident := level + 1] else levels)
            && (forall c :: c in o.queued <==> c in channels && c in accepts && Slot(incident, level, c) !in rows)
            && (forall x :: x in o.rows <==>
                  x in rows || (x.incident == incident && x.step == level && x.channel in channels
                                && (x.channel in accepts || !releaseOk)))
  {
    if IsDue(ladder, level, elapsed) {
      var channels := ladder[level].channels;
      WonMeans(rows, incident, level, channels, accepts);
      KeptMeans(rows, incident, level, channels, accepts, releaseOk);
      if channels == [] { assert Won(rows, incident, level, channels) == {}; }
    }
  }

  lemma WonMeans(rows: set<Slot>, incident: int, level: nat, channels: seq<int>, accepts: set<int>)
    ensures var won := Won(rows, incident, level, channels);
            && (forall c :: c in won * accepts <==> c in channels && c in accepts && Slot(incident, level, c) !in rows)
            && (won == {} <==> forall c :: c in channels ==> Slot(incident, level, c) in rows)
            && (won * accepts == {} <==> forall c :: c in channels && Slot(incident, level, c) !in rows ==> c !in accepts)
  {
    var won := Won(rows, incident, level, channels);
    assert (forall c: int :: c !in won) ==> won == {};
    assert (forall c: int :: c !in won * accepts) ==> won * accepts == {};
    assert forall c :: c in channels && Slot(incident, level, c) !in rows ==> c in won;
  }

  /** The claims that stay after the release, slot by slot. */
  lemma KeptMeans(rows: set<Slot>, incident: int, level: nat, channels: seq<int>, accepts: set<int>, releaseOk: bool)
    ensures var won := Won(rows, incident, level, channels);
            var kept := rows + Slots(incident, level, if releaseOk then won * accepts else won);
            && (forall x :: x in kept <==>
                  x in rows || (x.incident == incident && x.step == level && x.channel in channels
                                && (x.channel in accepts || !releaseOk)))
            && (won == {} ==> kept == rows)
  {
    var won := Won(rows, incident, level, channels);
    var kept := rows + Slots(incident, level, if releaseOk then won * accepts else won);
    forall x ensures x in kept <==>
      x in rows || (x.incident == incident && x.step == level && x.channel in channels && (x.channel in accepts || !releaseOk))
    {
      if x.incident == incident && x.step == level {
        assert x == Slot(incident, level, x.channel);
        assert x.channel in won <==> x.channel in channels && x !in rows;
      }
    }
    if won == {} { assert won * accepts == {} && Slots(incident, level, {}) == {}; }
  }

  /** A step that an earlier tick claimed and then left, or that another replica took,
      never holds the ladder up: the next call on it passes it. */
  lemma ClaimedStepPasses(rows: set<Slot>, levels: map<int, nat>, ladder: Ladder, incident: int, level: nat, elapsed: int,
                          accepts: set<int>, notifyErr: bool, releaseOk: bool)
    requires incident in levels && levels[incident] == level && IsDue(ladder, level, elapsed)
    requires forall c :: c in ladder[level].channels ==> Slot(incident, level, c) in rows
    ensures SendSpec(rows, levels, ladder, incident, level, elapsed, accepts, notifyErr, releaseOk)
         == Outcome(rows, levels[incident := level + 1], {}, true)
  {
    CallMeans(rows, levels, ladder, incident, level, elapsed, accepts, notifyErr, releaseOk);
    var o := SendSpec(rows, levels, ladder, incident, level, elapsed, accepts, notifyErr, releaseOk);
    assert o.queued == {} by { assert forall c :: c !in o.queued; }
    assert o.rows == rows by { assert forall x :: x in o.rows ==> x in rows || x == Slot(incident, level, x.channel); }
  }

  lemma NoSlots(incident: int, step: nat)
    ensures Slots(incident, step, {}) == {}
  {
  }

  /** Releasing the claims that were not enqueued leaves those that were. */
  lemma SlotsKept(rows: set<Slot>, incident: int, step: nat, channels: seq<int>, won: set<int>, accepts: set<int>)
    requires won == Won(rows, incident, step, channels)
    ensures rows + Slots(incident, step, won) - Slots(incident, step, won - accepts)
         == rows + Slots(incident, step, won * accepts)
  {
    var kept, gone := Slots(incident, step, won * accepts), Slots(incident, step, won - accepts);
    assert Slots(incident, step, won) == kept + gone;
    assert gone !! rows && gone !! kept;
  }

  class Database {
    var rows: set<Slot>
    var levels: map<int, nat>
    var outbox: seq<Slot>

    constructor ()
      ensures rows == {} && levels == map[] && outbox == []
    {
      rows, levels, outbox := {}, map[], [];
    }

    method ClaimStepChannels(incident: int, step: nat, channels: seq<int>) returns (won: seq<int>)
      modifies this`rows
      ensures NoRepeats(won) && Elements(won) == Won(old(rows), incident, step, channels)
      ensures rows == old(rows) + Slots(incident, step, Elements(won))
    {
      won := [];
      ghost var before := rows;
      for i := 0 to |channels|
        invariant NoRepeats(won) && Elements(won) == Won(before, incident, step, channels[..i])
        invariant rows == before + Slots(incident, step, Elements(won))
      {
        var c := channels[i];
        assert channels[..i + 1] == channels[..i] + [c];
        Append(channels[..i], c);
        Append(won, c);
        if Slot(incident, step, c) !in rows {
          rows := rows + {Slot(incident, step, c)};
          won := won + [c];
        }
      }
      assert channels[..|channels|] == channels;
    }

    method ReleaseStepChannels(incident: int, step: nat, channels: seq<int>, ok: bool)
      modifies this`rows
      ensures rows == if ok then old(rows) - Slots(incident, step, Elements(channels)) else old(rows)
    {
      if |channels| > 0 && ok {
        rows := rows - Slots(incident, step, Elements(channels));
      }
    }

    method BumpEscalation(incident: int, from: nat) returns (done: bool)
      modifies this`levels
      ensures levels == Bump(old(levels), incident, from)
      ensures done <==> incident in old(levels) && old(levels)[incident] == from
    {
      done := incident in levels && levels[incident] == from;
      levels := Bump(levels, incident, from);
    }

    /** One enqueue per accepted channel. */
    method NotifyStep(incident: int, step: nat, channels: seq<int>, accepts: set<int>) returns (enqueued: seq<int>)
      requires NoRepeats(channels)
      modifies this`outbox
      ensures NoRepeats(enqueued) && Elements(enqueued) == Elements(channels) * accepts
      ensures outbox == old(outbox) + Queue(incident, step, enqueued)
    {
      enqueued := [];
      for i := 0 to |channels|
        invariant NoRepeats(enqueued) && Elements(enqueued) == Elements(channels[..i]) * accepts
        invariant outbox == old(outbox) + Queue(incident, step, enqueued)
      {
        assert channels[..i + 1] == channels[..i] + [channels[i]];
        Append(channels[..i], channels[i]);
        Append(enqueued, channels[i]);
        assert channels[i] !in channels[..i];
        if channels[i] in accepts {
          assert Queue(incident, step, enqueued + [channels[i]]) == Queue(incident, step, enqueued) + [Slot(incident, step, channels[i])];
          outbox := outbox + [Slot(incident, step, channels[i])];
          enqueued := enqueued + [channels[i]];
        }
      }
      assert channels[..|channels|] == channels;
    }

    method SendStepIfDue(ladder: Ladder, incident: int, level: nat, elapsed: int,
                         accepts: set<int>, notifyErr: bool, releaseOk: bool)
      returns (sent: bool)
      modifies this
      ensures var o := SendSpec(old(rows), old(levels), ladder, incident, level, elapsed, accepts, notifyErr, releaseOk);
              && rows == o.rows && levels == o.levels && sent == o.sent
              && exists q :: NoRepeats(q) && Elements(q) == o.queued && outbox == old(outbox) + Queue(incident, level, q)
      ensures sent <==>
                && incident in old(levels) && old(levels)[incident] == level && IsDue(ladder, level, elapsed)
                && !NobodyToldAloud(old(rows), incident, level, ladder[level].channels, accepts, notifyErr)
      ensures levels == if sent then old(levels)[incident := level + 1] else old(levels)
    {
      CallMeans(rows, levels, ladder, incident, level, elapsed, accepts, notifyErr, releaseOk);
      NoSlots(incident, level);
      hide Slots, Won;
      assert outbox == old(outbox) + Queue(incident, level, []) && Elements([]) == {};
      if level >= |ladder| { return false; }
      if elapsed < ladder[level].delay { return false; }
      var channels := ladder[level].channels;
      if |channels| == 0 {
        sent := BumpEscalation(incident, level);
        return;
      }
      var won := ClaimStepChannels(incident, level, channels);
      if |won| == 0 {
        assert rows == old(rows);
        sent := BumpEscalation(incident, level);
        return;
      }
      assert won[0] in Elements(won);
      var enqueued := NotifyStep(incident, level, won, accepts);
      var unsent := Difference(won, enqueued);
      LeftOver(won, enqueued, accepts);
      SlotsKept(old(rows), incident, level, channels, Elements(won), accepts);
      ReleaseStepChannels(incident, level, unsent, releaseOk);
      if notifyErr && |enqueued| == 0 {
        return false;
      }
      assert enqueued != [] ==> enqueued[0] in Elements(enqueued);
      sent := BumpEscalation(incident, level);
    }
  }

  // ----- each call is a run of the protocol -----

  /** Steps of the protocol from run[0] to its last state. */
  ghost predicate Steps(run: seq<State>) {
    |run| > 0 && forall i :: 0 <= i < |run| - 1 ==> Step(run[i], run[i + 1])
  }

  lemma Go(run: seq<State>, r: int, s': State) returns (longer: seq<State>)
    requires Steps(run) && r in run[|run| - 1].pcs && r in s'.pcs
    requires s'.pcs == run[|run| - 1].pcs[r := s'.pcs[r]]
    requires ReplicaStep(run[|run| - 1], run[|run| - 1].pcs[r], s', s'.pcs[r])
    ensures Steps(longer) && longer[0] == run[0] && longer[|longer| - 1] == s'
  {
    longer := run + [s'];
    forall i | 0 <= i < |longer| - 1 ensures Step(longer[i], longer[i + 1]) {
      if i < |run| - 1 { assert longer[i] == run[i] && longer[i + 1] == run[i + 1]; }
    }
  }

  /** The notifier's loop as enqueue steps. */
  lemma {:induction false} EnqueueAll(run0: seq<State>, r: int, q: seq<int>) returns (run: seq<State>)
    requires Steps(run0) && r in run0[|run0| - 1].pcs && run0[|run0| - 1].pcs[r].Notifying?
    requires var pc := run0[|run0| - 1].pcs[r]; pc.todo == pc.won && pc.enqueued == {} && NoRepeats(q) && Elements(q) <= pc.won
    ensures var s := run0[|run0| - 1]; var pc := s.pcs[r];
            && Steps(run) && run[0] == run0[0]
            && run[|run| - 1] == s.(outbox := s.outbox + Queue(pc.incident, pc.step, q),
                                    pcs := s.pcs[r := pc.(todo := pc.won - Elements(q), enqueued := Elements(q))])
    decreases |q|
  {
    var s := run0[|run0| - 1];
    var pc := s.pcs[r];
    if q == [] {
      run := run0;
      assert s.pcs[r := pc] == s.pcs;
      assert s.outbox + Queue(pc.incident, pc.step, q) == s.outbox;
      assert pc.won - Elements(q) == pc.won && Elements(q) == {};
    } else {
      var init, c := q[..|q| - 1], q[|q| - 1];
      assert q == init + [c] && c !in init;
      assert Elements(q) == Elements(init) + {c};
      run := EnqueueAll(run0, r, init);
      var s1 := run[|run| - 1];
      var pc1 := s1.pcs[r];
      var pc2 := pc.(todo := pc.won - Elements(q), enqueued := Elements(q));
      assert c in pc1.todo && pc1.todo - {c} == pc2.todo;
      var s2 := s1.(outbox := s1.outbox + [Slot(pc.incident, pc.step, c)], pcs := s1.pcs[r := pc2]);
      assert EnqueueStep(s1, pc1, s2, pc2, c);
      run := Go(run, r, s2);
      assert Queue(pc.incident, pc.step, q) == Queue(pc.incident, pc.step, init) + [Slot(pc.incident, pc.step, c)];
      assert s1.pcs[r := pc2] == s.pcs[r := pc2];
    }
  }

  /** Whatever a call of SendStepIfDue does, a replica of the protocol can do, so the
      protocol's theorems speak about the code's calls. */
  lemma SendIsProtocolRun(s: State, r: int, ladder: Ladder, incident: int, level: nat, elapsed: int,
                          accepts: set<int>, notifyErr: bool, releaseOk: bool, q: seq<int>)
    returns (run: seq<State>)
    requires r in s.pcs && s.pcs[r] == Idle && incident in s.levels && level <= s.levels[incident]
    requires NoRepeats(q)
    requires Elements(q) == SendSpec(s.rows, s.levels, ladder, incident, level, elapsed, accepts, notifyErr, releaseOk).queued
    ensures var o := SendSpec(s.rows, s.levels, ladder, incident, level, elapsed, accepts, notifyErr, releaseOk);
            && Steps(run) && run[0] == s
            && var end := run[|run| - 1];
               && end.rows == o.rows && end.levels == o.levels && end.pcs == s.pcs
               && end.outbox == s.outbox + Queue(incident, level, q)
  {
    var o := SendSpec(s.rows, s.levels, ladder, incident, level, elapsed, accepts, notifyErr, releaseOk);
    var s1 := s.(pcs := s.pcs[r := Read(incident, level)]);
    run := Go([s], r, s1);
    if level >= |ladder| || elapsed < ladder[level].delay {
      Empty(s, q, incident, level);
      var s2 := s1.(pcs := s1.pcs[r := Idle]);
      assert DecideStep(s1, s1.pcs[r], s2, Idle, ladder, elapsed);
      run := Go(run, r, s2);
      assert s2.pcs == s.pcs;
    } else if ladder[level].channels == [] {
      Empty(s, q, incident, level);
      var s2 := s1.(pcs := s1.pcs[r := Bumping(incident, level, [])]);
      assert DecideStep(s1, s1.pcs[r], s2, s2.pcs[r], ladder, elapsed);
      run := Go(run, r, s2);
      run := BumpLast(run, r);
      assert run[|run| - 1].pcs == s.pcs;
    } else {
      var channels := ladder[level].channels;
      var s2 := s1.(pcs := s1.pcs[r := Due(incident, level, channels, elapsed, ladder[level].delay)]);
      assert DecideStep(s1, s1.pcs[r], s2, s2.pcs[r], ladder, elapsed);
      run := Go(run, r, s2);
      run := ClaimOn(run, r, accepts, notifyErr, releaseOk, q);
      assert run[|run| - 1].pcs == s.pcs;
    }
  }

  lemma Empty(s: State, q: seq<int>, incident: int, level: nat)
    requires Elements(q) == {}
    ensures s.outbox + Queue(incident, level, q) == s.outbox
  {
    HasElement(q);
  }

  lemma BumpLast(run0: seq<State>, r: int) returns (run: seq<State>)
    requires Steps(run0) && r in run0[|run0| - 1].pcs && run0[|run0| - 1].pcs[r].Bumping?
    ensures Steps(run) && run[0] == run0[0]
    ensures var s := run0[|run0| - 1]; var end := run[|run| - 1];
            && end.rows == s.rows && end.outbox == s.outbox
            && end.levels == Bump(s.levels, s.pcs[r].incident, s.pcs[r].step)
            && end.pcs == s.pcs[r := Idle]
  {
    var s := run0[|run0| - 1];
    var pc := s.pcs[r];
    if pc.incident in s.levels && s.levels[pc.incident] == pc.step {
      run := Go(run0, r, s.(levels := s.levels[pc.incident := pc.step + 1],
                            log := s.log + [Bumped(pc.incident, pc.step, pc.channels)], pcs := s.pcs[r := Idle]));
    } else {
      run := Go(run0, r, s.(pcs := s.pcs[r := Idle]));
    }
  }

  /** From the claim to the end. */
  lemma ClaimOn(run0: seq<State>, r: int, accepts: set<int>, notifyErr: bool, releaseOk: bool, q: seq<int>)
    returns (run: seq<State>)
    requires Steps(run0) && r in run0[|run0| - 1].pcs && run0[|run0| - 1].pcs[r].Due?
    requires NoRepeats(q)
    requires var s := run0[|run0| - 1]; Elements(q) == Won(s.rows, s.pcs[r].incident, s.pcs[r].step, s.pcs[r].channels) * accepts
    ensures Steps(run) && run[0] == run0[0]
    ensures var s := run0[|run0| - 1]; var pc := s.pcs[r];
            var won := Won(s.rows, pc.incident, pc.step, pc.channels);
            var end := run[|run| - 1];
            && end.pcs == s.pcs[r := Idle]
            && end.outbox == s.outbox + Queue(pc.incident, pc.step, q)
            && end.rows == s.rows + Slots(pc.incident, pc.step, if releaseOk then won * accepts else won)
            && end.levels == if won != {} && notifyErr && won * accepts == {} then s.levels
                             else Bump(s.levels, pc.incident, pc.step)
  {
    var s := run0[|run0| - 1];
    var pc := s.pcs[r];
    var i, step := pc.incident, pc.step;
    var won := Won(s.rows, i, step, pc.channels);
    if won == {} {
      Empty(s, q, i, step);
      run := Go(run0, r, s.(pcs := s.pcs[r := Bumping(i, step, pc.channels)]));
      run := BumpLast(run, r);
      assert Slots(i, step, won * accepts) == {} && Slots(i, step, won) == {};
    } else {
      var s1 := s.(rows := s.rows + Slots(i, step, won),
                   log := s.log + [Claimed(i, step, won, pc.elapsed, pc.delay)],
                   pcs := s.pcs[r := Notifying(i, step, pc.channels, won, won, {})]);
      run := Go(run0, r, s1);
      run := EnqueueAll(run, r, q);
      var s2 := run[|run| - 1];
      var s3 := s2.(pcs := s2.pcs[r := Releasing(i, step, pc.channels, won, Elements(q), notifyErr)]);
      assert ReturnStep(s2, s2.pcs[r], s3, s3.pcs[r], notifyErr);
      run := Go(run, r, s3);
      run := ReleaseOn(run, r, releaseOk);
      assert s.rows + Slots(i, step, won) - Slots(i, step, won - Elements(q)) == s.rows + Slots(i, step, won * accepts);
    }
  }

  lemma ReleaseOn(run0: seq<State>, r: int, ok: bool) returns (run: seq<State>)
    requires Steps(run0) && r in run0[|run0| - 1].pcs && run0[|run0| - 1].pcs[r].Releasing?
    ensures Steps(run) && run[0] == run0[0]
    ensures var s := run0[|run0| - 1]; var pc := s.pcs[r];
            var end := run[|run| - 1];
            && end.pcs == s.pcs[r := Idle] && end.outbox == s.outbox
            && end.rows == (if ok then s.rows - Slots(pc.incident, pc.step, pc.won - pc.enqueued) else s.rows)
            && end.levels == if pc.failed && pc.enqueued == {} then s.levels else Bump(s.levels, pc.incident, pc.step)
  {
    var s := run0[|run0| - 1];
    var pc := s.pcs[r];
    var next := if pc.failed && pc.enqueued == {} then Idle else Bumping(pc.incident, pc.step, pc.channels);
    var s1 := s.(rows := if ok then s.rows - Slots(pc.incident, pc.step, pc.won - pc.enqueued) else s.rows,
                 pcs := s.pcs[r := next]);
    assert ReleaseStep(s, pc, s1, next, ok);
    run := Go(run0, r, s1);
    if next.Bumping? {
      run := BumpLast(run, r);
    }
  }
}
