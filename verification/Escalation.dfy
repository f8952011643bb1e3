/** Claim, notify, release, bump: the escalation of one source's incidents by any
    number of replicas. Each SQL statement and each enqueue is one atomic step; a
    replica may give up between any two. */
module Escalation {

  /** A row of incident_escalations, and equally one notification. */
  datatype Slot = Slot(incident: int, step: nat, channel: int)

  datatype Rung = Rung(delay: int, channels: seq<int>)

  type Ladder = seq<Rung>

  function Slots(incident: int, step: nat, channels: set<int>): set<Slot> {
    set c | c in channels :: Slot(incident, step, c)
  }

  /** INSERT .. ON CONFLICT DO NOTHING RETURNING: the channels this call wins. */
  function Won(rows: set<Slot>, incident: int, step: nat, channels: seq<int>): set<int> {
    set c | c in channels && Slot(incident, step, c) !in rows
  }

  /** What has happened, in order: claims that won something, and level bumps. */
  datatype Event =
    | Claimed(incident: int, step: nat, won: set<int>, elapsed: int, delay: int)
    | Bumped(incident: int, from: nat, channels: seq<int>)

  /** Between which two statements of SendStepIfDue a replica stands. */
  datatype Pc =
    | Idle
    | Read(incident: int, step: nat)
    | Due(incident: int, step: nat, channels: seq<int>, elapsed: int, delay: int)
    | Notifying(incident: int, step: nat, channels: seq<int>, won: set<int>, todo: set<int>, enqueued: set<int>)
    | Releasing(incident: int, step: nat, channels: seq<int>, won: set<int>, enqueued: set<int>, failed: bool)
    | Bumping(incident: int, step: nat, channels: seq<int>)

  datatype State = State(
    rows: set<Slot>, levels: map<int, nat>, outbox: seq<Slot>, log: seq<Event>, pcs: map<int, Pc>)

  // ----- the steps -----

  /** The level a replica works from was read earlier and may be stale. */
  ghost predicate ReadStep(s: State, s': State, pc': Pc) {
    s' == s.(pcs := s'.pcs) && pc'.Read? && pc'.incident in s.levels && pc'.step <= s.levels[pc'.incident]
  }

  /** The gates before the claim, against whatever ladder this tick resolved. */
  ghost predicate DecideStep(s: State, pc: Pc, s': State, pc': Pc, ladder: Ladder, elapsed: int) {
    && pc.Read? && s' == s.(pcs := s'.pcs)
    && pc' == if pc.step >= |ladder| || elapsed < ladder[pc.step].delay then Idle
              else if ladder[pc.step].channels == [] then Bumping(pc.incident, pc.step, [])
              else Due(pc.incident, pc.step, ladder[pc.step].channels, elapsed, ladder[pc.step].delay)
  }

  ghost predicate ClaimStep(s: State, pc: Pc, s': State, pc': Pc) {
    pc.Due? &&
    var won := Won(s.rows, pc.incident, pc.step, pc.channels);
    if won == {} then
      s' == s.(pcs := s'.pcs) && pc' == Bumping(pc.incident, pc.step, pc.channels)
    else
      && s' == s.(rows := s.rows + Slots(pc.incident, pc.step, won),
                  log := s.log + [Claimed(pc.incident, pc.step, won, pc.elapsed, pc.delay)], pcs := s'.pcs)
      && pc' == Notifying(pc.incident, pc.step, pc.channels, won, won, {})
  }

  /** One channel enters the outbox. */
  ghost predicate EnqueueStep(s: State, pc: Pc, s': State, pc': Pc, c: int) {
    && pc.Notifying? && c in pc.todo
    && s' == s.(outbox := s.outbox + [Slot(pc.incident, pc.step, c)], pcs := s'.pcs)
    && pc' == pc.(todo := pc.todo - {c}, enqueued := pc.enqueued + {c})
  }

  /** The notifier returns, with or without an error, having skipped or failed the rest. */
  ghost predicate ReturnStep(s: State, pc: Pc, s': State, pc': Pc, failed: bool) {
    && pc.Notifying? && s' == s.(pcs := s'.pcs)
    && pc' == Releasing(pc.incident, pc.step, pc.channels, pc.won, pc.enqueued, failed)
  }

  /** DELETE of the unsent rows, which may itself fail. */
  ghost predicate ReleaseStep(s: State, pc: Pc, s': State, pc': Pc, ok: bool) {
    && pc.Releasing?
    && s' == s.(rows := if ok then s.rows - Slots(pc.incident, pc.step, pc.won - pc.enqueued) else s.rows, pcs := s'.pcs)
    && pc' == if pc.failed && pc.enqueued == {} then Idle else Bumping(pc.incident, pc.step, pc.channels)
  }

  /** UPDATE .. WHERE escalation_level = from. */
  ghost predicate BumpStep(s: State, pc: Pc, s': State, pc': Pc) {
    && pc.Bumping? && pc' == Idle
    && s' == if pc.incident in s.levels && s.levels[pc.incident] == pc.step
             then s.(levels := s.levels[pc.incident := pc.step + 1],
                     log := s.log + [Bumped(pc.incident, pc.step, pc.channels)], pcs := s'.pcs)
             else s.(pcs := s'.pcs)
  }

  ghost predicate ReplicaStep(s: State, pc: Pc, s': State, pc': Pc) {
    || (pc.Idle? && ReadStep(s, s', pc'))
    || (exists ladder, elapsed :: DecideStep(s, pc, s', pc', ladder, elapsed))
    || ClaimStep(s, pc, s', pc')
    || (exists c :: EnqueueStep(s, pc, s', pc', c))
    || (exists failed :: ReturnStep(s, pc, s', pc', failed))
    || (exists ok :: ReleaseStep(s, pc, s', pc', ok))
    || BumpStep(s, pc, s', pc')
    || (pc' == Idle && s' == s.(pcs := s'.pcs))
  }

  ghost predicate Step(s: State, s': State) {
    || (exists r, pc' :: r in s.pcs && s'.pcs == s.pcs[r := pc'] && ReplicaStep(s, s.pcs[r], s', pc'))
    || (exists incident :: incident !in s.levels && s' == s.(levels := s.levels[incident := 0]))
  }

  ghost predicate Start(s: State) {
    s.rows == {} && s.levels == map[] && s.outbox == [] && s.log == []
    && forall r :: r in s.pcs ==> s.pcs[r] == Idle
  }

  ghost predicate Run(run: seq<State>) {
    |run| > 0 && Start(run[0]) && forall i :: 0 <= i < |run| - 1 ==> Step(run[i], run[i + 1])
  }

  // ----- at most once -----

  /** Rows a replica has won and may still delete or enqueue. */
  ghost function Held(pc: Pc): set<Slot> {
    match pc
    case Notifying(i, step, _, won, _, enqueued) => Slots(i, step, won - enqueued)
    case Releasing(i, step, _, won, enqueued, _) => Slots(i, step, won - enqueued)
    case _ => {}
  }

  ghost predicate Shaped(pc: Pc) {
    pc.Notifying? ==> pc.todo <= pc.won - pc.enqueued
  }

  ghost predicate Distinct(q: seq<Slot>) {
    forall i, j :: 0 <= i < j < |q| ==> q[i] != q[j]
  }

  ghost predicate OnceInv(s: State) {
    && Distinct(s.outbox)
    && (forall x :: x in s.outbox ==> x in s.rows)
    && (forall r :: r in s.pcs ==> Shaped(s.pcs[r]) && Held(s.pcs[r]) <= s.rows)
    && (forall r, x :: r in s.pcs && x in Held(s.pcs[r]) ==> x !in s.outbox)
    && (forall r, q :: r in s.pcs && q in s.pcs && r != q ==> Held(s.pcs[r]) !! Held(s.pcs[q]))
  }

  /** What one replica's statement may do to the shared rows and outbox, seen from
      outside: it inserts only absent rows, and deletes or enqueues only what it holds. */
  ghost predicate Fair(s: State, pc: Pc, s': State, pc': Pc) {
    && Shaped(pc') && Held(pc') <= s'.rows
    && s.rows - Held(pc) <= s'.rows
    && Held(pc') - Held(pc) !! s.rows
    && (s'.outbox == s.outbox
        || exists x :: x in Held(pc) && x !in Held(pc') && s'.rows == s.rows && s'.outbox == s.outbox + [x])
    && (s'.outbox == s.outbox || Held(pc') <= Held(pc))
  }

  lemma ReplicaStepIsFair(s: State, pc: Pc, s': State, pc': Pc)
    requires ReplicaStep(s, pc, s', pc') && Shaped(pc) && Held(pc) <= s.rows
    ensures Fair(s, pc, s', pc')
  {
    if c :| EnqueueStep(s, pc, s', pc', c) {
      var x := Slot(pc.incident, pc.step, c);
      assert x in Held(pc) && x !in Held(pc');
    }
  }

  lemma FairKeepsOnce(s: State, r: int, s': State, pc': Pc)
    requires OnceInv(s) && r in s.pcs && s'.pcs == s.pcs[r := pc'] && Fair(s, s.pcs[r], s', pc')
    ensures OnceInv(s')
  {
    if s'.outbox != s.outbox {
      var x :| x in Held(s.pcs[r]) && x !in Held(pc') && s'.rows == s.rows && s'.outbox == s.outbox + [x];
      forall i, j | 0 <= i < j < |s'.outbox| ensures s'.outbox[i] != s'.outbox[j] {
        assert s'.outbox[i] in s.outbox;
      }
    }
  }

  lemma StepKeepsOnce(s: State, s': State)
    requires OnceInv(s) && Step(s, s')
    ensures OnceInv(s')
  {
    if r, pc' :| r in s.pcs && s'.pcs == s.pcs[r := pc'] && ReplicaStep(s, s.pcs[r], s', pc') {
      ReplicaStepIsFair(s, s.pcs[r], s', pc');
      FairKeepsOnce(s, r, s', pc');
    }
  }

  /** Over every interleaving, crashes included, no notification is queued twice, and
      what is queued is still claimed. */
  lemma {:induction false} AtMostOnce(run: seq<State>)
    requires Run(run)
    ensures OnceInv(run[|run| - 1]) && Distinct(run[|run| - 1].outbox)
    decreases |run|
  {
    if |run| > 1 {
      AtMostOnce(run[..|run| - 1]);
      assert Step(run[|run| - 2], run[|run| - 2 + 1]);
      StepKeepsOnce(run[|run| - 2], run[|run| - 1]);
    }
  }

  // ----- levels and claims -----

  /** Successful bumps of an incident so far. */
  ghost function Bumps(log: seq<Event>, incident: int): nat {
    if log == [] then 0
    else Bumps(log[..|log| - 1], incident)
         + if log[|log| - 1].Bumped? && log[|log| - 1].incident == incident then 1 else 0
  }

  ghost predicate ClaimedDue(log: seq<Event>, x: Slot) {
    exists i :: 0 <= i < |log| && ClaimAt(log[i], x)
  }

  ghost predicate ClaimAt(e: Event, x: Slot) {
    e.Claimed? && e.incident == x.incident && e.step == x.step && x.channel in e.won && e.elapsed >= e.delay
  }

  /** A step without channels, or one of whose channels someone claimed when due. */
  ghost predicate Passable(log: seq<Event>, incident: int, step: nat, channels: seq<int>) {
    channels == [] || exists c :: c in channels && ClaimedDue(log, Slot(incident, step, c))
  }

  /** A bump recorded at i was the from-th of its incident, and legitimate by then. */
  ghost predicate BumpJustified(log: seq<Event>, i: nat)
    requires i < |log|
  {
    log[i].Bumped? ==>
      && log[i].from == Bumps(log[..i], log[i].incident)
      && Passable(log[..i], log[i].incident, log[i].from, log[i].channels)
  }

  ghost predicate PcClaim(log: seq<Event>, pc: Pc) {
    match pc
    case Due(_, _, channels, elapsed, delay) => elapsed >= delay && channels != []
    case Notifying(i, step, channels, _, _, _) => Passable(log, i, step, channels)
    case Releasing(i, step, channels, _, _, _) => Passable(log, i, step, channels)
    case Bumping(i, step, channels) => Passable(log, i, step, channels)
    case _ => true
  }

  ghost predicate LevelInv(s: State) {
    && (forall i :: 0 <= i < |s.log| ==> BumpJustified(s.log, i))
    && (forall x :: x in s.rows ==> ClaimedDue(s.log, x))
    && (forall r :: r in s.pcs ==> PcClaim(s.log, s.pcs[r]))
    && (forall k :: Bumps(s.log, k) == if k in s.levels then s.levels[k] else 0)
  }

  lemma LogGrows(log: seq<Event>, e: Event)
    ensures forall x :: ClaimedDue(log, x) ==> ClaimedDue(log + [e], x)
    ensures forall pc :: PcClaim(log, pc) ==> PcClaim(log + [e], pc)
    ensures forall k :: Bumps(log + [e], k) == Bumps(log, k) + if e.Bumped? && e.incident == k then 1 else 0
    ensures (forall i :: 0 <= i < |log| ==> BumpJustified(log, i)) ==>
              forall i :: 0 <= i < |log| ==> BumpJustified(log + [e], i)
  {
    var longer := log + [e];
    assert longer[..|log|] == log;
    forall x | ClaimedDue(log, x) ensures ClaimedDue(longer, x) {
      var i :| 0 <= i < |log| && ClaimAt(log[i], x);
      assert ClaimAt(longer[i], x);
    }
    if forall i :: 0 <= i < |log| ==> BumpJustified(log, i) {
      forall i | 0 <= i < |log| ensures BumpJustified(longer, i) {
        assert longer[..i] == log[..i] && longer[i] == log[i];
        assert BumpJustified(log, i);
      }
    }
  }

  lemma ClaimKeepsLevel(s: State, r: int, s': State, pc': Pc)
    requires LevelInv(s) && r in s.pcs && s'.pcs == s.pcs[r := pc'] && ClaimStep(s, s.pcs[r], s', pc')
    ensures LevelInv(s')
  {
    var pc := s.pcs[r];
    var won := Won(s.rows, pc.incident, pc.step, pc.channels);
    var c0 := pc.channels[0];
    assert c0 in pc.channels;
    if won == {} {
      assert c0 !in won && Slot(pc.incident, pc.step, c0) in s.rows;
    } else {
      var e := Claimed(pc.incident, pc.step, won, pc.elapsed, pc.delay);
      LogGrows(s.log, e);
      assert s'.log[|s.log|] == e;
      forall x | x in Slots(pc.incident, pc.step, won) ensures ClaimedDue(s'.log, x) {
        assert ClaimAt(s'.log[|s.log|], x);
      }
      var c :| c in won;
      assert c in pc.channels && Slot(pc.incident, pc.step, c) in Slots(pc.incident, pc.step, won);
    }
  }

  lemma BumpMayBump(log: seq<Event>, pc: Pc)
    ensures PcClaim(log, Idle)
    ensures pc.Bumping? && PcClaim(log, pc) ==> Passable(log, pc.incident, pc.step, pc.channels)
  {
  }

  lemma NewBump(log: seq<Event>, e: Event)
    requires e.Bumped? && e.from == Bumps(log, e.incident) && Passable(log, e.incident, e.from, e.channels)
    ensures BumpJustified(log + [e], |log|)
  {
    assert (log + [e])[..|log|] == log;
  }

  lemma BumpKeepsLevel(s: State, r: int, s': State, pc': Pc)
    requires LevelInv(s) && r in s.pcs && s'.pcs == s.pcs[r := pc'] && BumpStep(s, s.pcs[r], s', pc')
    ensures LevelInv(s')
  {
    hide PcClaim, Passable, ClaimedDue, BumpJustified, Bumps;
    var pc := s.pcs[r];
    BumpMayBump(s.log, pc);
    BumpMayBump(s'.log, pc);
    if pc.incident in s.levels && s.levels[pc.incident] == pc.step {
      var e := Bumped(pc.incident, pc.step, pc.channels);
      LogGrows(s.log, e);
      NewBump(s.log, e);
      forall i | 0 <= i < |s'.log| ensures BumpJustified(s'.log, i) {
        if i < |s.log| { assert BumpJustified(s.log, i); }
      }
    }
  }

  lemma StepKeepsLevel(s: State, s': State)
    requires LevelInv(s) && Step(s, s')
    ensures LevelInv(s')
  {
    if r, pc' :| r in s.pcs && s'.pcs == s.pcs[r := pc'] && ReplicaStep(s, s.pcs[r], s', pc') {
      var pc := s.pcs[r];
      if ClaimStep(s, pc, s', pc') { ClaimKeepsLevel(s, r, s', pc'); }
      else if BumpStep(s, pc, s', pc') { BumpKeepsLevel(s, r, s', pc'); }
      else { assert s'.log == s.log && s'.levels == s.levels && s'.rows <= s.rows && PcClaim(s'.log, pc'); }
    }
  }

  /** In every reachable state: an incident's level is the number of its successful
      bumps, each of which went up by exactly one from the level it found; and a step
      with channels was passed only after one of them had been claimed when due. */
  lemma {:induction false} LevelsAreBumps(run: seq<State>)
    requires Run(run)
    ensures LevelInv(run[|run| - 1])
    decreases |run|
  {
    if |run| > 1 {
      LevelsAreBumps(run[..|run| - 1]);
      assert Step(run[|run| - 2], run[|run| - 2 + 1]);
      StepKeepsLevel(run[|run| - 2], run[|run| - 1]);
    }
  }

  // ----- no step before its turn -----

  ghost predicate Reached(levels: map<int, nat>, incident: int, step: nat) {
    incident in levels && step <= levels[incident]
  }

  ghost predicate InTurn(s: State) {
    && (forall x :: x in s.rows || x in s.outbox ==> Reached(s.levels, x.incident, x.step))
    && (forall r :: r in s.pcs && !s.pcs[r].Idle? ==> Reached(s.levels, s.pcs[r].incident, s.pcs[r].step))
  }

  /** A replica is at a step only once the level has reached it, and never lowers a level. */
  lemma ReplicaStaysInTurn(s: State, pc: Pc, s': State, pc': Pc)
    requires ReplicaStep(s, pc, s', pc') && (!pc.Idle? ==> Reached(s.levels, pc.incident, pc.step))
    ensures !pc'.Idle? ==> Reached(s'.levels, pc'.incident, pc'.step)
    ensures forall i, n :: Reached(s.levels, i, n) ==> Reached(s'.levels, i, n)
  {
  }

  lemma ReplicaWritesItsStep(s: State, pc: Pc, s': State, pc': Pc)
    requires ReplicaStep(s, pc, s', pc')
    ensures forall x :: x in s'.rows || x in s'.outbox ==>
              x in s.rows || x in s.outbox || (!pc.Idle? && x.incident == pc.incident && x.step == pc.step)
  {
  }

  lemma StepKeepsTurn(s: State, s': State)
    requires InTurn(s) && Step(s, s')
    ensures InTurn(s')
  {
    hide ReplicaStep;
    if r, pc' :| r in s.pcs && s'.pcs == s.pcs[r := pc'] && ReplicaStep(s, s.pcs[r], s', pc') {
      ReplicaStaysInTurn(s, s.pcs[r], s', pc');
      ReplicaWritesItsStep(s, s.pcs[r], s', pc');
      hide Reached;
    }
  }

  /** In every run nothing is claimed or sent for a step before the incident's level has reached
      it, so no channel hears of a later step while an earlier one has not been passed. */
  lemma {:induction false} NoStepBeforeItsTurn(run: seq<State>, x: Slot)
    requires Run(run)
    ensures InTurn(run[|run| - 1])
    ensures var s := run[|run| - 1];
            x in s.rows || x in s.outbox ==> x.incident in s.levels && x.step <= s.levels[x.incident]
    decreases |run|
  {
    if |run| > 1 {
      NoStepBeforeItsTurn(run[..|run| - 1], x);
      assert Step(run[|run| - 2], run[|run| - 2 + 1]);
      StepKeepsTurn(run[|run| - 2], run[|run| - 1]);
    }
  }

  // ----- the level and the log of claims -----

  /** What the source's comment promises: every step an incident has been moved past
      that has channels still has a row in incident_escalations. */
  ghost predicate LevelHasRows(s: State) {
    forall i :: 0 <= i < |s.log| ==> HasRow(s.log[i], s.rows)
  }

  ghost predicate HasRow(e: Event, rows: set<Slot>) {
    e.Bumped? && e.channels != [] ==> exists c :: c in e.channels && Slot(e.incident, e.from, c) in rows
  }

  /** A notifier that queued nothing and reported no error, as Dispatch does when no
      channel is deliverable. */
  ghost predicate SilentNothing(s: State, s': State) {
    exists r :: r in s.pcs && r in s'.pcs && s.pcs[r].Notifying? && s'.pcs[r].Releasing?
                && s'.pcs[r].enqueued == {} && !s'.pcs[r].failed
  }

  ghost predicate NeverSilent(run: seq<State>) {
    forall i :: 0 <= i < |run| - 1 ==> !SilentNothing(run[i], run[i + 1])
  }

  ghost predicate LoneInv(s: State, r: int) {
    && s.pcs.Keys == {r}
    && var pc := s.pcs[r];
       var kept := s.rows - Held(pc);
       && Shaped(pc) && Held(pc) <= s.rows
       && (forall i :: 0 <= i < |s.log| ==> HasRow(s.log[i], kept))
       && (pc.Bumping? ==> HasRow(Bumped(pc.incident, pc.step, pc.channels), kept))
       && (pc.Notifying? || pc.Releasing? ==>
             && (forall c :: c in pc.won ==> c in pc.channels) && pc.enqueued <= pc.won
             && Slots(pc.incident, pc.step, pc.enqueued) <= kept)
       && (pc.Releasing? && pc.enqueued == {} ==> pc.failed)
  }

  lemma HasRowMonotone(e: Event, a: set<Slot>, b: set<Slot>)
    requires HasRow(e, a) && a <= b
    ensures HasRow(e, b)
  {
  }

  lemma EnqueuedGivesRow(incident: int, step: nat, channels: seq<int>, enqueued: set<int>, kept: set<Slot>)
    requires enqueued != {} && Slots(incident, step, enqueued) <= kept
    requires forall c :: c in enqueued ==> c in channels
    ensures HasRow(Bumped(incident, step, channels), kept)
  {
    assert (forall c: int :: c !in enqueued) ==> enqueued == {};
    var c :| c in enqueued;
    assert Slot(incident, step, c) in Slots(incident, step, enqueued);
  }

  lemma LoneStep(s: State, r: int, s': State, pc': Pc)
    requires LoneInv(s, r) && s'.pcs == s.pcs[r := pc'] && ReplicaStep(s, s.pcs[r], s', pc')
    requires !SilentNothing(s, s')
    ensures LoneInv(s', r)
  {
    var pc := s.pcs[r];
    var kept, kept' := s.rows - Held(pc), s'.rows - Held(pc');
    if BumpStep(s, pc, s', pc') {
      assert kept' == kept;
    } else if ClaimStep(s, pc, s', pc') {
      var won := Won(s.rows, pc.incident, pc.step, pc.channels);
      if won == {} {
        if pc.channels != [] {
          var c0 := pc.channels[0];
          assert c0 in pc.channels && c0 !in won;
        }
        assert kept' == kept;
      } else {
        assert kept <= kept';
        assert Slots(pc.incident, pc.step, {}) == {};
      }
    } else if c :| EnqueueStep(s, pc, s', pc', c) {
      assert kept <= kept';
      assert Slots(pc.incident, pc.step, pc'.enqueued) == Slots(pc.incident, pc.step, pc.enqueued) + {Slot(pc.incident, pc.step, c)};
    } else if ok :| ReleaseStep(s, pc, s', pc', ok) {
      assert kept <= kept';
      if pc'.Bumping? { EnqueuedGivesRow(pc.incident, pc.step, pc.channels, pc.enqueued, kept'); }
    } else {
      assert kept <= kept';
    }
    assert s'.log == s.log || BumpStep(s, pc, s', pc') || ClaimStep(s, pc, s', pc');
    assert kept <= kept';
    forall i | 0 <= i < |s'.log| ensures HasRow(s'.log[i], kept') {
      if i < |s.log| {
        assert HasRow(s.log[i], kept);
        HasRowMonotone(s.log[i], kept, kept');
        assert s'.log[i] == s.log[i];
      }
    }
  }

  /** With one replica and no silently failing notifier the promise holds. */
  lemma {:induction false} LoneReplicaKeepsRows(run: seq<State>, r: int)
    requires Run(run) && run[0].pcs.Keys == {r} && NeverSilent(run)
    ensures LoneInv(run[|run| - 1], r) && LevelHasRows(run[|run| - 1])
    decreases |run|
  {
    if |run| > 1 {
      var s, s' := run[|run| - 2], run[|run| - 1];
      LoneReplicaKeepsRows(run[..|run| - 1], r);
      assert Step(s, run[|run| - 2 + 1]) && !SilentNothing(s, run[|run| - 2 + 1]);
      if q, pc' :| q in s.pcs && s'.pcs == s.pcs[q := pc'] && ReplicaStep(s, s.pcs[q], s', pc') {
        LoneStep(s, r, s', pc');
      }
    }
    var last := run[|run| - 1];
    forall i | 0 <= i < |last.log| ensures HasRow(last.log[i], last.rows) {
      HasRowMonotone(last.log[i], last.rows - Held(last.pcs[r]), last.rows);
    }
  }

  lemma Moves(run: seq<State>, r: int, s': State) returns (longer: seq<State>)
    requires Run(run) && r in run[|run| - 1].pcs && r in s'.pcs
    requires s'.pcs == run[|run| - 1].pcs[r := s'.pcs[r]]
    requires ReplicaStep(run[|run| - 1], run[|run| - 1].pcs[r], s', s'.pcs[r])
    ensures Run(longer) && longer == run + [s']
    ensures NeverSilent(run) && !SilentNothing(run[|run| - 1], s') ==> NeverSilent(longer)
  {
    longer := run + [s'];
    forall i | 0 <= i < |longer| - 1
      ensures Step(longer[i], longer[i + 1])
      ensures NeverSilent(run) && !SilentNothing(run[|run| - 1], s') ==> !SilentNothing(longer[i], longer[i + 1])
    {
      if i < |run| - 1 { assert longer[i] == run[i] && longer[i + 1] == run[i + 1]; }
    }
  }

  /** The one incident and its one-rung ladder of the runs that break the promise. */
  const LADDER: Ladder := [Rung(0, [9])]
  const PAGE := Slot(5, 0, 9)
  const DUE := Due(5, 0, [9], 0, 0)
  const NOTIFYING := Notifying(5, 0, [9], {9}, {9}, {})
  const CLAIM := Claimed(5, 0, {9}, 0, 0)
  const OUTRUN := [CLAIM, Bumped(5, 0, [9])]

  /** Replica r stands at a, q at b, and every other one is idle. */
  function Standing(replicas: set<int>, r: int, a: Pc, q: int, b: Pc): map<int, Pc> {
    map x | x in replicas :: if x == r then a else if x == q then b else Idle
  }

  lemma OpenIncident(replicas: set<int>, r: int, q: int) returns (run: seq<State>)
    ensures Run(run) && run[|run| - 1] == State({}, map[5 := 0], [], [], Standing(replicas, r, Idle, q, Idle))
    ensures NeverSilent(run) && run[0].pcs.Keys == replicas && |run| > 0
  {
    var idle := Standing(replicas, r, Idle, q, Idle);
    var s0 := State({}, map[], [], [], idle);
    var s1 := State({}, map[5 := 0], [], [], idle);
    run := [s0, s1];
    assert Step(s0, s1) by { assert 5 !in s0.levels && s1 == s0.(levels := s0.levels[5 := 0]); }
  }

  /** Read and decide: replica r is about to claim step 0. */
  lemma ComesDue(run0: seq<State>, r: int) returns (run: seq<State>)
    requires Run(run0) && NeverSilent(run0)
    requires var s := run0[|run0| - 1]; r in s.pcs && s.pcs[r] == Idle && 5 in s.levels
    ensures var s := run0[|run0| - 1];
            Run(run) && NeverSilent(run) && run[|run| - 1] == s.(pcs := s.pcs[r := DUE])
    ensures run0 <= run
  {
    var s := run0[|run0| - 1];
    var s1 := s.(pcs := s.pcs[r := Read(5, 0)]);
    var s2 := s.(pcs := s.pcs[r := DUE]);
    run := Moves(run0, r, s1);
    assert DecideStep(s1, s1.pcs[r], s2, s2.pcs[r], LADDER, 0);
    run := Moves(run, r, s2);
  }

  lemma Claims(run0: seq<State>, r: int, s': State) returns (run: seq<State>)
    requires Run(run0) && r in run0[|run0| - 1].pcs && r in s'.pcs
    requires var s := run0[|run0| - 1];
             && s.rows == {} && s.log == [] && s.pcs[r] == DUE
             && s' == s.(rows := {PAGE}, log := [CLAIM],
                         pcs := s.pcs[r := NOTIFYING])
    ensures Run(run) && run == run0 + [s'] && (NeverSilent(run0) ==> NeverSilent(run))
  {
    var s := run0[|run0| - 1];
    assert 9 in [9];
    assert Won(s.rows, 5, 0, [9]) == {9};
    assert Slots(5, 0, {9}) == {PAGE};
    run := Moves(run0, r, s');
  }

  /** The notifier returns having queued nothing. */
  lemma Fails(run0: seq<State>, r: int, failed: bool) returns (run: seq<State>)
    requires Run(run0) && r in run0[|run0| - 1].pcs
    requires run0[|run0| - 1].pcs[r] == NOTIFYING
    ensures var s := run0[|run0| - 1];
            var s' := s.(pcs := s.pcs[r := Releasing(5, 0, [9], {9}, {}, failed)]);
            Run(run) && run == run0 + [s'] && (NeverSilent(run0) && failed ==> NeverSilent(run))
  {
    var s := run0[|run0| - 1];
    var s' := s.(pcs := s.pcs[r := Releasing(5, 0, [9], {9}, {}, failed)]);
    assert ReturnStep(s, s.pcs[r], s', s'.pcs[r], failed);
    run := Moves(run0, r, s');
  }

  lemma Releases(run0: seq<State>, r: int, s': State) returns (run: seq<State>)
    requires Run(run0) && r in run0[|run0| - 1].pcs && r in s'.pcs
    requires var s := run0[|run0| - 1];
             && s.rows == {PAGE} && s.pcs[r].Releasing? && s.pcs[r] == Releasing(5, 0, [9], {9}, {}, s.pcs[r].failed)
             && s' == s.(rows := {}, pcs := s.pcs[r := if s.pcs[r].failed then Idle else Bumping(5, 0, [9])])
    ensures Run(run) && run == run0 + [s'] && (NeverSilent(run0) ==> NeverSilent(run))
  {
    var s := run0[|run0| - 1];
    assert Slots(5, 0, {9}) == {PAGE};
    assert {9} - {} == {9};
    assert ReleaseStep(s, s.pcs[r], s', s'.pcs[r], true);
    run := Moves(run0, r, s');
  }

  /** The notifier queued nothing and said nothing; the claim is off again and the bump is next. */
  lemma SilentlyReleased(replicas: set<int>, r: int) returns (run: seq<State>)
    requires r in replicas
    ensures Run(run) && run[0].pcs.Keys == replicas
    ensures run[|run| - 1] == State({}, map[5 := 0], [], [CLAIM], Standing(replicas, r, Bumping(5, 0, [9]), r, Idle))
  {
    hide Run, NeverSilent;
    run := OpenIncident(replicas, r, r);
    var first := run[0];
    run := ComesDue(run, r);
    run := Claims(run, r, State({PAGE}, map[5 := 0], [], [CLAIM], Standing(replicas, r, NOTIFYING, r, Idle)));
    run := Fails(run, r, false);
    run := Releases(run, r, State({}, map[5 := 0], [], [CLAIM], Standing(replicas, r, Bumping(5, 0, [9]), r, Idle)));
  }

  /** A notifier that queues nothing but says nothing, and any replica at all: the step
      is passed, nobody was told, and no row says that anyone was. */
  lemma SilentNotifierOutruns(replicas: set<int>, r: int) returns (run: seq<State>)
    requires r in replicas
    ensures Run(run) && run[0].pcs.Keys == replicas
    ensures var s := run[|run| - 1]; s.levels == map[5 := 1] && s.rows == {} && s.outbox == [] && !LevelHasRows(s)
  {
    hide Run, NeverSilent;
    run := SilentlyReleased(replicas, r);
    assert OUTRUN == [CLAIM] + [Bumped(5, 0, [9])];
    var last := State({}, map[5 := 1], [], OUTRUN, Standing(replicas, r, Idle, r, Idle));
    run := Moves(run, r, last);
    assert !HasRow(last.log[1], last.rows);
  }

  /** One replica has claimed; the other found nothing to claim and bumped. */
  lemma OneClaimsOtherBumps(replicas: set<int>, r: int, q: int) returns (run: seq<State>)
    requires r in replicas && q in replicas && r != q
    ensures Run(run) && NeverSilent(run) && run[0].pcs.Keys == replicas
    ensures run[|run| - 1] == State({PAGE}, map[5 := 1], [], OUTRUN, Standing(replicas, r, NOTIFYING, q, Idle))
  {
    run := OpenIncident(replicas, r, q);
    run := ComesDue(run, r);
    run := ComesDue(run, q);
    run := Claims(run, r, State({PAGE}, map[5 := 0], [], [CLAIM], Standing(replicas, r, NOTIFYING, q, DUE)));
    assert Won({PAGE}, 5, 0, [9]) == {};
    var bumping := Bumping(5, 0, [9]);
    run := Moves(run, q, State({PAGE}, map[5 := 0], [], [CLAIM], Standing(replicas, r, NOTIFYING, q, bumping)));
    assert OUTRUN == [CLAIM] + [Bumped(5, 0, [9])];
    run := Moves(run, q, State({PAGE}, map[5 := 1], [], OUTRUN, Standing(replicas, r, NOTIFYING, q, Idle)));
  }

  /** An honest notifier, and any two replicas of those there are: one claims, the other
      finds nothing to claim and bumps, the first fails and releases. The step is passed
      and nobody was told. */
  lemma RaceOutruns(replicas: set<int>, r: int, q: int) returns (run: seq<State>)
    requires r in replicas && q in replicas && r != q
    ensures Run(run) && NeverSilent(run) && run[0].pcs.Keys == replicas
    ensures var s := run[|run| - 1]; s.levels == map[5 := 1] && s.rows == {} && s.outbox == [] && !LevelHasRows(s)
  {
    run := OneClaimsOtherBumps(replicas, r, q);
    run := Fails(run, r, true);
    run := Releases(run, r, State({}, map[5 := 1], [], OUTRUN, Standing(replicas, r, Idle, q, Idle)));
    assert !HasRow(OUTRUN[1], {});
  }

  // ----- when the promise holds -----

  /** Whatever these replicas do, with a notifier that owns up to having queued nothing,
      every passed step keeps a row. */
  ghost predicate HonestKeepsRows(replicas: set<int>) {
    forall run: seq<State> :: Run(run) && run[0].pcs.Keys == replicas && NeverSilent(run) ==> LevelHasRows(run[|run| - 1])
  }

  /** The same with any notifier. */
  ghost predicate AlwaysKeepsRows(replicas: set<int>) {
    forall run: seq<State> :: Run(run) && run[0].pcs.Keys == replicas ==> LevelHasRows(run[|run| - 1])
  }

  lemma {:induction false} NobodyWrites(run: seq<State>)
    requires Run(run) && run[0].pcs.Keys == {}
    ensures run[|run| - 1].pcs.Keys == {} && run[|run| - 1].log == []
    decreases |run|
  {
    if |run| > 1 {
      NobodyWrites(run[..|run| - 1]);
      assert Step(run[|run| - 2], run[|run| - 2 + 1]);
    }
  }

  /** The promise of the source holds of a deployment exactly when no two replicas share
      it, given an honest notifier; and with any notifier only when there is none. */
  lemma RowsAreKeptExactlyByOne(replicas: set<int>)
    ensures HonestKeepsRows(replicas) <==> |replicas| <= 1
    ensures AlwaysKeepsRows(replicas) <==> replicas == {}
  {
    if replicas == {} {
      forall run: seq<State> | Run(run) && run[0].pcs.Keys == replicas ensures LevelHasRows(run[|run| - 1]) {
        NobodyWrites(run);
      }
      return;
    }
    assert (forall x: int :: x !in replicas) ==> replicas == {};
    var r: int :| r in replicas;
    var silent := SilentNotifierOutruns(replicas, r);
    if replicas == {r} {
      forall run: seq<State> | Run(run) && run[0].pcs.Keys == replicas && NeverSilent(run) ensures LevelHasRows(run[|run| - 1]) {
        LoneReplicaKeepsRows(run, r);
      }
    } else {
      assert |replicas - {r}| == |replicas| - 1;
      assert (forall x: int :: x in replicas ==> x == r) ==> replicas == {r};
      var q: int :| q in replicas && q != r;
      var race := RaceOutruns(replicas, r, q);
      assert q in replicas - {r};
    }
  }
}
