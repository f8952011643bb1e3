/** The queue between the request handlers and the workers: calls of Enqueue, workers
    and closers take their atomic steps in any order. */
module Pipeline {

  /** limit is the byte budget, capacity the channel's size, workers how many there are. */
  datatype Config = Config(limit: nat, capacity: nat, workers: nat)

  datatype Drop = DropClosed | DropQueueBytes | DropQueueFull | DropPanic

  /** How far one call of Enqueue has come. It holds the read lock from Entered to Leaving. */
  datatype Pc =
    | Entered
    | Loading
    | Loaded(seen: int)
    | Holding
    | Full
    | Uncounted
    | Leaving(sent: bool)
    | Returned(sent: bool)

  /** Where its task is. */
  datatype Item = NotSent | Queued | Taken | Settled | Freed

  datatype Call = Call(weight: nat, pc: Pc, item: Item, drops: seq<Drop>, processed: nat)

  /** The steps of Close under the write lock. */
  datatype Closer = NoCloser | Locked | Marked | Unlocking

  datatype State = State(
    calls: seq<Call>, queue: seq<nat>, bytes: int, closed: bool, channelClosed: bool, closer: Closer,
    badSends: nat, badCloses: nat)

  const INITIAL := State([], [], 0, false, false, NoCloser, 0, 0)

  /** Move is the next access of one call of Enqueue; the other steps are the workers' and the closers'. */
  datatype Step =
    | Enter(weight: nat)
    | Move(c: nat)
    | Take
    | Finish(c: nat, panicked: bool)
    | Free(c: nat)
    | Lock
    | Mark
    | CloseChannel
    | Unlock

  predicate Reading(c: Call) {
    !c.pc.Returned?
  }

  ghost predicate NoReader(s: State) {
    forall c :: 0 <= c < |s.calls| ==> !Reading(s.calls[c])
  }

  function Put(s: State, c: nat, call: Call): State
    requires c < |s.calls|
  {
    s.(calls := s.calls[c := call])
  }

  function Refuse(call: Call, d: Drop): Call {
    call.(pc := Leaving(false), drops := call.drops + [d])
  }

  /** Tasks out of the channel and not yet done with. */
  function Working(calls: seq<Call>): nat {
    if calls == [] then 0 else (if calls[0].item.Taken? || calls[0].item.Settled? then 1 else 0) + Working(calls[1..])
  }

  /** The next access to shared state of a call of Enqueue. */
  function Moved(g: Config, s: State, c: nat): State
    requires c < |s.calls| && !s.calls[c].pc.Returned?
  {
    var call := s.calls[c];
    match call.pc
    case Entered => Put(s, c, if s.closed then Refuse(call, DropClosed) else call.(pc := Loading))
    case Loading => Put(s, c, call.(pc := Loaded(s.bytes)))
    case Loaded(seen) =>
      if seen + call.weight > g.limit then Put(s, c, Refuse(call, DropQueueBytes))
      else if s.bytes == seen then Put(s, c, call.(pc := Holding)).(bytes := s.bytes + call.weight)
      else Put(s, c, call.(pc := Loading))
    case Holding =>
      if |s.queue| < g.capacity then
        Put(s, c, call.(pc := Leaving(true), item := Queued))
          .(queue := s.queue + [c], badSends := s.badSends + if s.channelClosed then 1 else 0)
      else Put(s, c, call.(pc := Full))
    case Full => Put(s, c, call.(pc := Uncounted)).(bytes := s.bytes - call.weight)
    case Uncounted => Put(s, c, Refuse(call, DropQueueFull))
    case Leaving(sent) => Put(s, c, call.(pc := Returned(sent)))
  }

  ghost predicate CallStep(g: Config, s: State, t: Step, s': State) {
    t.Move? && t.c < |s.calls| && !s.calls[t.c].pc.Returned? && s' == Moved(g, s, t.c)
  }

  /** A worker takes the oldest task, runs it (a panic counts a drop and spares the
      worker) and gives its weight back either way. */
  ghost predicate WorkerStep(g: Config, s: State, t: Step, s': State) {
    match t
    case Take =>
      && s.queue != [] && s.queue[0] < |s.calls| && Working(s.calls) < g.workers
      && s' == Put(s, s.queue[0], s.calls[s.queue[0]].(item := Taken)).(queue := s.queue[1..])
    case Finish(c, panicked) =>
      && c < |s.calls| && s.calls[c].item.Taken?
      && s' == Put(s, c, if panicked then s.calls[c].(item := Settled, drops := s.calls[c].drops + [DropPanic])
                         else s.calls[c].(item := Settled, processed := s.calls[c].processed + 1))
    case Free(c) =>
      && c < |s.calls| && s.calls[c].item.Settled?
      && s' == Put(s, c, s.calls[c].(item := Freed)).(bytes := s.bytes - s.calls[c].weight)
    case _ => false
  }

  /** The lock admits a writer only without readers; a repeated Close finds the mark and leaves. */
  ghost predicate CloserStep(s: State, t: Step, s': State) {
    match t
    case Enter(w) => s.closer.NoCloser? && s' == s.(calls := s.calls + [Call(w, Entered, NotSent, [], 0)])
    case Lock => s.closer.NoCloser? && NoReader(s) && s' == s.(closer := Locked)
    case Mark => s.closer.Locked? && s' == if s.closed then s.(closer := Unlocking) else s.(closed := true, closer := Marked)
    case CloseChannel => s.closer.Marked? &&
      s' == s.(channelClosed := true, closer := Unlocking, badCloses := s.badCloses + if s.channelClosed then 1 else 0)
    case Unlock => s.closer.Unlocking? && s' == s.(closer := NoCloser)
    case _ => false
  }

  ghost predicate Next(g: Config, s: State, t: Step, s': State) {
    CallStep(g, s, t, s') || WorkerStep(g, s, t, s') || CloserStep(s, t, s')
  }

  ghost predicate Run(g: Config, run: seq<State>, steps: seq<Step>) {
    && |run| == |steps| + 1 && run[0] == INITIAL
    && forall i :: 0 <= i < |steps| ==> Next(g, run[i], steps[i], run[i + 1])
  }

  // ----- what every run keeps -----

  /** A call's weight is on the counter while it holds it or its task does. */
  predicate Weighs(c: Call) {
    c.pc.Holding? || c.pc.Full? || c.item.Queued? || c.item.Taken? || c.item.Settled?
  }

  function Charge(c: Call): nat {
    if Weighs(c) then c.weight else 0
  }

  function Charged(calls: seq<Call>): nat {
    if calls == [] then 0 else Charge(calls[0]) + Charged(calls[1..])
  }

  predicate Admitting(c: Call) {
    c.pc.Loading? || c.pc.Loaded? || c.pc.Holding? || c.pc.Full? || c.pc.Uncounted?
  }

  /** The exact bookkeeping of one call. */
  predicate CallOk(c: Call) {
    && (c.item.NotSent? <==> !((c.pc.Leaving? || c.pc.Returned?) && c.pc.sent))
    && (c.item.NotSent? && (c.pc.Leaving? || c.pc.Returned?) ==>
          |c.drops| == 1 && c.drops[0] != DropPanic && c.processed == 0)
    && (c.item.NotSent? && !(c.pc.Leaving? || c.pc.Returned?) ==> c.drops == [] && c.processed == 0)
    && (c.item.Queued? || c.item.Taken? ==> c.drops == [] && c.processed == 0)
    && (c.item.Settled? || c.item.Freed? ==>
          (c.drops == [] && c.processed == 1) || (c.drops == [DropPanic] && c.processed == 0))
  }

  /** The channel holds exactly the queued tasks, each once. */
  ghost predicate QueueOk(calls: seq<Call>, queue: seq<nat>) {
    && (forall i :: 0 <= i < |queue| ==> queue[i] < |calls| && calls[queue[i]].item.Queued?)
    && (forall c :: 0 <= c < |calls| && calls[c].item.Queued? ==> c in queue)
    && (forall i, j :: 0 <= i < j < |queue| ==> queue[i] != queue[j])
  }

  ghost predicate LockOk(s: State) {
    && (s.closer.NoCloser? || NoReader(s))
    && (s.closed ==> forall c :: 0 <= c < |s.calls| ==> !Admitting(s.calls[c]))
    && (s.closer.Marked? ==> s.closed)
    && (s.channelClosed <==> s.closed && !s.closer.Marked?)
  }

  ghost predicate Inv(g: Config, s: State) {
    && s.bytes == Charged(s.calls) && s.bytes <= g.limit && |s.queue| <= g.capacity
    && CallsOk(s.calls) && QueueOk(s.calls, s.queue) && LockOk(s)
    && s.badSends == 0 && s.badCloses == 0
  }

  lemma {:induction false} ChargedPut(calls: seq<Call>, c: nat, call: Call)
    requires c < |calls|
    ensures Charged(calls[c := call]) == Charged(calls) - Charge(calls[c]) + Charge(call)
  {
    if c > 0 {
      assert calls[c := call][1..] == calls[1..][c - 1 := call];
      ChargedPut(calls[1..], c - 1, call);
    }
  }

  lemma {:induction false} ChargedAppend(calls: seq<Call>, call: Call)
    ensures Charged(calls + [call]) == Charged(calls) + Charge(call)
  {
    if calls != [] {
      assert (calls + [call])[1..] == calls[1..] + [call];
      ChargedAppend(calls[1..], call);
    }
  }

  ghost predicate CallsOk(calls: seq<Call>) {
    forall c :: 0 <= c < |calls| ==> CallOk(calls[c])
  }

  /** A change of one call that sends nothing and takes nothing. */
  lemma QueuePut(calls: seq<Call>, queue: seq<nat>, c: nat, call: Call)
    requires c < |calls| && QueueOk(calls, queue) && (calls[c].item.Queued? <==> call.item.Queued?)
    ensures QueueOk(calls[c := call], queue)
  {
  }

  lemma QueueSend(calls: seq<Call>, queue: seq<nat>, c: nat, call: Call)
    requires c < |calls| && QueueOk(calls, queue) && !calls[c].item.Queued? && call.item.Queued?
    ensures QueueOk(calls[c := call], queue + [c])
  {
    var calls', queue' := calls[c := call], queue + [c];
    forall i | 0 <= i < |calls'| && calls'[i].item.Queued? ensures i in queue' {
      if i != c { assert i in queue; } else { assert queue'[|queue|] == c; }
    }
  }

  lemma QueueTake(calls: seq<Call>, queue: seq<nat>, call: Call)
    requires queue != [] && QueueOk(calls, queue) && !call.item.Queued?
    ensures QueueOk(calls[queue[0] := call], queue[1..])
  {
  }

  lemma MovedLock(g: Config, s: State, c: nat)
    requires c < |s.calls| && !s.calls[c].pc.Returned? && LockOk(s)
    ensures LockOk(Moved(g, s, c)) && Moved(g, s, c).badCloses == s.badCloses
    ensures Moved(g, s, c).badSends == s.badSends
  {
  }

  lemma MovedCall(g: Config, s: State, c: nat)
    requires c < |s.calls| && !s.calls[c].pc.Returned? && CallOk(s.calls[c])
    ensures var s' := Moved(g, s, c);
            && |s'.calls| == |s.calls| && s'.calls == s.calls[c := s'.calls[c]] && CallOk(s'.calls[c])
            && s'.bytes == s.bytes - Charge(s.calls[c]) + Charge(s'.calls[c])
            && (s'.bytes <= s.bytes || s'.bytes <= g.limit) && (|s'.queue| <= |s.queue| || |s'.queue| <= g.capacity)
            && ((s'.queue == s.queue && s'.calls[c].item == s.calls[c].item)
                || (s'.queue == s.queue + [c] && s.calls[c].item.NotSent? && s'.calls[c].item.Queued?))
  {
    MovedBooks(g, s, c);
    hide CallOk;
  }

  lemma MovedBooks(g: Config, s: State, c: nat)
    requires c < |s.calls| && !s.calls[c].pc.Returned? && CallOk(s.calls[c])
    ensures var s' := Moved(g, s, c);
            |s'.calls| == |s.calls| && s'.calls == s.calls[c := s'.calls[c]] && CallOk(s'.calls[c])
    ensures s.calls[c].item.NotSent? || s.calls[c].pc.Leaving?
  {
  }

  lemma CallStepKeepsInv(g: Config, s: State, t: Step, s': State)
    requires Inv(g, s) && CallStep(g, s, t, s')
    ensures Inv(g, s')
  {
    hide Moved, CallOk, QueueOk, LockOk;
    MovedLock(g, s, t.c);
    MovedCall(g, s, t.c);
    ChargedPut(s.calls, t.c, s'.calls[t.c]);
    if s'.queue == s.queue {
      QueuePut(s.calls, s.queue, t.c, s'.calls[t.c]);
    } else {
      QueueSend(s.calls, s.queue, t.c, s'.calls[t.c]);
    }
  }

  lemma WorkerCall(g: Config, s: State, t: Step, s': State, c: nat)
    requires WorkerStep(g, s, t, s') && c == (if t.Take? then s.queue[0] else t.c) && CallOk(s.calls[c])
    requires t.Take? ==> s.calls[c].item.Queued?
    ensures |s'.calls| == |s.calls| && s'.calls == s.calls[c := s'.calls[c]] && CallOk(s'.calls[c])
    ensures s'.calls[c].pc == s.calls[c].pc && s' == s.(calls := s'.calls, queue := s'.queue, bytes := s'.bytes)
    ensures s'.bytes == s.bytes - Charge(s.calls[c]) + Charge(s'.calls[c]) && s'.bytes <= s.bytes
    ensures s'.queue == (if t.Take? then s.queue[1..] else s.queue)
    ensures !s'.calls[c].item.Queued? && (t.Take? <==> s.calls[c].item.Queued?)
  {
  }

  lemma LockPut(s: State, c: nat, call: Call, s': State)
    requires LockOk(s) && c < |s.calls| && call.pc == s.calls[c].pc
    requires s' == s.(calls := s.calls[c := call], queue := s'.queue, bytes := s'.bytes)
    ensures LockOk(s')
  {
  }

  lemma WorkerStepKeepsInv(g: Config, s: State, t: Step, s': State)
    requires Inv(g, s) && WorkerStep(g, s, t, s')
    ensures Inv(g, s')
  {
    var c := if t.Take? then s.queue[0] else t.c;
    WorkerCall(g, s, t, s', c);
    hide CallOk, QueueOk, LockOk, WorkerStep;
    ChargedPut(s.calls, c, s'.calls[c]);
    LockPut(s, c, s'.calls[c], s');
    if t.Take? {
      QueueTake(s.calls, s.queue, s'.calls[c]);
    } else {
      QueuePut(s.calls, s.queue, c, s'.calls[c]);
    }
  }

  lemma CloserStepKeepsInv(g: Config, s: State, t: Step, s': State)
    requires Inv(g, s) && CloserStep(s, t, s')
    ensures Inv(g, s')
  {
    if t.Enter? {
      ChargedAppend(s.calls, s'.calls[|s.calls|]);
    }
  }

  /** At every point of every run: the counter is the weight of what is admitted and not
      given back, within the budget; nothing was sent on a closed channel and it was not closed twice. */
  lemma {:induction false} EveryRunKeepsInv(g: Config, run: seq<State>, steps: seq<Step>)
    requires Run(g, run, steps)
    ensures Inv(g, run[|steps|])
  {
    if steps == [] {
    } else {
      var n := |steps| - 1;
      EveryRunKeepsInv(g, run[..n + 1], steps[..n]);
      assert Next(g, run[n], steps[n], run[n + 1]);
      if CallStep(g, run[n], steps[n], run[n + 1]) {
        CallStepKeepsInv(g, run[n], steps[n], run[n + 1]);
      } else if WorkerStep(g, run[n], steps[n], run[n + 1]) {
        WorkerStepKeepsInv(g, run[n], steps[n], run[n + 1]);
      } else {
        CloserStepKeepsInv(g, run[n], steps[n], run[n + 1]);
      }
    }
  }

  /** Nothing in the channel, no worker busy. */
  predicate Drained(s: State) {
    s.queue == [] && Working(s.calls) == 0
  }

  lemma {:induction false} NobodyWorking(calls: seq<Call>, c: nat)
    requires Working(calls) == 0 && c < |calls|
    ensures !calls[c].item.Taken? && !calls[c].item.Settled?
  {
    if c > 0 { NobodyWorking(calls[1..], c - 1); }
  }

  /** A call that answers false counted one reason and is never processed; one that
      answers true is processed once or lost to one panic, and that for certain once
      the workers have drained the channel. */
  lemma OneOutcomeEach(g: Config, run: seq<State>, steps: seq<Step>, c: nat)
    requires Run(g, run, steps)
    ensures var s := run[|steps|];
            c < |s.calls| && s.calls[c].pc.Returned? ==>
              var call := s.calls[c];
              && (!call.pc.sent ==>
                    |call.drops| == 1 && call.drops[0] in {DropClosed, DropQueueBytes, DropQueueFull} && call.processed == 0)
              && (call.pc.sent ==> (forall d :: d in call.drops ==> d == DropPanic) && call.processed + |call.drops| <= 1)
              && (call.pc.sent && Drained(s) ==> call.processed + |call.drops| == 1)
  {
    EveryRunKeepsInv(g, run, steps);
    var s := run[|steps|];
    if c < |s.calls| && s.calls[c].pc.Returned? {
      assert CallOk(s.calls[c]);
      if Drained(s) { NobodyWorking(s.calls, c); }
    }
  }

  // ----- no call is refused without its reason, and none with room -----

  predicate Decided(c: Call) {
    c.pc.Leaving? || c.pc.Returned?
  }

  /** The state is a reason to lose the task of call c, of weight w, in the way d says. */
  predicate Reason(g: Config, s: State, c: nat, w: nat, d: Drop) {
    && c < |s.calls| && s.calls[c].weight == w
    && match d
       case DropClosed => s.closed && !Decided(s.calls[c])
       case DropQueueBytes => s.bytes + w > g.limit && !Decided(s.calls[c])
       case DropQueueFull => |s.queue| == g.capacity && !Decided(s.calls[c])
       case DropPanic => s.calls[c].item.Taken?
  }

  ghost predicate HadReason(g: Config, run: seq<State>, c: nat, w: nat, d: Drop) {
    exists i :: 0 <= i < |run| && Reason(g, run[i], c, w, d)
  }

  /** The byte count a call works with was on the counter while the call was at work. */
  ghost predicate WasThere(run: seq<State>, c: nat, w: nat, seen: int) {
    exists i :: 0 <= i < |run| && BytesAt(run[i], c, w, seen)
  }

  predicate BytesAt(s: State, c: nat, w: nat, seen: int) {
    c < |s.calls| && s.calls[c].weight == w && !Decided(s.calls[c]) && s.bytes == seen
  }

  /** What the call has counted or is about to count, it has met. */
  ghost predicate Grounded(g: Config, run: seq<State>, c: nat, call: Call) {
    && (forall d :: d in call.drops ==> HadReason(g, run, c, call.weight, d))
    && (call.pc.Loaded? ==> WasThere(run, c, call.weight, call.pc.seen))
    && (call.pc.Full? || call.pc.Uncounted? ==> HadReason(g, run, c, call.weight, DropQueueFull))
  }

  lemma GroundedGrows(g: Config, run: seq<State>, s': State, c: nat, call: Call)
    requires Grounded(g, run, c, call)
    ensures Grounded(g, run + [s'], c, call)
  {
    var longer := run + [s'];
    forall d | HadReason(g, run, c, call.weight, d) ensures HadReason(g, longer, c, call.weight, d) {
      var i :| 0 <= i < |run| && Reason(g, run[i], c, call.weight, d);
      assert Reason(g, longer[i], c, call.weight, d);
    }
    if call.pc.Loaded? {
      var i :| 0 <= i < |run| && BytesAt(run[i], c, call.weight, call.pc.seen);
      assert BytesAt(longer[i], c, call.weight, call.pc.seen);
    }
  }

  lemma MoveIsGrounded(g: Config, run: seq<State>, s: State, c: nat)
    requires run != [] && run[|run| - 1] == s && |s.queue| <= g.capacity
    requires c < |s.calls| && !s.calls[c].pc.Returned? && CallOk(s.calls[c]) && Grounded(g, run, c, s.calls[c])
    ensures var call' := Moved(g, s, c).calls[c]; call'.weight == s.calls[c].weight && Grounded(g, run, c, call')
  {
    var call := s.calls[c];
    var w := call.weight;
    match call.pc
    case Entered => if s.closed { assert Reason(g, s, c, w, DropClosed); }
    case Loading => assert BytesAt(s, c, w, s.bytes);
    case Loaded(seen) =>
      if seen + w > g.limit {
        var i :| 0 <= i < |run| && BytesAt(run[i], c, w, seen);
        assert Reason(g, run[i], c, w, DropQueueBytes);
      }
    case Holding => if |s.queue| == g.capacity { assert Reason(g, s, c, w, DropQueueFull); }
    case _ =>
  }

  lemma WorkIsGrounded(g: Config, run: seq<State>, s: State, t: Step, s': State, c: nat)
    requires run != [] && run[|run| - 1] == s && WorkerStep(g, s, t, s')
    requires c < |s.calls| && CallOk(s.calls[c]) && Grounded(g, run, c, s.calls[c])
    ensures c < |s'.calls| && s'.calls[c].weight == s.calls[c].weight && Grounded(g, run, c, s'.calls[c])
  {
    hide CallOk, HadReason;
    if t.Finish? && t.c == c && t.panicked { ThePanickedWasTaken(g, run, s, c); }
  }

  lemma ThePanickedWasTaken(g: Config, run: seq<State>, s: State, c: nat)
    requires run != [] && run[|run| - 1] == s && c < |s.calls| && s.calls[c].item.Taken?
    ensures HadReason(g, run, c, s.calls[c].weight, DropPanic)
  {
    assert Reason(g, s, c, s.calls[c].weight, DropPanic);
  }

  /** A step gives a call a drop, or puts it before one, only for a reason. */
  lemma StepIsGrounded(g: Config, run: seq<State>, t: Step, s': State, c: nat)
    requires run != [] && Inv(g, run[|run| - 1]) && Next(g, run[|run| - 1], t, s')
    requires c < |run[|run| - 1].calls| && Grounded(g, run, c, run[|run| - 1].calls[c])
    ensures c < |s'.calls| && s'.calls[c].weight == run[|run| - 1].calls[c].weight
    ensures Grounded(g, run, c, s'.calls[c])
  {
    hide Grounded, CallOk, QueueOk, LockOk;
    var s := run[|run| - 1];
    assert CallOk(s.calls[c]);
    if CallStep(g, s, t, s') {
      if t.c == c { MoveIsGrounded(g, run, s, c); } else { OthersStay(g, s, t.c, c); }
    } else if WorkerStep(g, s, t, s') {
      hide WorkerStep;
      WorkIsGrounded(g, run, s, t, s', c);
    }
  }

  lemma OthersStay(g: Config, s: State, mover: nat, c: nat)
    requires mover < |s.calls| && !s.calls[mover].pc.Returned? && c < |s.calls| && c != mover
    ensures |Moved(g, s, mover).calls| == |s.calls| && Moved(g, s, mover).calls[c] == s.calls[c]
  {
  }

  /** A call that is new has met nothing yet. */
  lemma NewIsGrounded(g: Config, run: seq<State>, s: State, t: Step, s': State, c: nat)
    requires Next(g, s, t, s') && |s.calls| <= c < |s'.calls| && Inv(g, s)
    ensures Grounded(g, run, c, s'.calls[c])
  {
    if CallStep(g, s, t, s') { MovedCall(g, s, t.c); }
    assert t.Enter?;
  }

  /** A call refused as closed met the pipeline closed; one refused for bytes met a counter
      that its weight would have taken past the limit, and one refused as full a full
      channel, each after it entered and before its answer was decided. A task lost to a
      panic was with a worker. */
  lemma {:induction false} RefusedForAReason(g: Config, run: seq<State>, steps: seq<Step>, c: nat)
    requires Run(g, run, steps) && c < |run[|steps|].calls|
    ensures Grounded(g, run, c, run[|steps|].calls[c])
    ensures forall d :: d in run[|steps|].calls[c].drops ==> HadReason(g, run, c, run[|steps|].calls[c].weight, d)
    decreases |steps|
  {
    if steps != [] {
      var n := |steps| - 1;
      var before := run[..n + 1];
      assert run == before + [run[n + 1]];
      assert Next(g, run[n], steps[n], run[n + 1]);
      hide Next, Grounded;
      EveryRunKeepsInv(g, before, steps[..n]);
      if c >= |run[n].calls| {
        NewIsGrounded(g, run, run[n], steps[n], run[n + 1], c);
      } else {
        RefusedForAReason(g, before, steps[..n], c);
        StepIsGrounded(g, before, steps[n], run[n + 1], c);
        GroundedGrows(g, before, run[n + 1], c, run[n + 1].calls[c]);
      }
    }
    GroundedMeans(g, run, c, run[|steps|].calls[c]);
  }

  lemma GroundedMeans(g: Config, run: seq<State>, c: nat, call: Call)
    requires Grounded(g, run, c, call)
    ensures forall d :: d in call.drops ==> HadReason(g, run, c, call.weight, d)
  {
  }

  /** What the call finds on entering, if it is let alone: the reason it will be refused for. */
  function RefusedAs(g: Config, s: State, w: nat): seq<Drop> {
    if s.closed then [DropClosed]
    else if s.bytes + w > g.limit then [DropQueueBytes]
    else if |s.queue| >= g.capacity then [DropQueueFull]
    else []
  }

  /** Only call c moves. */
  ghost predicate Alone(g: Config, path: seq<State>, c: nat) {
    |path| > 0 && forall i :: 0 <= i < |path| - 1 ==> Next(g, path[i], Move(c), path[i + 1])
  }

  /** How far c is from its answer. */
  function Rank(pc: Pc): nat {
    match pc
    case Entered => 7 case Loading => 6 case Loaded(_) => 5 case Holding => 4
    case Full => 3 case Uncounted => 2 case Leaving(_) => 1 case Returned(_) => 0
  }

  /** Where c, which found the pipeline at s0, stands after some moves of its own. */
  ghost predicate OnItsWay(g: Config, s0: State, s: State, c: nat) {
    && c < |s0.calls| && s0.calls[c].pc.Entered? && s0.calls[c].drops == []
    && |s.calls| == |s0.calls|
    && var call, w, why := s.calls[c], s0.calls[c].weight, RefusedAs(g, s0, s0.calls[c].weight);
       && call.weight == w && s.closed == s0.closed
       && (call.pc.Entered? ==> s == s0)
       && (call.pc.Loading? || call.pc.Loaded? ==> !s0.closed)
       && (call.pc.Loaded? ==> call.pc.seen == s0.bytes)
       && (call.pc.Holding? ==> !s0.closed && s0.bytes + w <= g.limit)
       && (call.pc.Full? || call.pc.Uncounted? ==> why == [DropQueueFull])
       && (Decided(call) ==> call.drops == why && (call.pc.sent <==> why == []))
       && (!Decided(call) ==> call.drops == [])
       && s.queue == (if Decided(call) && call.pc.sent then s0.queue + [c] else s0.queue)
       && s.bytes == s0.bytes + if call.pc.Holding? || call.pc.Full? || (Decided(call) && call.pc.sent) then w else 0
  }

  lemma MoveOnItsWay(g: Config, s0: State, s: State, c: nat, s': State)
    requires OnItsWay(g, s0, s, c) && Next(g, s, Move(c), s')
    ensures OnItsWay(g, s0, s', c) && Rank(s'.calls[c].pc) < Rank(s.calls[c].pc)
  {
  }

  /** A call that is let alone answers true, with its task last in the queue and its weight on
      the counter, exactly when the pipeline is open, its weight fits and the channel has
      room; otherwise it counts the first of the reasons and leaves no trace. */
  lemma {:induction false} AloneItIsDecidedByRoom(g: Config, path: seq<State>, c: nat)
    requires Alone(g, path, c) && c < |path[0].calls| && path[0].calls[c].pc.Entered? && path[0].calls[c].drops == []
    ensures var s0, s, w := path[0], path[|path| - 1], path[0].calls[c].weight;
            && OnItsWay(g, s0, s, c) && |path| <= 8 && Rank(s.calls[c].pc) <= 8 - |path|
            && (s.calls[c].pc.Returned? ==>
                  && (s.calls[c].pc.sent <==> !s0.closed && s0.bytes + w <= g.limit && |s0.queue| < g.capacity)
                  && s.queue == (if s.calls[c].pc.sent then s0.queue + [c] else s0.queue)
                  && s.bytes == (if s.calls[c].pc.sent then s0.bytes + w else s0.bytes)
                  && s.calls[c].drops == RefusedAs(g, s0, w))
    decreases |path|
  {
    if |path| > 1 {
      var n := |path| - 2;
      AloneItIsDecidedByRoom(g, path[..n + 1], c);
      assert Next(g, path[n], Move(c), path[n + 1]);
      MoveOnItsWay(g, path[0], path[n], c, path[n + 1]);
    }
  }

  /** And nothing but its own moves is needed: it returns within seven of them. */
  lemma {:induction false} AloneItReturns(g: Config, s: State, c: nat) returns (path: seq<State>)
    requires c < |s.calls| && s.calls[c].pc.Entered? && s.calls[c].drops == []
    ensures Alone(g, path, c) && path[0] == s && |path| <= 8
    ensures c < |path[|path| - 1].calls| && path[|path| - 1].calls[c].pc.Returned?
  {
    path := [s];
    while !path[|path| - 1].calls[c].pc.Returned?
      invariant Alone(g, path, c) && path[0] == s && OnItsWay(g, s, path[|path| - 1], c)
      decreases Rank(path[|path| - 1].calls[c].pc)
    {
      var last := path[|path| - 1];
      var next := Moved(g, last, c);
      assert Next(g, last, Move(c), next);
      MoveOnItsWay(g, s, last, c, next);
      path := path + [next];
    }
    AloneItIsDecidedByRoom(g, path, c);
  }

  // ----- the workers alone empty the queue -----

  /** Worker steps a task still needs. */
  function Owed(c: Call): nat {
    if c.item.Queued? then 3 else if c.item.Taken? then 2 else if c.item.Settled? then 1 else 0
  }

  function AllOwed(calls: seq<Call>): nat {
    if calls == [] then 0 else Owed(calls[0]) + AllOwed(calls[1..])
  }

  lemma {:induction false} OwedPut(calls: seq<Call>, c: nat, call: Call)
    requires c < |calls|
    ensures AllOwed(calls[c := call]) == AllOwed(calls) - Owed(calls[c]) + Owed(call)
    ensures AllOwed(calls) >= Owed(calls[c])
  {
    if c > 0 {
      assert calls[c := call][1..] == calls[1..][c - 1 := call];
      OwedPut(calls[1..], c - 1, call);
    }
  }

  lemma {:induction false} SomeoneWorks(calls: seq<Call>) returns (c: nat)
    requires Working(calls) > 0
    ensures c < |calls| && (calls[c].item.Taken? || calls[c].item.Settled?)
  {
    if calls[0].item.Taken? || calls[0].item.Settled? {
      c := 0;
    } else {
      c := SomeoneWorks(calls[1..]);
      c := c + 1;
    }
  }

  lemma WorkerMoves(g: Config, s: State) returns (t: Step, s': State)
    requires Inv(g, s) && g.workers > 0 && !Drained(s)
    ensures WorkerStep(g, s, t, s') && AllOwed(s'.calls) < AllOwed(s.calls)
  {
    if Working(s.calls) > 0 {
      var c := SomeoneWorks(s.calls);
      if s.calls[c].item.Taken? {
        var call := s.calls[c].(item := Settled, processed := s.calls[c].processed + 1);
        t, s' := Finish(c, false), Put(s, c, call);
        OwedPut(s.calls, c, call);
      } else {
        t, s' := Free(c), Put(s, c, s.calls[c].(item := Freed)).(bytes := s.bytes - s.calls[c].weight);
        OwedPut(s.calls, c, s.calls[c].(item := Freed));
      }
    } else {
      var c := s.queue[0];
      assert s.calls[c].item.Queued?;
      t, s' := Take, Put(s, c, s.calls[c].(item := Taken)).(queue := s.queue[1..]);
      OwedPut(s.calls, c, s.calls[c].(item := Taken));
    }
  }

  /** From every state of every run the workers, however few and without help, can finish
      all that is queued; nothing waits on a caller or a closer. */
  lemma {:induction false} WorkersCanDrain(g: Config, run: seq<State>, steps: seq<Step>) returns (run': seq<State>, steps': seq<Step>)
    requires Run(g, run, steps) && g.workers > 0
    ensures Run(g, run', steps') && run <= run' && steps <= steps' && Drained(run'[|steps'|])
    ensures forall i :: |steps| <= i < |steps'| ==> steps'[i].Take? || steps'[i].Finish? || steps'[i].Free?
    decreases AllOwed(run[|steps|].calls)
  {
    EveryRunKeepsInv(g, run, steps);
    hide Inv, Next, WorkerStep, Drained;
    if Drained(run[|steps|]) {
      run', steps' := run, steps;
    } else {
      var t, s' := WorkerMoves(g, run[|steps|]);
      TheyAreWorkers(g, run[|steps|], t, s');
      run', steps' := WorkersCanDrain(g, run + [s'], steps + [t]);
    }
  }

  lemma TheyAreWorkers(g: Config, s: State, t: Step, s': State)
    requires WorkerStep(g, s, t, s')
    ensures Next(g, s, t, s') && (t.Take? || t.Finish? || t.Free?)
  {
  }

  lemma {:induction false} NothingCharged(calls: seq<Call>)
    requires forall c :: 0 <= c < |calls| ==> !Weighs(calls[c])
    ensures Charged(calls) == 0
  {
    if calls != [] { NothingCharged(calls[1..]); }
  }

  /** No weight is lost on the way: an idle pipeline has its whole budget back. */
  lemma IdleOwesNothing(g: Config, run: seq<State>, steps: seq<Step>)
    requires Run(g, run, steps) && Drained(run[|steps|]) && NoReader(run[|steps|])
    ensures run[|steps|].bytes == 0
  {
    EveryRunKeepsInv(g, run, steps);
    var s := run[|steps|];
    forall c | 0 <= c < |s.calls| ensures !Weighs(s.calls[c]) {
      NobodyWorking(s.calls, c);
    }
    NothingCharged(s.calls);
  }

  /** Once closed the channel only empties, oldest task first. */
  lemma ClosedOnlyDrains(g: Config, run: seq<State>, steps: seq<Step>, t: Step, s': State)
    requires Run(g, run, steps) && run[|steps|].closed && Next(g, run[|steps|], t, s')
    ensures s'.closed
    ensures s'.queue == run[|steps|].queue || (run[|steps|].queue != [] && s'.queue == run[|steps|].queue[1..])
  {
    EveryRunKeepsInv(g, run, steps);
  }

  /** What a finished call counted and what became of its task stay as they are. */
  lemma FinishedStaysFinished(g: Config, run: seq<State>, steps: seq<Step>, t: Step, s': State, c: nat)
    requires Run(g, run, steps) && Next(g, run[|steps|], t, s')
    requires c < |run[|steps|].calls|
    requires var call := run[|steps|].calls[c]; call.pc.Returned? && (!call.pc.sent || call.item.Freed?)
    ensures c < |s'.calls| && s'.calls[c] == run[|steps|].calls[c]
  {
    EveryRunKeepsInv(g, run, steps);
    assert CallOk(run[|steps|].calls[c]);
  }
}
