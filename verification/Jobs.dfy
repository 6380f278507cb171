/** Query conservation over any number of receive loops and workers.

    Threads share only the pending queue and the done queues, each behind its mutex; one
    step is one critical section or one thread's own bookkeeping between two of them. */
module Jobs {
  import opened Names
  import opened JobQueue
  import PacketFrame

  const MAX_PENDING := 4096

  /** struct dns_job: which packet it is, which loop it arrived on, its resp_len. */
  datatype Job = Job(id: nat, loop: nat, resp: nat)

  /** A worker thread: waiting for a job, holding one, or returned. */
  datatype Worker = Idle | Holding(job: Job) | Exited

  /** A receive loop: its done queue, the list it has drained and not yet batched, what it
      has put on the wire, and its counters. */
  datatype Loop = Loop(done: Queue<Job>, hand: seq<Job>, sent: seq<Job>,
                       received: nat, unparsed: nat, queueFull: nat, noSlot: nat, noFrame: nat, exited: bool)

  /** The main thread's shutdown sequence. */
  datatype Phase = Running | Stopping | Draining(next: nat, drained: bool) | Printed

  /** `issued` numbers the parsed packets; `gone` lists the jobs freed without a reply. */
  datatype State = State(pending: Queue<Job>, workers: seq<Worker>, loops: seq<Loop>, phase: Phase,
                         dropped: nat, issued: nat, gone: seq<Job>)

  datatype Step =
    | Receive(l: nat, parsed: bool)
    | Take(w: nat)
    | Drop(w: nat)
    | Finish(w: nat, len: nat)
    | WorkerExit(w: nat)
    | Drain(l: nat)
    | Batch(l: nat, slots: nat, frames: nat)
    | LoopExit(l: nat)
    | JoinLoops
    | JoinWorkers
    | FinalDrain
    | FinalBatch(slots: nat, frames: nat)
    | NextLoop
    | Print

  predicate Usable(j: Job) {
    0 < j.resp <= PacketFrame.MAX_MSG_LEN
  }

  /** The batch collected from a drained list, what is freed on the way, and the rest. */
  function Collect(list: seq<Job>, room: nat): (r: (seq<Job>, seq<Job>, seq<Job>))
    ensures |r.0| + |r.1| + |r.2| == |list| && |r.0| <= room
    ensures list != [] && room > 0 ==> |r.2| < |list|
    decreases |list|
  {
    if list == [] || room == 0 then ([], [], list)
    else if Usable(list[0]) then
      var r := Collect(list[1..], room - 1);
      ([list[0]] + r.0, r.1, r.2)
    else
      var r := Collect(list[1..], room);
      (r.0, [list[0]] + r.1, r.2)
  }

  predicate LoopRuns(s: State, l: nat) {
    l < |s.loops| && !s.loops[l].exited
  }

  predicate Enabled(s: State, e: Step) {
    match e
    case Receive(l, _) => LoopRuns(s, l) && s.loops[l].hand == []
    case Take(w) => w < |s.workers| && s.workers[w].Idle? && s.pending.jobs != []
    case Drop(w) => w < |s.workers| && s.workers[w].Holding?
    case Finish(w, len) => w < |s.workers| && s.workers[w].Holding? && 0 < len <= PacketFrame.MAX_MSG_LEN
    case WorkerExit(w) => w < |s.workers| && s.workers[w].Idle? && s.pending.jobs == [] && s.pending.down
    case Drain(l) => LoopRuns(s, l) && s.loops[l].hand == []
    case Batch(l, _, _) => LoopRuns(s, l) && s.loops[l].hand != []
    case LoopExit(l) => LoopRuns(s, l) && s.loops[l].hand == []
    case JoinLoops => s.phase.Running? && forall l :: 0 <= l < |s.loops| ==> s.loops[l].exited
    case JoinWorkers => s.phase.Stopping? && forall w :: 0 <= w < |s.workers| ==> s.workers[w].Exited?
    case FinalDrain => s.phase.Draining? && s.phase.next < |s.loops| && !s.phase.drained
    case FinalBatch(_, _) =>
      s.phase.Draining? && s.phase.next < |s.loops| && s.phase.drained && s.loops[s.phase.next].hand != []
    case NextLoop =>
      s.phase.Draining? && s.phase.next < |s.loops| && s.phase.drained && s.loops[s.phase.next].hand == []
    case Print => s.phase.Draining? && s.phase.next == |s.loops|
  }

  /** drain_rx for one packet. */
  function Received(s: State, l: nat, parsed: bool): State
    requires l < |s.loops|
  {
    var lp := s.loops[l].(received := s.loops[l].received + 1);
    if !parsed then s.(loops := s.loops[l := lp.(unparsed := lp.unparsed + 1)])
    else
      var job := Job(s.issued, l, 0);
      if s.pending.Accepts() then
        s.(loops := s.loops[l := lp], pending := s.pending.Pushed(job), issued := s.issued + 1)
      else
        s.(loops := s.loops[l := lp.(queueFull := lp.queueFull + 1)], gone := s.gone + [job], issued := s.issued + 1)
  }

  /** worker_main after a successful resolution. */
  function Finished(s: State, w: nat, len: nat): State
    requires w < |s.workers| && s.workers[w].Holding?
  {
    var job := s.workers[w].job.(resp := len);
    var s' := s.(workers := s.workers[w := Idle]);
    if job.loop < |s.loops| && s.loops[job.loop].done.Accepts() then
      s'.(loops := s.loops[job.loop := s.loops[job.loop].(done := s.loops[job.loop].done.Pushed(job))])
    else s'.(gone := s.gone + [job])
  }

  function Drained(lp: Loop): Loop {
    lp.(hand := lp.done.jobs, done := lp.done.(jobs := []))
  }

  /** One turn of the batch loop of drain_done_and_tx: how many go out is limited by the
      transmit slots and then by the free frames. */
  function BatchSent(lp: Loop, slots: nat, frames: nat): (r: nat)
    ensures r <= |lp.hand|
  {
    Min(Min(|Collect(lp.hand, PacketFrame.TX_BATCH_SIZE).0|, slots), frames)
  }

  function Batched(lp: Loop, slots: nat, frames: nat): Loop {
    var c := Collect(lp.hand, PacketFrame.TX_BATCH_SIZE);
    var want := Min(|c.0|, slots);
    var out := Min(want, frames);
    lp.(hand := c.2, sent := lp.sent + c.0[..out],
        noSlot := lp.noSlot + (|c.0| - want), noFrame := lp.noFrame + (want - out))
  }

  function BatchGone(lp: Loop, slots: nat, frames: nat): seq<Job> {
    var c := Collect(lp.hand, PacketFrame.TX_BATCH_SIZE);
    c.1 + c.0[BatchSent(lp, slots, frames)..]
  }

  function AfterBatch(s: State, l: nat, slots: nat, frames: nat): State
    requires l < |s.loops|
  {
    s.(loops := s.loops[l := Batched(s.loops[l], slots, frames)],
       gone := s.gone + BatchGone(s.loops[l], slots, frames))
  }

  function Apply(s: State, e: Step): State
    requires Enabled(s, e)
  {
    match e
    case Receive(l, parsed) => Received(s, l, parsed)
    case Take(w) =>
      s.(pending := s.pending.(jobs := s.pending.jobs[1..]), workers := s.workers[w := Holding(s.pending.jobs[0])])
    case Drop(w) => s.(workers := s.workers[w := Idle], dropped := s.dropped + 1, gone := s.gone + [s.workers[w].job])
    case Finish(w, len) => Finished(s, w, len)
    case WorkerExit(w) => s.(workers := s.workers[w := Exited])
    case Drain(l) => s.(loops := s.loops[l := Drained(s.loops[l])])
    case Batch(l, slots, frames) => AfterBatch(s, l, slots, frames)
    case LoopExit(l) => s.(loops := s.loops[l := s.loops[l].(exited := true)])
    case JoinLoops => s.(phase := Stopping, pending := s.pending.(down := true))
    case JoinWorkers => s.(phase := Draining(0, false))
    case FinalDrain =>
      s.(phase := s.phase.(drained := true), loops := s.loops[s.phase.next := Drained(s.loops[s.phase.next])])
    case FinalBatch(slots, frames) => AfterBatch(s, s.phase.next, slots, frames)
    case NextLoop => s.(phase := Draining(s.phase.next + 1, false))
    case Print => s.(phase := Printed)
  }

  predicate Initial(s: State) {
    && s.pending == Queue([], MAX_PENDING, false) && s.phase.Running? && s.dropped == 0 && s.issued == 0 && s.gone == []
    && (forall w :: 0 <= w < |s.workers| ==> s.workers[w].Idle?)
    && (forall l :: 0 <= l < |s.loops| ==> s.loops[l] == Loop(Queue([], 0, false), [], [], 0, 0, 0, 0, 0, false))
  }

  function Run(s: State, steps: seq<Step>): (r: Option<State>)
    decreases |steps|
  {
    if steps == [] then Some(s)
    else if !Enabled(s, steps[0]) then None
    else Run(Apply(s, steps[0]), steps[1..])
  }

  // ---------------------------------------------------------------- sums over threads

  function Sum(xs: seq<int>): int {
    if xs == [] then 0 else xs[0] + Sum(xs[1..])
  }

  lemma {:induction false} SumUpdate(xs: seq<int>, i: nat, v: int)
    requires i < |xs|
    ensures Sum(xs[i := v]) == Sum(xs) - xs[i] + v
    decreases |xs|
  {
    if i == 0 {
      assert xs[i := v][1..] == xs[1..];
    } else {
      assert xs[i := v][1..] == xs[1..][i - 1 := v];
      SumUpdate(xs[1..], i - 1, v);
    }
  }

  lemma {:induction false} SumOfZeros(xs: seq<int>)
    requires forall i :: 0 <= i < |xs| ==> xs[i] == 0
    ensures Sum(xs) == 0
    decreases |xs|
  {
    if xs != [] { SumOfZeros(xs[1..]); }
  }

  /** How often a packet's job appears in a list. */
  function Occ(jobs: seq<Job>, id: nat): nat {
    if jobs == [] then 0 else (if jobs[0].id == id then 1 else 0) + Occ(jobs[1..], id)
  }

  lemma {:induction false} OccConcat(a: seq<Job>, b: seq<Job>, id: nat)
    ensures Occ(a + b, id) == Occ(a, id) + Occ(b, id)
    decreases |a|
  {
    if a == [] {
      assert a + b == b;
    } else {
      assert (a + b)[1..] == a[1..] + b;
      OccConcat(a[1..], b, id);
    }
  }

  lemma OccOne(j: Job, id: nat)
    ensures Occ([j], id) == if j.id == id then 1 else 0
  {
    assert [j][1..] == [];
  }

  /** Packets a loop has received and not yet passed on to a worker or settled itself. */
  function Balance(lp: Loop): int {
    lp.received - lp.unparsed - lp.queueFull - |lp.done.jobs| - |lp.hand| - |lp.sent| - lp.noSlot - lp.noFrame
  }

  function Balances(loops: seq<Loop>): (r: seq<int>)
    ensures |r| == |loops|
  {
    seq(|loops|, i requires 0 <= i < |loops| => Balance(loops[i]))
  }

  function Parsed(lp: Loop): int {
    lp.received - lp.unparsed
  }

  function Parses(loops: seq<Loop>): (r: seq<int>)
    ensures |r| == |loops|
  {
    seq(|loops|, i requires 0 <= i < |loops| => Parsed(loops[i]))
  }

  function LoopOcc(lp: Loop, id: nat): int {
    Occ(lp.done.jobs, id) + Occ(lp.hand, id) + Occ(lp.sent, id)
  }

  function LoopOccs(loops: seq<Loop>, id: nat): (r: seq<int>)
    ensures |r| == |loops|
  {
    seq(|loops|, i requires 0 <= i < |loops| => LoopOcc(loops[i], id))
  }

  function Held(w: Worker): seq<Job> {
    if w.Holding? then [w.job] else []
  }

  function Holdings(workers: seq<Worker>): (r: seq<int>)
    ensures |r| == |workers|
  {
    seq(|workers|, i requires 0 <= i < |workers| => |Held(workers[i])|)
  }

  function WorkerOccs(workers: seq<Worker>, id: nat): (r: seq<int>)
    ensures |r| == |workers|
  {
    seq(|workers|, i requires 0 <= i < |workers| => Occ(Held(workers[i]), id))
  }

  lemma LoopChanged(loops: seq<Loop>, l: nat, lp: Loop, id: nat)
    requires l < |loops|
    ensures Sum(Balances(loops[l := lp])) == Sum(Balances(loops)) - Balance(loops[l]) + Balance(lp)
    ensures Sum(Parses(loops[l := lp])) == Sum(Parses(loops)) - Parsed(loops[l]) + Parsed(lp)
    ensures Sum(LoopOccs(loops[l := lp], id)) == Sum(LoopOccs(loops, id)) - LoopOcc(loops[l], id) + LoopOcc(lp, id)
  {
    hide Balance, Parsed, LoopOcc, Sum;
    assert Parses(loops[l := lp]) == Parses(loops)[l := Parsed(lp)];
    SumUpdate(Parses(loops), l, Parsed(lp));
    assert Balances(loops[l := lp]) == Balances(loops)[l := Balance(lp)];
    assert LoopOccs(loops[l := lp], id) == LoopOccs(loops, id)[l := LoopOcc(lp, id)];
    SumUpdate(Balances(loops), l, Balance(lp));
    SumUpdate(LoopOccs(loops, id), l, LoopOcc(lp, id));
  }

  lemma WorkerChanged(workers: seq<Worker>, w: nat, v: Worker, id: nat)
    requires w < |workers|
    ensures Sum(Holdings(workers[w := v])) == Sum(Holdings(workers)) - |Held(workers[w])| + |Held(v)|
    ensures Sum(WorkerOccs(workers[w := v], id)) ==
              Sum(WorkerOccs(workers, id)) - Occ(Held(workers[w]), id) + Occ(Held(v), id)
  {
    hide Held, Occ, Sum;
    assert Holdings(workers[w := v]) == Holdings(workers)[w := |Held(v)|];
    assert WorkerOccs(workers[w := v], id) == WorkerOccs(workers, id)[w := Occ(Held(v), id) as int];
    SumUpdate(Holdings(workers), w, |Held(v)|);
    SumUpdate(WorkerOccs(workers, id), w, Occ(Held(v), id));
  }

  // ---------------------------------------------------------------- invariant

  /** Received packets are unparsed, refused, pending, with a worker, dropped by the
      resolver, done, in hand, sent, without slot or without frame. */
  predicate Conserved(s: State) {
    && Sum(Balances(s.loops)) == |s.pending.jobs| + Sum(Holdings(s.workers)) + s.dropped
    && Sum(Parses(s.loops)) == s.issued
  }

  function Sightings(s: State, id: nat): int {
    Occ(s.pending.jobs, id) + Sum(WorkerOccs(s.workers, id)) + Sum(LoopOccs(s.loops, id)) + Occ(s.gone, id)
  }

  /** Every parsed packet's job is in exactly one place, once. */
  ghost predicate OnceEach(s: State) {
    forall id: nat :: Sightings(s, id) == if id < s.issued then 1 else 0
  }

  /** Jobs with a reply, all from loop l. */
  predicate AllFrom(jobs: seq<Job>, l: nat) {
    forall i :: 0 <= i < |jobs| ==> jobs[i].loop == l && Usable(jobs[i])
  }

  predicate LoopOk(lp: Loop, l: nat) {
    && lp.done.cap == 0 && !lp.done.down
    && AllFrom(lp.done.jobs, l) && AllFrom(lp.hand, l) && AllFrom(lp.sent, l)
  }

  predicate LoopsOk(s: State) {
    forall l :: 0 <= l < |s.loops| ==> LoopOk(s.loops[l], l)
  }

  predicate RoutesOk(s: State) {
    && (forall i :: 0 <= i < |s.pending.jobs| ==> s.pending.jobs[i].loop < |s.loops|)
    && (forall w :: 0 <= w < |s.workers| && s.workers[w].Holding? ==> s.workers[w].job.loop < |s.loops|)
  }

  predicate Settled(lp: Loop) {
    lp.done.jobs == [] && lp.hand == []
  }

  predicate WorkersGone(s: State) {
    forall w :: 0 <= w < |s.workers| ==> s.workers[w].Exited?
  }

  predicate PhaseOk(s: State) {
    && (s.pending.down ==> !s.phase.Running? && forall l :: 0 <= l < |s.loops| ==> s.loops[l].exited)
    && (forall w :: 0 <= w < |s.workers| && s.workers[w].Exited? ==> s.pending.down && s.pending.jobs == [])
    && (!s.phase.Running? ==> s.pending.down)
    && (forall l :: 0 <= l < |s.loops| && s.loops[l].exited && s.phase != Draining(l, true) ==> s.loops[l].hand == [])
    && (s.phase.Draining? ==> WorkersGone(s) && s.phase.next <= |s.loops| && SettledTo(s, s.phase.next)
                              && (s.phase.drained && s.phase.next < |s.loops|
                                ==> s.loops[s.phase.next].done.jobs == []))
    && (s.phase.Printed? ==> WorkersGone(s) && SettledTo(s, |s.loops|))
  }

  predicate SettledTo(s: State, n: nat) {
    forall l :: 0 <= l < n && l < |s.loops| ==> Settled(s.loops[l])
  }

  ghost predicate Inv(s: State) {
    Conserved(s) && OnceEach(s) && LoopsOk(s) && RoutesOk(s) && PhaseOk(s)
  }

  // ---------------------------------------------------------------- every step keeps the counts

  function Excess(s: State): int {
    Sum(Balances(s.loops)) - |s.pending.jobs| - Sum(Holdings(s.workers)) - s.dropped
  }

  /** A step balances, and a job appears only as a fresh packet. */
  predicate Kept(s: State, s': State, id: nat) {
    && Excess(s') == Excess(s)
    && Sum(Parses(s'.loops)) - s'.issued == Sum(Parses(s.loops)) - s.issued
    && Sightings(s', id) == Sightings(s, id) + if s.issued <= id < s'.issued then 1 else 0
  }

  lemma ReceiveKeeps(s: State, l: nat, parsed: bool, id: nat)
    requires l < |s.loops|
    ensures Kept(s, Received(s, l, parsed), id)
  {
    hide Sum, Balances, Parses, LoopOccs, Holdings, WorkerOccs, Occ;
    var job := Job(s.issued, l, 0);
    LoopChanged(s.loops, l, Received(s, l, parsed).loops[l], id);
    OccOne(job, id);
    OccConcat(s.pending.jobs, [job], id);
    OccConcat(s.gone, [job], id);
  }

  lemma TakeKeeps(s: State, w: nat, id: nat)
    requires Enabled(s, Take(w))
    ensures Kept(s, Apply(s, Take(w)), id)
  {
    hide Sum, Balances, Parses, LoopOccs, Holdings, WorkerOccs, Occ;
    var job := s.pending.jobs[0];
    WorkerChanged(s.workers, w, Holding(job), id);
    NoneHeld(id);
    OccConcat([job], s.pending.jobs[1..], id);
    assert s.pending.jobs == [job] + s.pending.jobs[1..];
  }

  lemma NoneHeld(id: nat)
    ensures Occ([], id) == 0
  {
  }

  lemma DropKeeps(s: State, w: nat, id: nat)
    requires Enabled(s, Drop(w))
    ensures Kept(s, Apply(s, Drop(w)), id)
  {
    hide Sum, Balances, Parses, LoopOccs, Holdings, WorkerOccs, Occ;
    WorkerChanged(s.workers, w, Idle, id);
    NoneHeld(id);
    OccConcat(s.gone, [s.workers[w].job], id);
  }

  lemma FinishKeeps(s: State, w: nat, len: nat, id: nat)
    requires Enabled(s, Finish(w, len)) && RoutesOk(s) && LoopsOk(s)
    ensures Kept(s, Finished(s, w, len), id)
  {
    hide Sum, Balances, Parses, LoopOccs, Holdings, WorkerOccs, Occ, AllFrom;
    var job := s.workers[w].job.(resp := len);
    var lp := s.loops[job.loop];
    assert LoopOk(lp, job.loop);
    WorkerChanged(s.workers, w, Idle, id);
    NoneHeld(id);
    LoopChanged(s.loops, job.loop, lp.(done := lp.done.Pushed(job)), id);
    OccConcat(lp.done.jobs, [job], id);
    OccOne(job, id);
    OccOne(s.workers[w].job, id);
  }

  lemma ExitKeeps(s: State, w: nat, id: nat)
    requires Enabled(s, WorkerExit(w))
    ensures Kept(s, Apply(s, WorkerExit(w)), id)
  {
    hide Sum, Balances, Parses, LoopOccs, Holdings, WorkerOccs, Occ;
    WorkerChanged(s.workers, w, Exited, id);
  }

  lemma LoopStepKeeps(s: State, l: nat, lp: Loop, phase: Phase, id: nat)
    requires l < |s.loops| && Balance(lp) == Balance(s.loops[l]) && Parsed(lp) == Parsed(s.loops[l])
    requires LoopOcc(lp, id) == LoopOcc(s.loops[l], id)
    ensures Kept(s, s.(loops := s.loops[l := lp], phase := phase), id)
  {
    hide Sum, Balances, Parses, LoopOccs, Holdings, WorkerOccs, Occ, Balance, Parsed, LoopOcc;
    LoopChanged(s.loops, l, lp, id);
  }

  lemma DrainedKeeps(lp: Loop, id: nat)
    requires lp.hand == []
    ensures Balance(Drained(lp)) == Balance(lp) && LoopOcc(Drained(lp), id) == LoopOcc(lp, id)
  {
    hide Occ;
    NoneHeld(id);
  }

  /** Collecting from usable jobs only takes the first ones. */
  lemma {:induction false} CollectPrefix(list: seq<Job>, room: nat, l: nat)
    requires AllFrom(list, l)
    ensures Collect(list, room) == (list[..Min(|list|, room)], [], list[Min(|list|, room)..])
    decreases |list|
  {
    if list != [] && room != 0 {
      CollectPrefix(list[1..], room - 1, l);
      var m := Min(|list|, room);
      assert Min(|list[1..]|, room - 1) == m - 1;
      assert [list[0]] + list[1..][..m - 1] == list[..m];
      assert list[1..][m - 1..] == list[m..];
    }
  }

  /** The drained list splits into what is sent, what is given up and what is left. */
  lemma BatchSplits(lp: Loop, l: nat, slots: nat, frames: nat)
    requires LoopOk(lp, l)
    ensures var lp' := Batched(lp, slots, frames);
            var out := lp.hand[..BatchSent(lp, slots, frames)];
            && lp'.sent == lp.sent + out
            && lp.hand == out + (BatchGone(lp, slots, frames) + lp'.hand)
            && lp'.noSlot + lp'.noFrame == lp.noSlot + lp.noFrame + |BatchGone(lp, slots, frames)|
            && lp' == lp.(hand := lp'.hand, sent := lp'.sent, noSlot := lp'.noSlot, noFrame := lp'.noFrame)
  {
    hide Collect, AllFrom;
    CollectPrefix(lp.hand, PacketFrame.TX_BATCH_SIZE, l);
    CutTwice(lp.hand, Min(|lp.hand|, PacketFrame.TX_BATCH_SIZE), BatchSent(lp, slots, frames));
  }

  lemma CutTwice(hand: seq<Job>, n: nat, k: nat)
    requires k <= n <= |hand|
    ensures hand[..n][..k] == hand[..k] && |hand[..n][k..]| == n - k
    ensures hand == hand[..k] + (([] + hand[..n][k..]) + hand[n..])
  {
  }

  lemma BatchKeeps(s: State, l: nat, slots: nat, frames: nat, id: nat)
    requires l < |s.loops| && LoopsOk(s)
    ensures Kept(s, AfterBatch(s, l, slots, frames), id)
  {
    hide Sum, Balances, Parses, LoopOccs, Holdings, WorkerOccs, Occ, AllFrom, Batched, BatchSent, BatchGone;
    var lp := s.loops[l];
    assert LoopOk(lp, l);
    BatchSplits(lp, l, slots, frames);
    var lp', gone := Batched(lp, slots, frames), BatchGone(lp, slots, frames);
    var out := lp.hand[..BatchSent(lp, slots, frames)];
    LoopChanged(s.loops, l, lp', id);
    OccConcat(lp.sent, out, id);
    OccConcat(out, gone + lp'.hand, id);
    OccConcat(gone, lp'.hand, id);
    OccConcat(s.gone, gone, id);
  }

  lemma HandIsEmpty(s: State)
    requires Enabled(s, FinalDrain) && PhaseOk(s)
    ensures s.loops[s.phase.next].hand == []
  {
  }

  lemma StepKeepsCounts(s: State, e: Step, id: nat)
    requires Enabled(s, e) && LoopsOk(s) && RoutesOk(s) && PhaseOk(s)
    ensures Kept(s, Apply(s, e), id)
  {
    hide Sum, Balances, Parses, LoopOccs, Holdings, WorkerOccs, Occ, AllFrom, Batched, BatchSent, BatchGone, LoopsOk,
         RoutesOk, PhaseOk, Received, Finished;
    match e {
      case Receive(l, parsed) => ReceiveKeeps(s, l, parsed, id);
      case Take(w) => TakeKeeps(s, w, id);
      case Drop(w) => DropKeeps(s, w, id);
      case Finish(w, len) => FinishKeeps(s, w, len, id);
      case WorkerExit(w) => ExitKeeps(s, w, id);
      case Drain(l) =>
        DrainedKeeps(s.loops[l], id);
        LoopStepKeeps(s, l, Drained(s.loops[l]), s.phase, id);
      case Batch(l, slots, frames) => BatchKeeps(s, l, slots, frames, id);
      case LoopExit(l) => LoopStepKeeps(s, l, s.loops[l].(exited := true), s.phase, id);
      case FinalDrain =>
        HandIsEmpty(s);
        DrainedKeeps(s.loops[s.phase.next], id);
        LoopStepKeeps(s, s.phase.next, Drained(s.loops[s.phase.next]), s.phase.(drained := true), id);
      case FinalBatch(slots, frames) => BatchKeeps(s, s.phase.next, slots, frames, id);
      case _ =>
    }
  }

  // ---------------------------------------------------------------- every step keeps the rest

  lemma StepKeepsLoops(s: State, e: Step)
    requires Enabled(s, e) && LoopsOk(s) && RoutesOk(s)
    ensures LoopsOk(Apply(s, e)) && RoutesOk(Apply(s, e))
  {
    hide Batched, BatchSent, BatchGone, AllFrom;
    var s' := Apply(s, e);
    match e {
      case Batch(l, slots, frames) => BatchOk(s.loops[l], l, slots, frames);
      case FinalBatch(slots, frames) => BatchOk(s.loops[s.phase.next], s.phase.next, slots, frames);
      case Drain(l) => NoneFrom(l);
      case FinalDrain => NoneFrom(s.phase.next);
      case Finish(w, len) =>
        var job := s.workers[w].job;
        OneMoreFrom(s.loops[job.loop].done.jobs, job.(resp := len));
      case _ =>
    }
    assert LoopsOk(s');
  }

  lemma NoneFrom(l: nat)
    ensures AllFrom([], l)
  {
  }

  lemma OneMoreFrom(jobs: seq<Job>, job: Job)
    requires AllFrom(jobs, job.loop) && Usable(job)
    ensures AllFrom(jobs + [job], job.loop)
  {
  }

  lemma BatchOk(lp: Loop, l: nat, slots: nat, frames: nat)
    requires LoopOk(lp, l)
    ensures LoopOk(Batched(lp, slots, frames), l)
  {
    hide Batched, BatchSent, BatchGone;
    BatchSplits(lp, l, slots, frames);
    var k := BatchSent(lp, slots, frames);
    var lp' := Batched(lp, slots, frames);
    assert lp'.hand == lp.hand[|lp.hand| - |lp'.hand|..];
    assert lp'.sent == lp.sent + lp.hand[..k];
  }

  lemma StepKeepsPhase(s: State, e: Step)
    requires Enabled(s, e) && PhaseOk(s)
    ensures PhaseOk(Apply(s, e))
  {
    hide Batched, BatchSent, BatchGone;
    var s' := Apply(s, e);
    match e {
      case Batch(l, slots, frames) => BatchLeavesDone(s.loops[l], slots, frames);
      case FinalBatch(slots, frames) => BatchLeavesDone(s.loops[s.phase.next], slots, frames);
      case _ =>
    }
  }

  lemma BatchLeavesDone(lp: Loop, slots: nat, frames: nat)
    ensures Batched(lp, slots, frames).done == lp.done && Batched(lp, slots, frames).exited == lp.exited
  {
    hide Collect;
  }

  // ---------------------------------------------------------------- every run

  lemma StepKeepsInv(s: State, e: Step)
    requires Inv(s) && Enabled(s, e)
    ensures Inv(Apply(s, e))
  {
    hide Sightings, Conserved, LoopsOk, RoutesOk, PhaseOk, Enabled, Apply;
    var s' := Apply(s, e);
    StepKeepsLoops(s, e);
    StepKeepsPhase(s, e);
    IssuedGrows(s, e);
    forall id: nat ensures Sightings(s', id) == if id < s'.issued then 1 else 0 {
      StepKeepsCounts(s, e, id);
      KeptSightings(s, s', id);
    }
    StepKeepsCounts(s, e, 0);
    KeptBalance(s, s');
  }

  lemma IssuedGrows(s: State, e: Step)
    requires Enabled(s, e)
    ensures s.issued <= Apply(s, e).issued
  {
    hide Batched, BatchGone;
  }

  lemma KeptSightings(s: State, s': State, id: nat)
    requires Kept(s, s', id) && s.issued <= s'.issued && Sightings(s, id) == if id < s.issued then 1 else 0
    ensures Sightings(s', id) == if id < s'.issued then 1 else 0
  {
    hide Sightings, Excess;
  }

  lemma KeptBalance(s: State, s': State)
    requires Kept(s, s', 0) && Conserved(s)
    ensures Conserved(s')
  {
    hide Sightings, Sum, Balances, Parses, Holdings;
  }

  lemma InitialInv(s: State)
    requires Initial(s)
    ensures Inv(s)
  {
    hide Sum, Occ;
    forall id: nat ensures Sightings(s, id) == 0 {
      NoneHeld(id);
      SumOfZeros(LoopOccs(s.loops, id));
      SumOfZeros(WorkerOccs(s.workers, id));
    }
    SumOfZeros(Balances(s.loops));
    SumOfZeros(Parses(s.loops));
    SumOfZeros(Holdings(s.workers));
  }

  lemma {:induction false} RunKeepsInv(s: State, steps: seq<Step>)
    requires Inv(s) && Run(s, steps).Some?
    ensures Inv(Run(s, steps).value)
    ensures |Run(s, steps).value.workers| == |s.workers| && |Run(s, steps).value.loops| == |s.loops|
    decreases |steps|
  {
    hide Inv, Enabled, Apply;
    if steps != [] {
      StepKeepsInv(s, steps[0]);
      SameThreads(s, steps[0]);
      RunKeepsInv(Apply(s, steps[0]), steps[1..]);
    }
  }

  lemma SameThreads(s: State, e: Step)
    requires Enabled(s, e)
    ensures |Apply(s, e).workers| == |s.workers| && |Apply(s, e).loops| == |s.loops|
  {
    hide Batched, BatchGone;
  }

  /** A counter added up over the loops. */
  function Total(loops: seq<Loop>, f: Loop -> int): int {
    if loops == [] then 0 else f(loops[0]) + Total(loops[1..], f)
  }

  const PACKETS: Loop -> int := (lp: Loop) => lp.received
  const UNPARSED: Loop -> int := (lp: Loop) => lp.unparsed
  const REFUSED: Loop -> int := (lp: Loop) => lp.queueFull
  const WAITING: Loop -> int := (lp: Loop) => |lp.done.jobs| + |lp.hand|
  const SENT: Loop -> int := (lp: Loop) => |lp.sent|
  const UNSENT: Loop -> int := (lp: Loop) => lp.noSlot + lp.noFrame

  lemma {:induction false} BalanceAddsUp(loops: seq<Loop>)
    ensures Sum(Balances(loops)) == Total(loops, PACKETS) - Total(loops, UNPARSED) - Total(loops, REFUSED)
                                    - Total(loops, WAITING) - Total(loops, SENT) - Total(loops, UNSENT)
    ensures Sum(Parses(loops)) == Total(loops, PACKETS) - Total(loops, UNPARSED)
    decreases |loops|
  {
    if loops != [] {
      BalanceAddsUp(loops[1..]);
      assert Balances(loops)[1..] == Balances(loops[1..]);
      assert Parses(loops)[1..] == Parses(loops[1..]);
    }
  }

  /** Where every received packet is, counted over all loops and workers. */
  predicate Accounted(s: State) {
    && Total(s.loops, PACKETS) == Total(s.loops, UNPARSED) + s.issued
    && s.issued == Total(s.loops, REFUSED) + |s.pending.jobs| + Sum(Holdings(s.workers)) + s.dropped
                   + Total(s.loops, WAITING) + Total(s.loops, SENT) + Total(s.loops, UNSENT)
  }

  /** Conservation: in every reachable state each received packet is unparsed or refused,
      pending, with a worker, dropped by the resolver, waiting to be sent, sent, or given up
      for want of a slot or a frame. */
  lemma PacketsConserved(s: State, steps: seq<Step>)
    requires Initial(s) && Run(s, steps).Some?
    ensures Accounted(Run(s, steps).value)
  {
    hide Run, Initial, Sum, Balances, Parses, Holdings, Total, OnceEach, LoopsOk, RoutesOk, PhaseOk;
    InitialInv(s);
    RunKeepsInv(s, steps);
    BalanceAddsUp(Run(s, steps).value.loops);
  }

  /** With at least one worker nothing is in flight when the totals are printed: every
      parsed packet was refused, dropped, sent or given up. */
  lemma NothingInFlightAtPrint(s: State, steps: seq<Step>)
    requires Initial(s) && Run(s, steps).Some? && Run(s, steps).value.phase.Printed? && |s.workers| >= 1
    ensures var t := Run(s, steps).value;
            && t.pending.jobs == [] && Sum(Holdings(t.workers)) == 0 && Total(t.loops, WAITING) == 0
            && Total(t.loops, PACKETS) == Total(t.loops, UNPARSED) + Total(t.loops, REFUSED) + t.dropped
                                          + Total(t.loops, SENT) + Total(t.loops, UNSENT)
  {
    hide Run, Initial, Sum, Balances, Parses, Holdings, Total, OnceEach, LoopsOk, RoutesOk, Conserved;
    InitialInv(s);
    RunKeepsInv(s, steps);
    PacketsConserved(s, steps);
    var t := Run(s, steps).value;
    assert t.workers[0].Exited?;
    NobodyHolds(t.workers);
    NothingWaits(t.loops);
  }

  lemma NobodyHolds(workers: seq<Worker>)
    requires forall w :: 0 <= w < |workers| ==> workers[w].Exited?
    ensures Sum(Holdings(workers)) == 0
  {
    SumOfZeros(Holdings(workers));
  }

  lemma {:induction false} NothingWaits(loops: seq<Loop>)
    requires forall l :: 0 <= l < |loops| ==> Settled(loops[l])
    ensures Total(loops, WAITING) == 0
    decreases |loops|
  {
    if loops != [] {
      assert Settled(loops[0]);
      NothingWaits(loops[1..]);
    }
  }

  predicate NothingSent(lp: Loop) {
    Settled(lp) && lp.sent == [] && lp.noSlot == 0 && lp.noFrame == 0
  }

  /** What a run without workers looks like: nothing ever leaves the pending queue. */
  predicate Stuck(s: State) {
    && s.workers == [] && s.dropped == 0
    && forall l :: 0 <= l < |s.loops| ==> NothingSent(s.loops[l])
  }

  lemma {:induction false} StaysStuck(s: State, steps: seq<Step>)
    requires Stuck(s) && Run(s, steps).Some?
    ensures Stuck(Run(s, steps).value)
    decreases |steps|
  {
    hide Batched, BatchGone, Accounted;
    if steps != [] {
      assert Stuck(Apply(s, steps[0]));
      StaysStuck(Apply(s, steps[0]), steps[1..]);
    }
  }

  lemma {:induction false} NothingLeft(loops: seq<Loop>)
    requires forall l :: 0 <= l < |loops| ==> NothingSent(loops[l])
    ensures Total(loops, WAITING) == 0 && Total(loops, SENT) == 0 && Total(loops, UNSENT) == 0
    decreases |loops|
  {
    if loops != [] {
      assert Settled(loops[0]);
      NothingLeft(loops[1..]);
    }
  }

  /** Without any worker every packet that was parsed and not refused is still pending,
      also when the totals are printed. */
  lemma WithoutWorkers(s: State, steps: seq<Step>)
    requires Initial(s) && Run(s, steps).Some? && |s.workers| == 0
    ensures var t := Run(s, steps).value; t.issued == Total(t.loops, REFUSED) + |t.pending.jobs|
  {
    assert Stuck(s);
    hide Run, Initial, Total;
    StaysStuck(s, steps);
    PacketsConserved(s, steps);
    NothingLeft(Run(s, steps).value.loops);
    NobodyHolds(Run(s, steps).value.workers);
  }

  /** One loop and no worker, with a packet received or not. */
  function Lonely(received: bool, exited: bool, phase: Phase): State {
    var n: nat := if received then 1 else 0;
    State(Queue(if received then [Job(0, 0, 0)] else [], MAX_PENDING, !phase.Running?), [],
          [Loop(Queue([], 0, false), [], [], n, 0, 0, 0, 0, exited)], phase, 0, n, [])
  }

  lemma StepThen(s: State, e: Step, s': State, rest: seq<Step>, t: State)
    requires Takes(s, e, s') && Run(s', rest) == Some(t)
    ensures Run(s, [e] + rest) == Some(t)
  {
    hide Enabled, Apply;
    assert ([e] + rest)[1..] == rest;
  }

  lemma Shutdown() returns (steps: seq<Step>)
    ensures Run(Lonely(true, true, Stopping), steps) == Some(Lonely(true, true, Printed))
  {
    var t := Lonely(true, true, Printed);
    assert Run(t, []) == Some(t);
    Printing();
    hide Run, Apply, Enabled, Lonely;
    StepThen(Lonely(true, true, Draining(1, false)), Print, t, [], t);
    steps := [Print] + [];
    StepThen(Lonely(true, true, Draining(0, true)), NextLoop, Lonely(true, true, Draining(1, false)), steps, t);
    steps := [NextLoop] + steps;
    StepThen(Lonely(true, true, Draining(0, false)), FinalDrain, Lonely(true, true, Draining(0, true)), steps, t);
    steps := [FinalDrain] + steps;
    StepThen(Lonely(true, true, Stopping), JoinWorkers, Lonely(true, true, Draining(0, false)), steps, t);
    steps := [JoinWorkers] + steps;
  }

  predicate Takes(s: State, e: Step, s': State) {
    Enabled(s, e) && Apply(s, e) == s'
  }

  lemma Printing()
    ensures Takes(Lonely(true, true, Draining(1, false)), Print, Lonely(true, true, Printed))
    ensures Takes(Lonely(true, true, Draining(0, true)), NextLoop, Lonely(true, true, Draining(1, false)))
    ensures Takes(Lonely(true, true, Draining(0, false)), FinalDrain, Lonely(true, true, Draining(0, true)))
    ensures Takes(Lonely(true, true, Stopping), JoinWorkers, Lonely(true, true, Draining(0, false)))
  {
  }

  lemma Receiving()
    ensures Takes(Lonely(true, true, Running), JoinLoops, Lonely(true, true, Stopping))
    ensures Takes(Lonely(true, false, Running), LoopExit(0), Lonely(true, true, Running))
    ensures Takes(Lonely(false, false, Running), Receive(0, true), Lonely(true, false, Running))
  {
  }

  /** Such a run: without a worker the totals are printed with a packet still pending. */
  lemma PrintedWithPending() returns (steps: seq<Step>)
    ensures var s := Lonely(false, false, Running);
            && Initial(s) && |s.workers| == 0 && Run(s, steps).Some?
            && Run(s, steps).value.phase.Printed? && |Run(s, steps).value.pending.jobs| == 1
  {
    var t := Lonely(true, true, Printed);
    Receiving();
    steps := Shutdown();
    assert Initial(Lonely(false, false, Running));
    assert t.phase.Printed? && |t.pending.jobs| == 1;
    hide Run, Apply, Enabled, Lonely;
    StepThen(Lonely(true, true, Running), JoinLoops, Lonely(true, true, Stopping), steps, t);
    steps := [JoinLoops] + steps;
    StepThen(Lonely(true, false, Running), LoopExit(0), Lonely(true, true, Running), steps, t);
    steps := [LoopExit(0)] + steps;
    StepThen(Lonely(false, false, Running), Receive(0, true), Lonely(true, false, Running), steps, t);
    steps := [Receive(0, true)] + steps;
  }

  // ---------------------------------------------------------------- each reply once, on its own loop

  lemma {:induction false} OccAt(jobs: seq<Job>, i: nat)
    requires i < |jobs|
    ensures Occ(jobs, jobs[i].id) >= 1
    decreases |jobs|
  {
    if i > 0 { OccAt(jobs[1..], i - 1); }
  }

  lemma {:induction false} OccTwice(jobs: seq<Job>, i: nat, j: nat)
    requires i < j < |jobs| && jobs[i].id == jobs[j].id
    ensures Occ(jobs, jobs[i].id) >= 2
    decreases |jobs|
  {
    if i > 0 { OccTwice(jobs[1..], i - 1, j - 1); } else { OccAt(jobs[1..], j - 1); }
  }

  predicate NonNegative(xs: seq<int>) {
    forall i :: 0 <= i < |xs| ==> xs[i] >= 0
  }

  lemma {:induction false} SumAtLeast(xs: seq<int>, i: nat)
    requires NonNegative(xs) && i < |xs|
    ensures Sum(xs) >= xs[i]
    decreases |xs|
  {
    if i > 0 { SumAtLeast(xs[1..], i - 1); } else { SumNonNegative(xs[1..]); }
  }

  lemma {:induction false} SumNonNegative(xs: seq<int>)
    requires NonNegative(xs)
    ensures Sum(xs) >= 0
    decreases |xs|
  {
    if xs != [] { SumNonNegative(xs[1..]); }
  }

  lemma SumAtLeastTwo(xs: seq<int>, i: nat, j: nat)
    requires NonNegative(xs) && i < |xs| && j < |xs| && i != j
    ensures Sum(xs) >= xs[i] + xs[j]
  {
    hide Sum;
    SumUpdate(xs, i, 0);
    SumAtLeast(xs[i := 0], j);
  }

  lemma SeenAtMostOnce(s: State, id: nat)
    requires OnceEach(s)
    ensures Sum(LoopOccs(s.loops, id)) <= 1 && NonNegative(LoopOccs(s.loops, id))
  {
    hide Sum;
    assert Sightings(s, id) <= 1;
    SumNonNegative(WorkerOccs(s.workers, id));
  }

  /** In every run each reply leaves on the loop its query arrived on, and no query is
      answered twice, on one loop or on two. */
  lemma AnsweredAtMostOnce(s: State, steps: seq<Step>, l: nat, i: nat, m: nat, j: nat)
    requires Initial(s) && Run(s, steps).Some?
    requires var t := Run(s, steps).value;
             l < |t.loops| && i < |t.loops[l].sent| && m < |t.loops| && j < |t.loops[m].sent|
    ensures var t := Run(s, steps).value;
            && t.loops[l].sent[i].loop == l && Usable(t.loops[l].sent[i])
            && (t.loops[l].sent[i].id == t.loops[m].sent[j].id ==> l == m && i == j)
  {
    hide Run, Initial, Conserved, RoutesOk, PhaseOk, OnceEach, Occ, Sum;
    InitialInv(s);
    RunKeepsInv(s, steps);
    var t := Run(s, steps).value;
    assert LoopOk(t.loops[l], l);
    var id := t.loops[l].sent[i].id;
    if id == t.loops[m].sent[j].id {
      SeenAtMostOnce(t, id);
      OccAt(t.loops[l].sent, i);
      OccAt(t.loops[m].sent, j);
      if l != m {
        SumAtLeastTwo(LoopOccs(t.loops, id), l, m);
      } else if i != j {
        OccTwice(t.loops[l].sent, if i < j then i else j, if i < j then j else i);
        SumAtLeast(LoopOccs(t.loops, id), l);
      }
    }
  }

  // ---------------------------------------------------------------- the backlog

  /** The backlog holds at most 4096 jobs in the order they came, and is open while any loop
      still runs. */
  predicate BacklogOk(s: State) {
    && s.pending.cap == 4096 && |s.pending.jobs| <= 4096
    && (forall i, j :: 0 <= i < j < |s.pending.jobs| ==> s.pending.jobs[i].id < s.pending.jobs[j].id)
    && (forall i :: 0 <= i < |s.pending.jobs| ==> s.pending.jobs[i].id < s.issued)
    && (s.pending.down ==> forall l :: 0 <= l < |s.loops| ==> s.loops[l].exited)
  }

  lemma BacklogStep(s: State, e: Step)
    requires BacklogOk(s) && Enabled(s, e)
    ensures BacklogOk(Apply(s, e))
  {
    hide Batched, BatchGone;
    match e
    case Batch(l, slots, frames) => BatchKeepsOthers(s.loops[l], slots, frames);
    case FinalBatch(slots, frames) => BatchKeepsOthers(s.loops[s.phase.next], slots, frames);
    case _ =>
  }

  lemma BatchKeepsOthers(lp: Loop, slots: nat, frames: nat)
    ensures Batched(lp, slots, frames).exited == lp.exited
  {
  }

  lemma {:induction false} BacklogRun(s: State, steps: seq<Step>)
    requires BacklogOk(s) && Run(s, steps).Some?
    ensures BacklogOk(Run(s, steps).value)
    decreases |steps|
  {
    hide BacklogOk, Enabled, Apply;
    if steps != [] {
      BacklogStep(s, steps[0]);
      BacklogRun(Apply(s, steps[0]), steps[1..]);
    }
  }

  /** In every reachable state a parsed packet is refused if and only if 4096 are waiting;
      otherwise it waits behind all others. */
  lemma RefusedExactly(s: State, steps: seq<Step>, l: nat)
    requires Initial(s) && Run(s, steps).Some? && Enabled(Run(s, steps).value, Receive(l, true))
    ensures var t := Run(s, steps).value;
            var u := Apply(t, Receive(l, true));
            && |t.pending.jobs| <= 4096
            && u.loops[l].queueFull == t.loops[l].queueFull + (if |t.pending.jobs| == 4096 then 1 else 0)
            && u.pending.jobs == t.pending.jobs + (if |t.pending.jobs| == 4096 then [] else [Job(t.issued, l, 0)])
  {
    hide Run;
    BacklogRun(s, steps);
  }

  /** First come, first served: the job a worker takes is the oldest that waits. */
  lemma OldestFirst(s: State, steps: seq<Step>, w: nat)
    requires Initial(s) && Run(s, steps).Some? && Enabled(Run(s, steps).value, Take(w))
    ensures var t := Run(s, steps).value;
            var u := Apply(t, Take(w));
            && u.workers[w].Holding? && t.pending.jobs == [u.workers[w].job] + u.pending.jobs
            && forall j :: j in u.pending.jobs ==> u.workers[w].job.id < j.id
  {
    hide Run;
    BacklogRun(s, steps);
    var t := Run(s, steps).value;
    assert t.pending.jobs == [t.pending.jobs[0]] + t.pending.jobs[1..];
  }
}
