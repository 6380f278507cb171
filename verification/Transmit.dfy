/** drain_done_and_tx: the packet buffer and the job counts moved together. */
module Transmit {
  import opened Names
  import opened FrameStack
  import opened XskSocket
  import PacketFrame
  import Jobs

  /** What a job number stands for: addresses copied from the query, and the reply. */
  type Bodies = Jobs.Job -> PacketFrame.Job

  /** Each job's reply has the length the job says, its other fields their fixed sizes. */
  predicate Known(body: Bodies, jobs: seq<Jobs.Job>) {
    forall j :: j in jobs && Jobs.Usable(j) ==> body(j).Valid() && |body(j).resp| == j.resp
  }

  function ReplyFrames(body: Bodies, jobs: seq<Jobs.Job>): (r: seq<Bytes>)
    ensures |r| == |jobs|
  {
    seq(|jobs|, i requires 0 <= i < |jobs| => PacketFrame.ReplyFrame(body(jobs[i])))
  }

  function BodiesOf(body: Bodies, jobs: seq<Jobs.Job>): (r: seq<PacketFrame.Job>)
    ensures |r| == |jobs|
  {
    seq(|jobs|, i requires 0 <= i < |jobs| => body(jobs[i]))
  }

  lemma {:induction false} CollectedFrom(list: seq<Jobs.Job>, room: nat)
    ensures var c := Jobs.Collect(list, room);
            && (forall j :: j in c.0 ==> j in list && Jobs.Usable(j))
            && (forall j :: j in c.2 ==> j in list)
    decreases |list|
  {
    if list != [] && room > 0 {
      CollectedFrom(list[1..], if Jobs.Usable(list[0]) then room - 1 else room);
    }
  }

  lemma FramesOfBodies(body: Bodies, jobs: seq<Jobs.Job>, n: nat)
    requires n <= |jobs|
    ensures Frames(BodiesOf(body, jobs)[..n]) == ReplyFrames(body, jobs[..n])
  {
    hide PacketFrame.ReplyFrame;
  }

  lemma SentOn(body: Bodies, first: seq<Jobs.Job>, mid: seq<Jobs.Job>, last: seq<Jobs.Job>)
    requires first <= mid <= last
    ensures ReplyFrames(body, last[|first|..]) ==
            ReplyFrames(body, mid[|first|..]) + ReplyFrames(body, last[|mid|..])
  {
    hide PacketFrame.ReplyFrame;
  }

  /** One batch: the socket sends exactly the jobs that the step `Batch` sends, with the ring's
      free slots and the stack's free frames as that step's limits. */
  method TransmitOnce(socket: Socket, lp: Jobs.Loop, body: Bodies, seenTx: nat, kernel: Kernel)
    returns (after: Jobs.Loop)
    requires socket.Settled() && Known(body, lp.hand)
    modifies socket`fill, socket`rx, socket`tx, socket`txStaged, socket`comp, socket`outstanding, socket`umem
    modifies socket`wire, socket`delivered, socket`packets, socket`built, socket`replies
    modifies socket.stack`free, socket.stack.addr
    ensures socket.Settled()
    ensures |old(socket.tx)| <= RING_SIZE
    ensures after == Jobs.Batched(lp, Min(seenTx, RING_SIZE - |old(socket.tx)|), old(socket.stack.free))
    ensures lp.sent <= after.sent && Known(body, after.hand)
    ensures socket.built == old(socket.built) + ReplyFrames(body, after.sent[|lp.sent|..])
  {
    hide Socket.Settled, PacketFrame.ReplyFrame, PacketFrame.Job.Valid, Frames, ReplyFrames, Jobs.Collect;
    socket.RingSize();
    var c := Jobs.Collect(lp.hand, PacketFrame.TX_BATCH_SIZE);
    CollectedFrom(lp.hand, PacketFrame.TX_BATCH_SIZE);
    var batch := BodiesOf(body, c.0);
    assert AllSendable(batch) by { assert forall i :: 0 <= i < |batch| ==> c.0[i] in lp.hand; }
    var sent, noSlot, noFrame := socket.TransmitFrames(batch, seenTx, kernel);
    FramesOfBodies(body, c.0, sent);
    after := lp.(hand := c.2, sent := lp.sent + c.0[..sent],
                 noSlot := lp.noSlot + noSlot, noFrame := lp.noFrame + noFrame);
    assert after.sent[|lp.sent|..] == c.0[..sent];
  }

  lemma {:induction false} RunThen(s: Jobs.State, steps: seq<Jobs.Step>, e: Jobs.Step)
    requires Jobs.Run(s, steps).Some? && Jobs.Enabled(Jobs.Run(s, steps).value, e)
    ensures Jobs.Run(s, steps + [e]) == Some(Jobs.Apply(Jobs.Run(s, steps).value, e))
    decreases |steps|
  {
    hide Jobs.Enabled, Jobs.Apply;
    if steps == [] {
      assert [e][1..] == [] && steps + [e] == [e];
    } else {
      assert (steps + [e])[1..] == steps[1..] + [e];
      RunThen(Jobs.Apply(s, steps[0]), steps[1..], e);
    }
  }

  lemma OneStep(s: Jobs.State, e: Jobs.Step)
    requires Jobs.Enabled(s, e)
    ensures Jobs.Run(s, [e]) == Some(Jobs.Apply(s, e))
  {
    hide Jobs.Enabled, Jobs.Apply;
    assert [e][1..] == [];
  }

  lemma BatchStep(s: Jobs.State, l: nat, slots: nat, frames: nat)
    requires Jobs.LoopRuns(s, l) && s.loops[l].hand != []
    ensures Jobs.Enabled(s, Jobs.Batch(l, slots, frames))
    ensures var t := Jobs.Apply(s, Jobs.Batch(l, slots, frames));
            && Jobs.LoopRuns(t, l) && t.loops[l] == Jobs.Batched(s.loops[l], slots, frames)
            && |t.loops[l].hand| < |s.loops[l].hand|
  {
    hide Jobs.Collect;
  }

  /** The whole call is a drain and then batches of the job system, ends with nothing left in
      hand, and builds the frames of exactly the jobs those steps send, in their order. */
  method TransmitDone(socket: Socket, s: Jobs.State, l: nat, body: Bodies, seenTx: nat -> nat, kernel: nat -> Kernel)
    returns (t: Jobs.State, ghost steps: seq<Jobs.Step>)
    requires socket.Settled() && Jobs.LoopRuns(s, l) && s.loops[l].hand == [] && Known(body, s.loops[l].done.jobs)
    modifies socket`fill, socket`rx, socket`tx, socket`txStaged, socket`comp, socket`outstanding, socket`umem
    modifies socket`wire, socket`delivered, socket`packets, socket`built, socket`replies
    modifies socket.stack`free, socket.stack.addr
    ensures socket.Settled() && Jobs.Run(s, steps) == Some(t)
    ensures steps != [] && steps[0] == Jobs.Drain(l)
    ensures forall i :: 1 <= i < |steps| ==> steps[i].Batch? && steps[i].l == l
    ensures Jobs.LoopRuns(t, l) && t.loops[l].hand == [] && s.loops[l].sent <= t.loops[l].sent
    ensures socket.built == old(socket.built) + ReplyFrames(body, t.loops[l].sent[|s.loops[l].sent|..])
  {
    hide Socket.Settled, ReplyFrames, Jobs.Batched, Jobs.BatchGone, Jobs.Run;
    t, steps := Jobs.Apply(s, Jobs.Drain(l)), [Jobs.Drain(l)];
    OneStep(s, Jobs.Drain(l));
    var turns := 0;
    while t.loops[l].hand != []
      invariant socket.Settled() && Jobs.Run(s, steps) == Some(t)
      invariant steps != [] && steps[0] == Jobs.Drain(l)
      invariant forall i :: 1 <= i < |steps| ==> steps[i].Batch? && steps[i].l == l
      invariant Jobs.LoopRuns(t, l) && Known(body, t.loops[l].hand) && s.loops[l].sent <= t.loops[l].sent
      invariant socket.built == old(socket.built) + ReplyFrames(body, t.loops[l].sent[|s.loops[l].sent|..])
      decreases |t.loops[l].hand|
    {
      socket.RingSize();
      var step := Jobs.Batch(l, Min(seenTx(turns), RING_SIZE - |socket.tx|), socket.stack.free);
      BatchStep(t, l, step.slots, step.frames);
      var after := TransmitOnce(socket, t.loops[l], body, seenTx(turns), kernel(turns));
      SentOn(body, s.loops[l].sent, t.loops[l].sent, after.sent);
      RunThen(s, steps, step);
      t := Jobs.Apply(t, step);
      assert t.loops[l] == after;
      steps, turns := steps + [step], turns + 1;
    }
  }
}
