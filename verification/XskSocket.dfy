/** One AF_XDP socket: the free stack, the four rings, and the loop thread's operations on
    them, with the kernel moving frames between any two of its ring accesses. */
module XskSocket {
  import opened Names
  import opened Buffers
  import opened FrameStack
  import opened PacketFrame

  const FILL_RING_FRAMES := 2048
  /** Descriptors in the fill ring and in the transmit ring. */
  const RING_SIZE := 2048
  const RX_BATCH_SIZE := 64

  /** What the kernel may do: write a packet into a filled frame and hand it to rx, or send
      a frame and hand it to completion, in any order and with any offset into the frame. */
  datatype Move =
    | Receive(k: nat, headroom: nat, top: nat, packet: Bytes)
    | Complete(k: nat, headroom: nat, top: nat)

  /** Kernel moves before each ring access of an operation. */
  type Kernel = nat -> seq<Move>

  /** One turn of the loop thread; `seen` counts come from ring indices that may be stale. */
  datatype Op =
    | DrainRx(seenRx: nat, seenFill: nat, kernel: Kernel)
    | TransmitBatch(batch: seq<Job>, seenTx: nat, kernel: Kernel)
    | ReclaimTx(seenComp: nat, kernel: Kernel)

  /** Jobs as drain_done_and_tx batches them: fixed-size fields, a reply of at most 1500 bytes. */
  predicate AllSendable(batch: seq<Job>) {
    forall i :: 0 <= i < |batch| ==> batch[i].Valid()
  }

  function Frames(batch: seq<Job>): (r: seq<Bytes>)
    ensures |r| == |batch|
  {
    seq(|batch|, i requires 0 <= i < |batch| => ReplyFrame(batch[i]))
  }

  class Socket {
    const stack: Stack

    /** Producer rings: submitted, and written but not yet submitted. */
    var fill: seq<nat>
    var fillStaged: seq<nat>
    var tx: seq<nat>
    var txStaged: seq<nat>

    /** Consumer rings, and how much has been read but not yet released. */
    var rx: seq<nat>
    var rxTaken: nat
    var comp: seq<nat>
    var compTaken: nat

    var outstanding: nat

    /** The packet buffer, by frame. */
    var umem: Memory

    /** Packets the loop has read, and packets that have left on the wire. */
    var got: seq<Bytes>
    var wire: seq<Bytes>

    /** What the kernel delivered, and the part of it still in rx; what was built for
        transmission, and the part of it still in tx. */
    ghost var delivered: seq<Bytes>
    ghost var packets: seq<Bytes>
    ghost var built: seq<Bytes>
    ghost var replies: seq<Bytes>

    ghost predicate Formed()
      reads this`fill, this`fillStaged, this`tx, this`txStaged, this`rx, this`rxTaken, this`comp, this`compTaken
      reads stack, stack.addr
    {
      && stack.Valid() && rxTaken <= |rx| && compTaken <= |comp|
      && |fill| + |fillStaged| <= RING_SIZE && |tx| + |txStaged| <= RING_SIZE
    }

    ghost function Whereabouts(): Places
      requires Formed()
      reads this`fill, this`fillStaged, this`tx, this`txStaged, this`rx, this`rxTaken, this`comp, this`compTaken
      reads stack, stack.addr
    {
      Places(stack.Contents(), fill + fillStaged, rx[rxTaken..], tx + txStaged, comp[compTaken..])
    }

    /** No frame in flight has been written over. */
    ghost predicate Intact()
      requires Formed()
      reads this`fill, this`fillStaged, this`tx, this`txStaged, this`rx, this`rxTaken, this`comp, this`compTaken
      reads this`umem, this`got, this`wire, this`delivered, this`packets, this`built, this`replies
      reads stack, stack.addr
    {
      Holds(umem, tx + txStaged, replies) && Holds(umem, Bases(rx[rxTaken..]), packets)
    }

    /** Packets are read in order, none lost or repeated; every reply built is waiting or
        has been sent, once. */
    ghost predicate Conserved()
      reads this`got, this`wire, this`delivered, this`packets, this`built, this`replies
    {
      got + packets == delivered && Paired(wire, replies, built)
    }

    ghost predicate Valid()
      reads this`fill, this`fillStaged, this`tx, this`txStaged, this`rx, this`rxTaken, this`comp, this`compTaken
      reads this`umem, this`got, this`wire, this`delivered, this`packets, this`built, this`replies
      reads stack, stack.addr
    {
      Formed() && Partitioned(Whereabouts()) && Intact() && Conserved()
    }

    /** Between operations nothing is staged or taken, and outstanding_tx is what is in
        the transmit and completion rings. */
    ghost predicate Settled()
      reads this, stack, stack.addr
    {
      && Valid() && fillStaged == [] && txStaged == [] && rxTaken == 0 && compTaken == 0
      && outstanding == |tx| + |comp|
    }

    lemma Sizes()
      requires Valid()
      ensures |fill| <= RING_SIZE && |tx| <= RING_SIZE && stack.free <= NUM_FRAMES
      ensures rxTaken <= |rx| && |packets| == |rx| - rxTaken
    {
      hide Partitioned, Conserved;
    }

    lemma RingSize()
      requires Settled()
      ensures |tx| <= RING_SIZE
    {
      hide Valid;
      Sizes();
    }

    // -------------------------------------------------------------- kernel

    method KernelReceive(k: nat, headroom: nat, top: nat, packet: Bytes)
      requires Valid() && k < |fill|
      modifies this`fill, this`rx, this`umem, this`delivered, this`packets
      ensures Valid() && old(rx) <= rx && |rx| == |old(rx)| + 1 && |fill| == |old(fill)| - 1
      ensures delivered == old(delivered) + [packet] && packets == old(packets) + [packet]
    {
      hide Partitioned, Decorated, Stack.Valid, Bases, Holds, Paired;
      ghost var before := Whereabouts();
      var base := fill[k];
      FrameOf(before, base);
      WriterAlone(before, base);
      var a := Decorated(base, headroom, top);
      BaseRecovered(base, headroom, top);
      ReceivedKeeps(before, k, a);
      WrittenElsewhere(umem, before.tx, replies, base, packet);
      WrittenNext(umem, Bases(before.rx), packets, base, packet);
      BasesGrow(before.rx, a);
      assert Without(fill, k) + fillStaged == Without(fill + fillStaged, k);
      assert (rx + [a])[rxTaken..] == rx[rxTaken..] + [a];
      fill := Without(fill, k);
      rx := rx + [a];
      umem := umem[base := packet];
      Assoc(got, packets, [packet]);
      delivered, packets := delivered + [packet], packets + [packet];
    }

    method KernelComplete(k: nat, headroom: nat, top: nat)
      requires Valid() && k < |tx|
      modifies this`tx, this`comp, this`wire, this`replies
      ensures Valid() && old(comp) <= comp && |comp| == |old(comp)| + 1 && |tx| == |old(tx)| - 1
    {
      hide Partitioned, Decorated, Stack.Valid, Bases, Paired;
      ghost var before := Whereabouts();
      var base := tx[k];
      FrameOf(before, base);
      var a := Decorated(base, headroom, top);
      BaseRecovered(base, headroom, top);
      CompletedKeeps(before, k, a);
      HoldsWithout(umem, before.tx, replies, k);
      assert before.tx[k] == base && umem[base] == replies[k];
      SentOnce(wire, replies, built, k);
      assert Without(tx, k) + txStaged == Without(tx + txStaged, k);
      assert (comp + [a])[compTaken..] == comp[compTaken..] + [a];
      wire := wire + [umem[base]];
      replies := Without(replies, k);
      tx := Without(tx, k);
      comp := comp + [a];
    }

    /** Any number of kernel moves; a move on an absent frame does nothing. */
    method KernelRuns(moves: seq<Move>)
      requires Valid()
      modifies this`fill, this`rx, this`tx, this`comp, this`umem, this`wire
      modifies this`delivered, this`packets, this`replies
      ensures Valid() && old(rx) <= rx && old(comp) <= comp && old(packets) <= packets
      ensures |fill| <= |old(fill)| && |tx| <= |old(tx)| && |tx| + |comp| == |old(tx)| + |old(comp)|
    {
      hide Valid;
      for i := 0 to |moves|
        invariant Valid() && old(rx) <= rx && old(comp) <= comp && old(packets) <= packets
        invariant |fill| <= |old(fill)| && |tx| <= |old(tx)| && |tx| + |comp| == |old(tx)| + |old(comp)|
      {
        match moves[i] {
          case Receive(k, headroom, top, packet) => if k < |fill| { KernelReceive(k, headroom, top, packet); }
          case Complete(k, headroom, top) => if k < |tx| { KernelComplete(k, headroom, top); }
        }
      }
    }

    // -------------------------------------------------------------- single ring accesses

    /** xsk_alloc_frame into a reserved fill slot. */
    method StageFill() returns (frame: nat)
      requires Valid() && stack.free > 0 && |fill| + |fillStaged| < RING_SIZE
      modifies this`fillStaged, stack`free, stack.addr
      ensures Valid() && stack.free == old(stack.free) - 1
      ensures IsBase(frame) && fillStaged == old(fillStaged) + [frame]
    {
      hide Partitioned, Bases, Holds, IsBase, Paired, Stack.Valid;
      ghost var before := Whereabouts();
      frame := stack.Alloc();
      FrameOf(before, frame);
      PostedKeeps(before, stack.Contents(), frame);
      assert fill + (fillStaged + [frame]) == fill + fillStaged + [frame];
      fillStaged := fillStaged + [frame];
    }

    method SubmitFill()
      requires Valid()
      modifies this`fill, this`fillStaged
      ensures Valid() && fillStaged == [] && |fill| == |old(fill)| + |old(fillStaged)|
    {
      hide Partitioned, Stack.Valid, Bases, Holds, Paired;
      assert fill + fillStaged + [] == fill + fillStaged;
      fill := fill + fillStaged;
      fillStaged := [];
    }

    /** xsk_alloc_frame for a reserved transmit slot, and the job's reply frame built in it. */
    method StageTx(job: Job) returns (frame: nat)
      requires Valid() && stack.free > 0 && |tx| + |txStaged| < RING_SIZE && job.Valid()
      modifies this`txStaged, this`umem, this`built, this`replies, stack`free, stack.addr
      ensures Valid() && stack.free == old(stack.free) - 1
      ensures IsBase(frame) && txStaged == old(txStaged) + [frame]
      ensures built == old(built) + [ReplyFrame(job)]
    {
      hide Partitioned, Bases, Holds, IsBase, Paired, Stack.Valid, ReplyFrame, Job.Valid;
      var reply := BuildFrame(job);
      ghost var before := Whereabouts();
      frame := stack.Alloc();
      FrameOf(before, frame);
      WriteReply(frame, reply, before);
    }

    method WriteReply(frame: nat, reply: Bytes, ghost before: Places)
      requires Formed() && Intact() && Conserved() && |tx| + |txStaged| < RING_SIZE
      requires Partitioned(before) && before == Whereabouts().(free := stack.Contents() + [frame])
      modifies this`txStaged, this`umem, this`built, this`replies
      ensures Valid() && txStaged == old(txStaged) + [frame] && built == old(built) + [reply]
    {
      hide Partitioned, Bases, Holds, Paired, Stack.Valid;
      StagedKeeps(before, stack.Contents(), frame, umem, replies, packets, reply);
      assert tx + (txStaged + [frame]) == tx + txStaged + [frame];
      BuiltOnce(wire, replies, built, reply);
      txStaged := txStaged + [frame];
      umem := umem[frame := reply];
      built, replies := built + [reply], replies + [reply];
    }

    method SubmitTx()
      requires Valid()
      modifies this`tx, this`txStaged
      ensures Valid() && txStaged == [] && |tx| == |old(tx)| + |old(txStaged)|
    {
      hide Partitioned, Stack.Valid, Bases, Holds, Paired;
      assert tx + txStaged + [] == tx + txStaged;
      tx := tx + txStaged;
      txStaged := [];
    }

    /** The next rx packet, and xsk_free_frame of the base of its descriptor. */
    method TakeRx()
      requires Valid() && rxTaken < |rx|
      modifies this`rxTaken, this`got, this`packets, stack`free, stack.addr
      ensures Valid() && rxTaken == old(rxTaken) + 1 && stack.free == old(stack.free) + 1
      ensures old(packets) != [] && got == old(got) + [old(packets)[0]] && packets == old(packets)[1..]
    {
      hide Partitioned, FrameBase, Holds, Bases, Paired;
      ghost var before := Whereabouts();
      PlacesAddUp(before);
      TakenRxKeeps(before);
      HoldsRest(umem, before.rx, packets);
      NextRead(umem, before.rx, got, packets);
      assert rx[rxTaken..][1..] == rx[rxTaken + 1..];
      var base := FrameBase(rx[rxTaken]);
      got := got + [umem[base]];
      packets := packets[1..];
      stack.Free(base);
      rxTaken := rxTaken + 1;
    }

    method ReleaseRx()
      requires Valid()
      modifies this`rx, this`rxTaken
      ensures Valid() && rxTaken == 0 && rx == old(rx[rxTaken..])
    {
      hide Partitioned, Stack.Valid, Bases, Holds, Paired;
      assert rx[rxTaken..][0..] == rx[rxTaken..];
      rx, rxTaken := rx[rxTaken..], 0;
    }

    method TakeComp()
      requires Valid() && compTaken < |comp|
      modifies this`compTaken, stack`free, stack.addr
      ensures Valid() && compTaken == old(compTaken) + 1 && stack.free == old(stack.free) + 1
    {
      hide Partitioned, FrameBase, Holds, Bases, Paired;
      ghost var before := Whereabouts();
      PlacesAddUp(before);
      TakenCompKeeps(before);
      assert comp[compTaken..][1..] == comp[compTaken + 1..];
      stack.Free(FrameBase(comp[compTaken]));
      compTaken := compTaken + 1;
    }

    method ReleaseComp()
      requires Valid()
      modifies this`comp, this`compTaken
      ensures Valid() && compTaken == 0 && comp == old(comp[compTaken..])
    {
      hide Partitioned, Stack.Valid, Bases, Holds, Paired;
      assert comp[compTaken..][0..] == comp[compTaken..];
      comp, compTaken := comp[compTaken..], 0;
    }

    // -------------------------------------------------------------- the loop's operations

    /** xsk_env_setup_socket: seed the stack, hand the first half to the kernel. */
    constructor ()
      ensures Settled() && fresh(stack) && fresh(stack.addr)
      ensures |fill| == 2048 && stack.free == 2048
      ensures rx == [] && tx == [] && comp == [] && got == [] && wire == []
    {
      hide Partitioned, FirstFrames, Stack.Valid, Bases, Paired, Holds;
      stack := new Stack();
      fill, fillStaged, tx, txStaged := [], [], [], [];
      rx, rxTaken, comp, compTaken := [], 0, [], 0;
      outstanding := 0;
      umem, got, wire := map[], [], [];
      delivered, packets, built, replies := [], [], [], [];
      new;
      SeededPartition(Whereabouts());
      NothingInFlight();
      for i := 0 to FILL_RING_FRAMES
        invariant Valid() && |fillStaged| == i && stack.free == NUM_FRAMES - i
        invariant fill == [] && rx == [] && tx == [] && comp == [] && txStaged == []
        invariant rxTaken == 0 && compTaken == 0 && outstanding == 0 && got == [] && wire == []
      {
        var _ := StageFill();
      }
      SubmitFill();
    }

    /** refill_fq: up to n frames back to the kernel, as many as ring and stack allow. */
    method RefillFq(n: nat, seenFill: nat, kernel: Kernel) returns (count: nat)
      requires Settled()
      modifies this`fill, this`fillStaged, this`rx, this`tx, this`comp, this`umem, this`wire
      modifies this`delivered, this`packets, this`replies, stack`free, stack.addr
      ensures Settled() && old(packets) <= packets
      ensures |old(fill)| <= 2048 && count == Min(Min(n, Min(seenFill, 2048 - |old(fill)|)), old(stack.free))
      ensures stack.free == old(stack.free) - count
    {
      hide Valid;
      Sizes();
      count := Min(Min(n, Min(seenFill, RING_SIZE - |fill|)), stack.free);
      if count == 0 { return; }
      for i := 0 to count
        invariant Valid() && |fillStaged| == i && |fill| + count <= RING_SIZE && stack.free == old(stack.free) - i
        invariant txStaged == [] && rxTaken == 0 && compTaken == 0 && outstanding == |tx| + |comp|
        invariant old(packets) <= packets
      {
        KernelRuns(kernel(i));
        var _ := StageFill();
      }
      SubmitFill();
    }

    /** drain_rx: the packets waiting are read in order; their frames go back to the stack,
        and as many frames to the fill ring. */
    method DrainFrames(seenRx: nat, seenFill: nat, kernel: Kernel) returns (rcvd: nat)
      requires Settled()
      modifies this`fill, this`fillStaged, this`rx, this`rxTaken, this`tx, this`comp, this`umem, this`got, this`wire
      modifies this`delivered, this`packets, this`replies, stack`free, stack.addr
      ensures Settled() && rcvd == Min(Min(seenRx, 64), |old(rx)|)
      ensures rcvd <= |old(packets)| && got == old(got) + old(packets)[..rcvd] && old(packets)[rcvd..] <= packets
      ensures stack.free >= old(stack.free)
      ensures seenFill >= rcvd && |old(fill)| + rcvd <= 2048 ==> stack.free == old(stack.free)
    {
      hide Valid;
      Sizes();
      rcvd := Min(Min(seenRx, RX_BATCH_SIZE), |rx|);
      if rcvd == 0 { return; }
      for i := 0 to rcvd
        invariant Valid() && rxTaken == i && rcvd <= |rx| && stack.free == old(stack.free) + i && |fill| <= |old(fill)|
        invariant fillStaged == [] && txStaged == [] && compTaken == 0 && outstanding == |tx| + |comp|
        invariant got == old(got) + old(packets)[..i] && old(packets)[i..] <= packets
      {
        KernelRuns(kernel(i));
        OneMoreRead(old(got), old(packets), i, packets);
        TakeRx();
      }
      ReleaseRx();
      var _ := RefillFq(rcvd, seenFill, (i: nat) => kernel(rcvd + i));
    }

    /** The transmit half of drain_done_and_tx for one batch of replies: the first `sent` of
        them are built and posted, the others are counted against the ring or else the pool. */
    method TransmitFrames(batch: seq<Job>, seenTx: nat, kernel: Kernel) returns (sent: nat, noSlot: nat, noFrame: nat)
      requires Settled() && |batch| <= TX_BATCH_SIZE && AllSendable(batch)
      modifies this`fill, this`rx, this`tx, this`txStaged, this`comp, this`outstanding, this`umem, this`wire
      modifies this`delivered, this`packets, this`built, this`replies, stack`free, stack.addr
      ensures Settled() && old(packets) <= packets
      ensures sent + noSlot + noFrame == |batch|
      ensures |old(tx)| <= 2048 && noSlot == |batch| - Min(|batch|, Min(seenTx, 2048 - |old(tx)|))
      ensures noFrame > 0 ==> sent == old(stack.free)
      ensures outstanding == old(outstanding) + sent && stack.free == old(stack.free) - sent
      ensures built == old(built) + Frames(batch[..sent])
    {
      hide Valid;
      Sizes();
      sent := Min(|batch|, Min(seenTx, RING_SIZE - |tx|));
      noSlot, noFrame := |batch| - sent, 0;
      if sent > stack.free {
        noFrame := sent - stack.free;
        sent := stack.free;
      }
      if sent == 0 { return; }
      StageBatch(batch, sent, kernel);
      SubmitTx();
      KernelRuns(kernel(sent));
      outstanding := outstanding + sent;
    }

    method StageBatch(batch: seq<Job>, sent: nat, kernel: Kernel)
      requires Settled() && AllSendable(batch) && sent <= |batch| && sent <= stack.free && |tx| + sent <= RING_SIZE
      modifies this`fill, this`rx, this`tx, this`txStaged, this`comp, this`umem, this`wire
      modifies this`delivered, this`packets, this`built, this`replies, stack`free, stack.addr
      ensures Valid() && |txStaged| == sent && fillStaged == [] && rxTaken == 0 && compTaken == 0
      ensures outstanding == |tx| + |comp| && stack.free == old(stack.free) - sent
      ensures old(packets) <= packets && built == old(built) + Frames(batch[..sent])
    {
      hide Valid;
      for i := 0 to sent
        invariant Valid() && |txStaged| == i && |tx| + sent <= RING_SIZE && stack.free == old(stack.free) - i
        invariant outstanding == |tx| + |comp| && old(packets) <= packets
        invariant built == old(built) + Frames(batch[..i])
      {
        KernelRuns(kernel(i));
        OneMoreBuilt(old(built), batch, i);
        var _ := StageTx(batch[i]);
      }
    }

    /** reclaim_tx: completed frames go back to the stack; the clamp on the count never
        takes effect. */
    method ReclaimFrames(seenComp: nat, kernel: Kernel) returns (completed: nat)
      requires Settled()
      modifies this`fill, this`rx, this`tx, this`comp, this`compTaken, this`outstanding, this`umem, this`wire
      modifies this`delivered, this`packets, this`replies, stack`free, stack.addr
      ensures Settled() && old(packets) <= packets
      ensures Min(Min(seenComp, 64), |old(comp)|) <= completed <= 64
      ensures outstanding == old(outstanding) - completed && stack.free == old(stack.free) + completed
    {
      hide Valid;
      Sizes();
      if outstanding == 0 { return 0; }
      KernelRuns(kernel(0));
      completed := Min(Min(seenComp, TX_BATCH_SIZE), |comp|);
      if completed == 0 { return; }
      for i := 0 to completed
        invariant Valid() && compTaken == i && completed <= |comp| && stack.free == old(stack.free) + i
        invariant fillStaged == [] && txStaged == [] && rxTaken == 0 && old(packets) <= packets
        invariant outstanding == old(outstanding) && outstanding == |tx| + |comp|
      {
        KernelRuns(kernel(i + 1));
        TakeComp();
      }
      ReleaseComp();
      outstanding := outstanding - (if completed < outstanding then completed else outstanding);
    }

    /** Every run: whatever the loop thread is asked to do and whatever the kernel does in
        between, frames stay partitioned, packets and replies intact, at every ring access. */
    method Run(ops: seq<Op>)
      requires Settled() && forall i :: 0 <= i < |ops| && ops[i].TransmitBatch? ==> AllSendable(ops[i].batch)
      modifies this, stack`free, stack.addr
      ensures Settled()
    {
      hide Settled;
      for i := 0 to |ops|
        invariant Settled()
      {
        match ops[i] {
          case DrainRx(seenRx, seenFill, kernel) => var _ := DrainFrames(seenRx, seenFill, kernel);
          case TransmitBatch(batch, seenTx, kernel) =>
            var _, _, _ := TransmitFrames(batch[..Min(|batch|, TX_BATCH_SIZE)], seenTx, kernel);
          case ReclaimTx(seenComp, kernel) => var _ := ReclaimFrames(seenComp, kernel);
        }
      }
    }
  }

  /** build_response_frame into a frame's worth of memory. */
  method BuildFrame(job: Job) returns (reply: Bytes)
    requires job.Valid()
    ensures reply == ReplyFrame(job)
  {
    hide ReplyFrame;
    var out := new Buffer(FRAME_SIZE);
    BuildResponseFrame(out, job);
    reply := out.data[..out.len];
  }

  lemma NextRead(mem: Memory, rx: seq<nat>, got: seq<Bytes>, packets: seq<Bytes>)
    requires Holds(mem, Bases(rx), packets) && rx != []
    ensures packets != [] && got + [packets[0]] + packets[1..] == got + packets
  {
    assert |packets| == |rx|;
    assert packets == [packets[0]] + packets[1..];
  }

  lemma OneMoreBuilt(built: seq<Bytes>, batch: seq<Job>, i: nat)
    requires i < |batch|
    ensures built + Frames(batch[..i]) + [ReplyFrame(batch[i])] == built + Frames(batch[..i + 1])
  {
    hide ReplyFrame;
    assert Frames(batch[..i + 1]) == Frames(batch[..i]) + [ReplyFrame(batch[i])];
  }

  /** Every reply built is either sent or waiting, as often as it was built. */
  ghost predicate Paired(wire: seq<Bytes>, replies: seq<Bytes>, built: seq<Bytes>) {
    multiset(wire) + multiset(replies) == multiset(built)
  }

  lemma BuiltOnce(wire: seq<Bytes>, replies: seq<Bytes>, built: seq<Bytes>, reply: Bytes)
    requires Paired(wire, replies, built)
    ensures Paired(wire, replies + [reply], built + [reply])
  {
  }

  lemma OneMoreRead(got: seq<Bytes>, all: seq<Bytes>, i: nat, packets: seq<Bytes>)
    requires i < |all| && all[i..] <= packets
    ensures packets[0] == all[i] && all[i + 1..] <= packets[1..]
    ensures got + all[..i] + [all[i]] == got + all[..i + 1]
  {
  }

  // ---------------------------------------------------------------- moves keep the partition

  lemma SentOnce(wire: seq<Bytes>, replies: seq<Bytes>, built: seq<Bytes>, k: nat)
    requires k < |replies| && Paired(wire, replies, built)
    ensures Paired(wire + [replies[k]], Without(replies, k), built)
  {
    assert replies == replies[..k] + ([replies[k]] + replies[k + 1..]);
  }

  lemma NothingInFlight()
    ensures Holds(map[], [], []) && Bases([]) == [] && Paired([], [], [])
  {
  }

  lemma SeededPartition(p: Places)
    requires p == Places(FirstFrames(NUM_FRAMES), [], [], [], [])
    ensures Partitioned(p)
  {
    hide FirstFrames;
  }

  lemma FrameOf(p: Places, a: nat)
    requires Partitioned(p) && (a in p.free || a in p.fill || a in p.tx)
    ensures IsBase(a)
  {
    hide Bases, Partitioned;
    NoOverlap(p, a);
    assert a in multiset(p.free) || a in multiset(p.fill) || a in multiset(p.tx);
  }

  lemma Regrouped(a: multiset<nat>, b: multiset<nat>, c: multiset<nat>, d: multiset<nat>, e: multiset<nat>)
    ensures a + b + c + d + e == (b + c) + (a + d + e) == (d + e) + (a + b + c)
    ensures a + b + c + d + e == (a + b) + (c + d + e) == (a + d) + (b + c + e)
    ensures a + b + c + d + e == (a + c) + (b + d + e) == (a + e) + (b + c + d)
  {
  }

  lemma Regroup(p: Places, q: Places)
    ensures var a, b, c := multiset(p.free), multiset(p.fill), multiset(Bases(p.rx));
            var d, e := multiset(p.tx), multiset(Bases(p.comp));
            var a', b', c' := multiset(q.free), multiset(q.fill), multiset(Bases(q.rx));
            var d', e' := multiset(q.tx), multiset(Bases(q.comp));
            && (b + c == b' + c' && a == a' && d == d' && e == e' ==> Spread(p) == Spread(q))
            && (d + e == d' + e' && a == a' && b == b' && c == c' ==> Spread(p) == Spread(q))
            && (a + b == a' + b' && c == c' && d == d' && e == e' ==> Spread(p) == Spread(q))
            && (a + d == a' + d' && b == b' && c == c' && e == e' ==> Spread(p) == Spread(q))
            && (a + c == a' + c' && b == b' && d == d' && e == e' ==> Spread(p) == Spread(q))
            && (a + e == a' + e' && b == b' && c == c' && d == d' ==> Spread(p) == Spread(q))
  {
    hide Bases;
    Regrouped(multiset(p.free), multiset(p.fill), multiset(Bases(p.rx)), multiset(p.tx), multiset(Bases(p.comp)));
    Regrouped(multiset(q.free), multiset(q.fill), multiset(Bases(q.rx)), multiset(q.tx), multiset(Bases(q.comp)));
  }

  lemma ReceivedKeeps(p: Places, k: nat, a: nat)
    requires Partitioned(p) && k < |p.fill| && FrameBase(a) == p.fill[k]
    ensures Partitioned(p.(fill := Without(p.fill, k), rx := p.rx + [a]))
  {
    hide Bases, Spread, FrameBase, FirstFrames;
    Returned(p.fill, k, p.rx, a);
    Regroup(p, p.(fill := Without(p.fill, k), rx := p.rx + [a]));
  }

  lemma CompletedKeeps(p: Places, k: nat, a: nat)
    requires Partitioned(p) && k < |p.tx| && FrameBase(a) == p.tx[k]
    ensures Partitioned(p.(tx := Without(p.tx, k), comp := p.comp + [a]))
  {
    hide Bases, Spread, FrameBase, FirstFrames;
    Returned(p.tx, k, p.comp, a);
    Regroup(p, p.(tx := Without(p.tx, k), comp := p.comp + [a]));
  }

  lemma PostedKeeps(p: Places, free: seq<nat>, frame: nat)
    requires Partitioned(p) && p.free == free + [frame]
    ensures Partitioned(p.(free := free, fill := p.fill + [frame]))
  {
    hide Bases, Spread, FrameBase, FirstFrames;
    PostedTop(free, frame, p.fill);
    Regroup(p, p.(free := free, fill := p.fill + [frame]));
  }

  lemma SentKeeps(p: Places, free: seq<nat>, frame: nat)
    requires Partitioned(p) && p.free == free + [frame]
    ensures Partitioned(p.(free := free, tx := p.tx + [frame]))
  {
    hide Bases, Spread, FrameBase, FirstFrames;
    PostedTop(free, frame, p.tx);
    Regroup(p, p.(free := free, tx := p.tx + [frame]));
  }

  /** A reply written into a free frame and posted disturbs nothing in flight. */
  lemma StagedKeeps(p: Places, free: seq<nat>, frame: nat, mem: Memory, replies: seq<Bytes>, packets: seq<Bytes>,
                    reply: Bytes)
    requires Partitioned(p) && p.free == free + [frame]
    requires Holds(mem, p.tx, replies) && Holds(mem, Bases(p.rx), packets)
    ensures Partitioned(p.(free := free, tx := p.tx + [frame]))
    ensures Holds(mem[frame := reply], p.tx + [frame], replies + [reply])
    ensures Holds(mem[frame := reply], Bases(p.rx), packets)
  {
    hide Partitioned, Bases, Holds;
    WriterAlone(p, frame);
    SentKeeps(p, free, frame);
    WrittenNext(mem, p.tx, replies, frame, reply);
    WrittenElsewhere(mem, Bases(p.rx), packets, frame, reply);
  }

  lemma TakenRxKeeps(p: Places)
    requires Partitioned(p) && p.rx != []
    ensures Partitioned(p.(free := p.free + [FrameBase(p.rx[0])], rx := p.rx[1..]))
  {
    hide Bases, Spread, FrameBase, FirstFrames;
    FreedFirst(p.rx, p.free);
    Regroup(p, p.(free := p.free + [FrameBase(p.rx[0])], rx := p.rx[1..]));
  }

  lemma TakenCompKeeps(p: Places)
    requires Partitioned(p) && p.comp != []
    ensures Partitioned(p.(free := p.free + [FrameBase(p.comp[0])], comp := p.comp[1..]))
  {
    hide Bases, Spread, FrameBase, FirstFrames;
    FreedFirst(p.comp, p.free);
    Regroup(p, p.(free := p.free + [FrameBase(p.comp[0])], comp := p.comp[1..]));
  }
}
