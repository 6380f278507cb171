/** UMEM frames: base addresses, the free-frame stack of xsk_setup.h, and where frames are. */
module FrameStack {
  import opened Names

  const NUM_FRAMES := 4096
  const FRAME_SIZE := 4096
  const INVALID_UMEM_FRAME := 0xFFFF_FFFF_FFFF_FFFF
  /** Unaligned mode keeps an offset above the low 48 bits of a descriptor address. */
  const ADDR_SPAN := 0x1_0000_0000_0000

  predicate IsBase(a: int) {
    0 <= a < NUM_FRAMES * FRAME_SIZE && a % FRAME_SIZE == 0
  }

  /** xsk_frame_base. */
  function FrameBase(addr: nat): nat {
    addr % ADDR_SPAN / FRAME_SIZE * FRAME_SIZE
  }

  /** The address a descriptor may carry for a frame: some headroom into the frame, and
      an offset in the top bits. */
  function Decorated(base: nat, headroom: nat, top: nat): nat {
    base + headroom % FRAME_SIZE + top * ADDR_SPAN
  }

  /** Whatever descriptor address comes back for a frame, its base is recovered. */
  lemma BaseRecovered(base: nat, headroom: nat, top: nat)
    requires IsBase(base)
    ensures FrameBase(Decorated(base, headroom, top)) == base
    ensures FrameBase(base + headroom % 4096 + top * 0x1_0000_0000_0000) == base
  {
    TopStripped(base + headroom % FRAME_SIZE, top);
  }

  lemma {:induction false} TopStripped(low: nat, top: nat)
    requires low < ADDR_SPAN
    ensures (low + top * ADDR_SPAN) % ADDR_SPAN == low
  {
    if top > 0 {
      TopStripped(low, top - 1);
      assert low + top * ADDR_SPAN == low + (top - 1) * ADDR_SPAN + ADDR_SPAN;
    }
  }

  /** The bases of the first n frames, as setup lays them out. */
  function FirstFrames(n: nat): (r: seq<nat>)
    ensures |r| == n
  {
    if n == 0 then [] else FirstFrames(n - 1) + [(n - 1) * FRAME_SIZE]
  }

  lemma {:induction false} FirstFramesAt(n: nat, i: nat)
    requires i < n
    ensures FirstFrames(n)[i] == i * FRAME_SIZE
  {
    if i < n - 1 { FirstFramesAt(n - 1, i); }
  }

  /** Each frame is there once, and nothing else is. */
  lemma {:induction false} EachFrameOnce(n: nat, a: nat)
    ensures multiset(FirstFrames(n))[a] == if a % FRAME_SIZE == 0 && a < n * FRAME_SIZE then 1 else 0
  {
    if n > 0 {
      EachFrameOnce(n - 1, a);
      OnlyBaseOf(n - 1, a);
    }
  }

  lemma OnlyBaseOf(k: nat, a: nat)
    ensures a == k * FRAME_SIZE <==> a % FRAME_SIZE == 0 && k * FRAME_SIZE <= a < k * FRAME_SIZE + FRAME_SIZE
  {
  }

  /** umem_frame_addr and umem_frame_free. */
  class Stack {
    const addr: array<nat>
    var free: nat

    ghost predicate Valid()
      reads this, addr
    {
      && addr.Length == NUM_FRAMES && free <= NUM_FRAMES
      && forall i :: free <= i < NUM_FRAMES ==> addr[i] == INVALID_UMEM_FRAME
    }

    ghost function Contents(): seq<nat>
      requires Valid()
      reads this, addr
    {
      addr[..free]
    }

    /** Setup puts every frame on the stack. */
    constructor ()
      ensures Valid() && fresh(addr) && Contents() == FirstFrames(NUM_FRAMES)
    {
      addr := new nat[NUM_FRAMES];
      free := NUM_FRAMES;
      new;
      for i := 0 to NUM_FRAMES
        invariant free == NUM_FRAMES
        invariant forall k :: 0 <= k < i ==> addr[k] == k * FRAME_SIZE
      {
        addr[i] := i * FRAME_SIZE;
      }
      forall k | 0 <= k < NUM_FRAMES ensures addr[..][k] == FirstFrames(NUM_FRAMES)[k] {
        FirstFramesAt(NUM_FRAMES, k);
      }
    }

    /** xsk_alloc_frame: the top of the stack, or the invalid address. */
    method Alloc() returns (frame: nat)
      requires Valid()
      modifies this`free, addr
      ensures Valid() && free == if old(free) == 0 then 0 else old(free) - 1
      ensures if old(free) == 0 then frame == INVALID_UMEM_FRAME && Contents() == []
              else old(Contents()) == Contents() + [frame]
    {
      if free == 0 { return INVALID_UMEM_FRAME; }
      free := free - 1;
      frame := addr[free];
      addr[free] := INVALID_UMEM_FRAME;
    }

    /** xsk_free_frame; the precondition is the assertion in its body. */
    method Free(frame: nat)
      requires Valid() && free < NUM_FRAMES
      modifies this`free, addr
      ensures Valid() && free == old(free) + 1 && Contents() == old(Contents()) + [frame]
    {
      addr[free] := frame;
      free := free + 1;
    }
  }

  // ---------------------------------------------------------------- where frames are

  function Bases(addrs: seq<nat>): (r: seq<nat>)
    ensures |r| == |addrs|
  {
    seq(|addrs|, i requires 0 <= i < |addrs| => FrameBase(addrs[i]))
  }

  /** The five places a frame can be; descriptors in rx and comp carry decorated addresses. */
  datatype Places = Places(free: seq<nat>, fill: seq<nat>, rx: seq<nat>, tx: seq<nat>, comp: seq<nat>)

  function Spread(p: Places): multiset<nat> {
    multiset(p.free) + multiset(p.fill) + multiset(Bases(p.rx)) + multiset(p.tx) + multiset(Bases(p.comp))
  }

  /** All frames are accounted for, each in one place. */
  predicate Partitioned(p: Places) {
    Spread(p) == multiset(FirstFrames(NUM_FRAMES))
  }

  /** A partition: every frame base is in exactly one place, once; nothing else is anywhere. */
  lemma NoOverlap(p: Places, a: nat)
    requires Partitioned(p)
    ensures multiset(p.free)[a] + multiset(p.fill)[a] + multiset(Bases(p.rx))[a] + multiset(p.tx)[a]
            + multiset(Bases(p.comp))[a] == if a % 4096 == 0 && a < 4096 * 4096 then 1 else 0
  {
    EachFrameOnce(NUM_FRAMES, a);
    assert Spread(p)[a] == multiset(FirstFrames(NUM_FRAMES))[a];
  }

  lemma PlacesAddUp(p: Places)
    requires Partitioned(p)
    ensures |p.free| + |p.fill| + |p.rx| + |p.tx| + |p.comp| == 4096
  {
    hide Bases;
    assert |Spread(p)| == |p.free| + |p.fill| + |Bases(p.rx)| + |p.tx| + |Bases(p.comp)|;
  }

  lemma Removed(s: seq<nat>, k: nat)
    requires k < |s|
    ensures multiset(s) == multiset(Without(s, k)) + multiset{s[k]}
  {
    assert s == s[..k] + ([s[k]] + s[k + 1..]);
  }

  lemma BasesGrow(addrs: seq<nat>, a: nat)
    ensures Bases(addrs + [a]) == Bases(addrs) + [FrameBase(a)]
  {
  }

  /** Taking the first descriptor and freeing its base, from rx or from completion. */
  lemma FreedFirst(addrs: seq<nat>, free: seq<nat>)
    requires addrs != []
    ensures multiset(free) + multiset(Bases(addrs))
            == multiset(free + [FrameBase(addrs[0])]) + multiset(Bases(addrs[1..]))
  {
    assert Bases(addrs) == [FrameBase(addrs[0])] + Bases(addrs[1..]);
  }

  /** Allocating the top frame and posting it, to fill or to tx. */
  lemma PostedTop(free: seq<nat>, frame: nat, ring: seq<nat>)
    ensures multiset(free + [frame]) + multiset(ring) == multiset(free) + multiset(ring + [frame])
  {
  }

  /** The kernel moving frame k to a descriptor ring. */
  lemma Returned(ring: seq<nat>, k: nat, addrs: seq<nat>, a: nat)
    requires k < |ring| && FrameBase(a) == ring[k]
    ensures multiset(ring) + multiset(Bases(addrs)) == multiset(Without(ring, k)) + multiset(Bases(addrs + [a]))
  {
    Removed(ring, k);
    BasesGrow(addrs, a);
  }

  // ---------------------------------------------------------------- what frames hold

  type Bytes = seq<byte>
  type Memory = map<nat, Bytes>

  /** The frames at those addresses hold those bytes, one by one. */
  predicate Holds(mem: Memory, at: seq<nat>, what: seq<Bytes>) {
    |at| == |what| && forall i :: 0 <= i < |at| ==> at[i] in mem && mem[at[i]] == what[i]
  }

  lemma WrittenElsewhere(mem: Memory, at: seq<nat>, what: seq<Bytes>, a: nat, b: Bytes)
    requires Holds(mem, at, what) && a !in at
    ensures Holds(mem[a := b], at, what)
  {
  }

  lemma WrittenNext(mem: Memory, at: seq<nat>, what: seq<Bytes>, a: nat, b: Bytes)
    requires Holds(mem, at, what) && a !in at
    ensures Holds(mem[a := b], at + [a], what + [b])
  {
  }

  lemma HoldsWithout(mem: Memory, at: seq<nat>, what: seq<Bytes>, k: nat)
    requires Holds(mem, at, what) && k < |at|
    ensures Holds(mem, Without(at, k), Without(what, k))
  {
  }

  lemma HoldsRest(mem: Memory, addrs: seq<nat>, what: seq<Bytes>)
    requires Holds(mem, Bases(addrs), what) && addrs != []
    ensures FrameBase(addrs[0]) in mem && mem[FrameBase(addrs[0])] == what[0]
    ensures Holds(mem, Bases(addrs[1..]), what[1..])
  {
    assert Bases(addrs)[0] == FrameBase(addrs[0]);
    assert Bases(addrs[1..]) == Bases(addrs)[1..];
  }

  /** A frame the socket may write is one that neither ring in flight refers to. */
  lemma WriterAlone(p: Places, a: nat)
    requires Partitioned(p) && (a in p.free || a in p.fill)
    ensures a !in p.tx && a !in Bases(p.rx)
  {
    hide Bases, IsBase, Partitioned;
    NoOverlap(p, a);
    assert a in multiset(p.free) || a in multiset(p.fill);
    assert a in p.tx ==> a in multiset(p.tx);
    assert a in Bases(p.rx) ==> a in multiset(Bases(p.rx));
  }
}
