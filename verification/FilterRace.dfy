/** Lock-free readers against the locked writer of the filter.

    Readers load the four counters of their key one at a time without the mutex.  The
    writer, who holds the mutex for a put, an eviction or an expiry, loads and stores
    the counters one at a time.  Every load and every store is one step; steps of the
    writer and of any number of readers interleave arbitrarily. */
module FilterRace {
  import opened Names
  import opened Bloom

  /** The mutex holder: nobody, or an add or a delete that has finished i counters and
      may have loaded the next one. */
  datatype Writer = Idle | Busy(adding: bool, hash: u64, i: nat, loaded: Option<byte>)

  datatype Verdict = Looking | Rejected | Passed

  datatype Reader = Reader(hash: u64, i: nat, verdict: Verdict)

  /** `live` lists the keys that are fully installed: their add has completed and their
      delete has not begun. */
  datatype State = State(slots: seq<byte>, live: seq<u64>, writer: Writer, readers: map<nat, Reader>)

  datatype Step =
    | BeginAdd(hash: u64)
    | BeginDel(k: nat)
    | WriterLoad
    | WriterStore
    | WriterDone
    | ReaderStart(id: nat, hash: u64)
    | ReaderLoad(id: nat)

  predicate Enabled(s: State, e: Step) {
    match e
    case BeginAdd(_) => s.writer.Idle?
    case BeginDel(k) => s.writer.Idle? && k < |s.live|
    case WriterLoad => s.writer.Busy? && s.writer.i < HASHES && s.writer.loaded.None?
    case WriterStore => s.writer.Busy? && s.writer.i < HASHES && s.writer.loaded.Some?
    case WriterDone => s.writer.Busy? && s.writer.i == HASHES
    case ReaderStart(_, _) => true
    case ReaderLoad(id) => id in s.readers && s.readers[id].verdict == Looking && s.readers[id].i < HASHES
  }

  /** One load by a reader: a zero rejects, the fourth non-zero passes. */
  function Loaded(r: Reader, v: byte): Reader {
    if v == 0 then r.(verdict := Rejected)
    else if r.i + 1 == HASHES then Reader(r.hash, r.i + 1, Passed)
    else r.(i := r.i + 1)
  }

  function Stored(w: Writer, v: byte): byte {
    if w.Busy? && w.adding then Raised(v) else Lowered(v)
  }

  function Apply(s: State, e: Step): State
    requires |s.slots| == SLOTS && Enabled(s, e)
  {
    match e
    case BeginAdd(h) => s.(writer := Busy(true, h, 0, None))
    case BeginDel(k) => s.(writer := Busy(false, s.live[k], 0, None), live := s.live[..k] + s.live[k + 1..])
    case WriterLoad => s.(writer := s.writer.(loaded := Some(s.slots[Slot(s.writer.hash, s.writer.i)])))
    case WriterStore =>
      s.(slots := s.slots[Slot(s.writer.hash, s.writer.i) := Stored(s.writer, s.writer.loaded.value)],
         writer := s.writer.(i := s.writer.i + 1, loaded := None))
    case WriterDone => s.(writer := Idle, live := if s.writer.adding then [s.writer.hash] + s.live else s.live)
    case ReaderStart(id, h) => s.(readers := s.readers[id := Reader(h, 0, Looking)])
    case ReaderLoad(id) =>
      var r := s.readers[id];
      s.(readers := s.readers[id := Loaded(r, s.slots[Slot(r.hash, r.i)])])
  }

  predicate Initial(s: State) {
    Tracks(s.slots, s.live) && s.writer.Idle? && s.readers == map[]
  }

  // ---------------------------------------------------------------- invariant

  predicate UsesBetween(hash: u64, lo: nat, hi: nat, s: nat) {
    exists k :: lo <= k < hi && Slot(hash, k) == s
  }

  /** What the operation in progress adds to a counter beyond the installed keys. */
  function Pending(w: Writer, s: nat): nat {
    if w.Idle? then 0
    else if w.adding then (if UsesBetween(w.hash, 0, w.i, s) then 1 else 0)
    else (if UsesBetween(w.hash, w.i, HASHES, s) then 1 else 0)
  }

  predicate Exact(s: State) {
    && |s.slots| == SLOTS
    && forall j :: 0 <= j < SLOTS ==> s.slots[j] == BLOOM_MAX || s.slots[j] == Users(s.live, j) + Pending(s.writer, j)
  }

  predicate WriterOk(s: State)
    requires |s.slots| == SLOTS
  {
    s.writer.Busy? ==>
      && s.writer.i <= HASHES
      && (s.writer.loaded.Some? ==>
            s.writer.i < HASHES && s.writer.loaded.value == s.slots[Slot(s.writer.hash, s.writer.i)])
  }

  predicate Inv(s: State) {
    Exact(s) && WriterOk(s)
  }

  /** Doing counter i of the operation changes the pending share of that slot only. */
  lemma PendingStep(w: Writer, j: nat)
    requires w.Busy? && w.i < HASHES
    ensures var w' := w.(i := w.i + 1, loaded := None);
            Pending(w', j) == if j != Slot(w.hash, w.i) then Pending(w, j) else if w.adding then 1 else 0
    ensures j == Slot(w.hash, w.i) ==> Pending(w, j) == if w.adding then 0 else 1
  {
    hide Slot;
    forall k | 0 <= k < HASHES && k != w.i ensures Slot(w.hash, k) != Slot(w.hash, w.i) {
      if k < w.i { SlotsDistinct(w.hash, k, w.i); } else { SlotsDistinct(w.hash, w.i, k); }
    }
    assert UsesBetween(w.hash, 0, w.i + 1, j) <==> UsesBetween(w.hash, 0, w.i, j) || Slot(w.hash, w.i) == j;
    assert UsesBetween(w.hash, w.i, HASHES, j) <==> UsesBetween(w.hash, w.i + 1, HASHES, j) || Slot(w.hash, w.i) == j;
  }

  lemma StoreKeepsExact(s: State)
    requires Inv(s) && Enabled(s, WriterStore)
    ensures Exact(Apply(s, WriterStore))
  {
    hide Slot, Users, Pending;
    var s' := Apply(s, WriterStore);
    forall j | 0 <= j < SLOTS
      ensures s'.slots[j] == BLOOM_MAX || s'.slots[j] == Users(s'.live, j) + Pending(s'.writer, j)
    {
      PendingStep(s.writer, j);
    }
  }

  lemma DoneKeepsExact(s: State)
    requires Inv(s) && Enabled(s, WriterDone)
    ensures Exact(Apply(s, WriterDone))
  {
    hide Slot, UsesSlot;
    var s' := Apply(s, WriterDone);
    if s.writer.adding {
      assert s'.live[1..] == s.live;
      forall j | 0 <= j < SLOTS ensures UsesSlot(s.writer.hash, j) <==> UsesBetween(s.writer.hash, 0, HASHES, j) {
        UsesIsBetween(s.writer.hash, j);
      }
    }
  }

  lemma UsesIsBetween(hash: u64, j: nat)
    ensures UsesSlot(hash, j) <==> UsesBetween(hash, 0, HASHES, j)
  {
    hide Slot;
  }

  lemma BeginKeepsExact(s: State, e: Step)
    requires Inv(s) && Enabled(s, e) && (e.BeginAdd? || e.BeginDel?)
    ensures Exact(Apply(s, e))
  {
    hide Slot, UsesSlot, Users;
    var s' := Apply(s, e);
    if e.BeginDel? {
      forall j | 0 <= j < SLOTS
        ensures s'.slots[j] == BLOOM_MAX || s'.slots[j] == Users(s'.live, j) + Pending(s'.writer, j)
      {
        UsersOfLive(s.live, e.k, j);
        UsesIsBetween(s.live[e.k], j);
      }
    }
  }

  /** Every step, by anyone, keeps every counter exact or pinned. */
  lemma StepKeepsInv(s: State, e: Step)
    requires Inv(s) && Enabled(s, e)
    ensures Inv(Apply(s, e))
  {
    hide Slot, Users, Pending;
    match e
    case BeginAdd(_) => BeginKeepsExact(s, e);
    case BeginDel(_) => BeginKeepsExact(s, e);
    case WriterLoad => assert Exact(Apply(s, e)) by { LoadKeepsExact(s); }
    case WriterStore => StoreKeepsExact(s);
    case WriterDone => DoneKeepsExact(s);
    case ReaderStart(_, _) =>
    case ReaderLoad(_) =>
  }

  lemma LoadKeepsExact(s: State)
    requires Inv(s) && Enabled(s, WriterLoad)
    ensures Exact(Apply(s, WriterLoad))
  {
    hide Slot, Users;
  }

  // ---------------------------------------------------------------- runs

  /** Consecutive states of a run are one enabled step apart. */
  ghost predicate IsRun(run: seq<State>) {
    && (forall t :: 0 <= t < |run| ==> |run[t].slots| == SLOTS)
    && forall t :: 0 <= t < |run| - 1 ==> Follows(run[t], run[t + 1])
  }

  ghost predicate Follows(s: State, s': State) {
    |s.slots| == SLOTS && exists e: Step :: Enabled(s, e) && s' == Apply(s, e)
  }

  lemma {:induction false} RunKeepsInv(run: seq<State>, t: nat)
    requires IsRun(run) && t < |run| && Initial(run[0])
    ensures Inv(run[t])
    decreases t
  {
    hide Apply, Inv, Tracks, Enabled;
    if t == 0 {
      InitialInv(run[0]);
    } else {
      RunKeepsInv(run, t - 1);
      assert Follows(run[t - 1], run[t]);
      var e :| Enabled(run[t - 1], e) && run[t] == Apply(run[t - 1], e);
      StepKeepsInv(run[t - 1], e);
    }
  }

  lemma InitialInv(s: State)
    requires Initial(s)
    ensures Inv(s)
  {
    hide Users;
  }

  /** At any moment, whatever the writer is in the middle of, each counter of a fully
      installed key is non-zero. */
  lemma InstalledCountersNonZero(s: State, hash: u64, i: nat)
    requires Inv(s) && hash in s.live && i < HASHES
    ensures s.slots[Slot(hash, i)] != 0
  {
    hide Slot;
    var k :| 0 <= k < |s.live| && s.live[k] == hash;
    UsersOfLive(s.live, k, Slot(hash, i));
    assert UsesSlot(hash, Slot(hash, i));
  }

  /** A step does not turn a lookup for an installed key into a rejection. */
  lemma StepNeverRejects(s: State, e: Step, id: nat)
    requires Inv(s) && Enabled(s, e)
    requires id in s.readers && s.readers[id].verdict != Rejected && s.readers[id].hash in s.live
    ensures id in Apply(s, e).readers && Apply(s, e).readers[id].verdict != Rejected
  {
    hide Slot, Inv;
    if e == ReaderLoad(id) {
      InstalledCountersNonZero(s, s.readers[id].hash, s.readers[id].i);
    }
  }

  /** Under every interleaving: a lookup that begins at moment a, and whose key is fully
      installed at every moment from a to b, has not been rejected at moment b. */
  lemma {:induction false} InstalledKeyNeverRejected(run: seq<State>, id: nat, hash: u64, a: nat, b: nat)
    requires a <= b < |run| && IsRun(run) && Initial(run[0])
    requires id in run[a].readers && run[a].readers[id] == Reader(hash, 0, Looking)
    requires forall t :: a <= t <= b ==> id in run[t].readers && run[t].readers[id].hash == hash && hash in run[t].live
    ensures run[b].readers[id].verdict != Rejected
    decreases b
  {
    hide Apply, Inv, Enabled, Initial;
    if a < b {
      InstalledKeyNeverRejected(run, id, hash, a, b - 1);
      RunKeepsInv(run, b - 1);
      assert Follows(run[b - 1], run[b]);
      var e :| Enabled(run[b - 1], e) && run[b] == Apply(run[b - 1], e);
      StepNeverRejects(run[b - 1], e, id);
    }
  }

  /** Whenever the mutex is free the counters are exact again. */
  lemma QuietIsExact(run: seq<State>, t: nat)
    requires IsRun(run) && t < |run| && Initial(run[0]) && run[t].writer.Idle?
    ensures Tracks(run[t].slots, run[t].live)
  {
    RunKeepsInv(run, t);
  }

  /** What the filter is for: while the mutex is free, a lookup is turned away by its next load
      exactly if no installed key uses that counter and it was never pinned. */
  lemma LoadRejectsExactly(s: State, id: nat)
    requires Inv(s) && s.writer.Idle? && Enabled(s, ReaderLoad(id))
    ensures var r := s.readers[id];
            Apply(s, ReaderLoad(id)).readers[id].verdict == Rejected <==>
            && s.slots[Slot(r.hash, r.i)] != 255
            && forall k :: 0 <= k < |s.live| ==> !UsesSlot(s.live[k], Slot(r.hash, r.i))
  {
    hide Slot, UsesSlot;
    NobodyUses(s.live, Slot(s.readers[id].hash, s.readers[id].i));
  }

  lemma {:induction false} NobodyUses(live: seq<u64>, j: nat)
    ensures Users(live, j) == 0 <==> forall k :: 0 <= k < |live| ==> !UsesSlot(live[k], j)
    decreases |live|
  {
    hide UsesSlot;
    if live != [] {
      NobodyUses(live[1..], j);
      assert forall k :: 0 < k < |live| ==> live[k] == live[1..][k - 1];
    }
  }
}
