/** Connection lifetime in the TCP listener: the accept thread, detached connection threads
    and dns_tcp_server_stop over one connection table and one mutex.

    File descriptors are the process's own small integers: a closed one may be handed out
    again at once, to a new connection or to unrelated code. */
module TcpTable {
  import opened Names

  const MAX_CONNS := 128
  const EMPTY := -1

  /** The first empty slot, or the table's length. */
  function FirstFree(table: seq<int>): (r: nat)
    ensures r <= |table|
    ensures r < |table| ==> table[r] == EMPTY
    ensures forall i :: 0 <= i < r ==> table[i] != EMPTY
  {
    if table == [] then 0
    else if table[0] == EMPTY then 0
    else
      assert forall i :: 0 < i < |table| ==> table[i] == table[1..][i - 1];
      1 + FirstFree(table[1..])
  }

  function Emptied(table: seq<int>, slot: nat): seq<int> {
    if slot < |table| then table[slot := EMPTY] else table
  }

  /** A reservation goes to the lower of a released slot and the slot it would have had. */
  lemma ReleasedSlotIsNext(table: seq<int>, slot: nat)
    requires slot < |table|
    ensures FirstFree(Emptied(table, slot)) == Min(FirstFree(table), slot)
  {
    var after := Emptied(table, slot);
    var free := FirstFree(after);
    assert after[slot] == EMPTY && free <= slot;
    if FirstFree(table) < slot {
      assert after[FirstFree(table)] == EMPTY;
    }
    if free != slot {
      assert table[free] == EMPTY;
    }
  }

  /** Releasing what was just reserved leaves no trace, and the next reservation gets the
      same slot. */
  lemma ReleaseUndoesReserve(table: seq<int>, fd: nat)
    requires FirstFree(table) < |table|
    ensures var slot := FirstFree(table);
            Emptied(table[slot := fd], slot) == table && FirstFree(table[slot := fd]) > slot
  {
    assert table[FirstFree(table) := fd][FirstFree(table)] != EMPTY;
  }

  /** conn_fds, and what one holder of the mutex does to it. */
  class Table {
    const fds: array<int>

    constructor ()
      ensures fresh(fds) && fds.Length == 128
      ensures forall i :: 0 <= i < 128 ==> fds[i] == EMPTY
    {
      fds := new int[MAX_CONNS](_ => EMPTY);
    }

    /** The scan of conn_reserve: the first free slot takes the descriptor. */
    method Reserve(fd: nat) returns (slot: int)
      modifies fds
      ensures var free := FirstFree(old(fds[..]));
              if free == fds.Length then slot == -1 && fds[..] == old(fds[..])
              else slot == free && fds[..] == old(fds[..])[free := fd]
    {
      for i := 0 to fds.Length
        invariant fds[..] == old(fds[..]) && forall k :: 0 <= k < i ==> fds[k] != EMPTY
      {
        if fds[i] == EMPTY {
          fds[i] := fd;
          return i;
        }
      }
      return -1;
    }

    /** conn_release's write. */
    method Clear(slot: nat)
      requires slot < fds.Length
      modifies fds
      ensures fds[..] == Emptied(old(fds[..]), slot) && FirstFree(fds[..]) == Min(FirstFree(old(fds[..])), slot)
    {
      ReleasedSlotIsNext(fds[..], slot);
      fds[slot] := EMPTY;
      assert fds[..] == Emptied(old(fds[..]), slot);
    }
  }

  // ---------------------------------------------------------------- threads

  /** What a descriptor currently refers to. */
  datatype Owner = Own(conn: nat) | Foreign

  /** A connection from accept() to its last use of the server: reserved and counted by the
      accept thread, served by its own thread, released by whichever holds it. */
  datatype Phase =
    | Accepted | Inserted | Uncounted | Counted
    | Serving | Locked | Cleared | Closed | Unlocked | Gone
    | Rejected

  datatype Conn = Conn(fd: nat, slot: nat, phase: Phase)

  datatype Lock = Free | ByConn(c: nat) | ByStop

  /** dns_tcp_server_stop. */
  datatype Stop = NotCalled | Flagged | Joined | Scanning(i: nat, loaded: Option<int>) | Waiting | Freed

  /** `shut` records, for each shutdown() call, what its descriptor referred to. */
  datatype State = State(table: seq<int>, fds: map<nat, Owner>, conns: seq<Conn>, accepting: Option<nat>,
                         acceptDone: bool, lock: Lock, active: int, stop: Stop, shut: seq<Option<Owner>>)

  datatype Step =
    | ForeignOpen(fd: nat)
    | ForeignClose(fd: nat)
    | Accept(fd: nat)
    | Reserve
    | Refuse
    | ReserveUnlock
    | Count
    | Spawn
    | ReleaseLock(c: nat)
    | ClearSlot(c: nat)
    | CloseFd(c: nat)
    | ReleaseUnlock(c: nat)
    | Uncount(c: nat)
    | AcceptExit
    | StopFlag
    | StopJoin
    | ScanLock
    | ScanLoad
    | ScanShutdown
    | ScanUnlock
    | FreeServer

  predicate InPhase(s: State, c: nat, p: Phase) {
    c < |s.conns| && s.conns[c].phase == p
  }

  predicate Enabled(s: State, e: Step) {
    match e
    case ForeignOpen(fd) => fd !in s.fds
    case ForeignClose(fd) => fd in s.fds && s.fds[fd].Foreign?
    case Accept(fd) => !s.acceptDone && s.accepting.None? && fd !in s.fds
    case Reserve =>
      s.accepting.Some? && InPhase(s, s.accepting.value, Accepted) && s.lock.Free? && FirstFree(s.table) < |s.table|
    case Refuse =>
      s.accepting.Some? && InPhase(s, s.accepting.value, Accepted) && s.lock.Free? && FirstFree(s.table) == |s.table|
    case ReserveUnlock => s.accepting.Some? && InPhase(s, s.accepting.value, Inserted)
    case Count => s.accepting.Some? && InPhase(s, s.accepting.value, Uncounted)
    case Spawn => s.accepting.Some? && InPhase(s, s.accepting.value, Counted)
    // A connection thread that is done, or the accept thread that could not create one.
    case ReleaseLock(c) =>
      s.lock.Free? && (InPhase(s, c, Serving) || (s.accepting == Some(c) && InPhase(s, c, Counted)))
    case ClearSlot(c) => InPhase(s, c, Locked)
    case CloseFd(c) => InPhase(s, c, Cleared)
    case ReleaseUnlock(c) => InPhase(s, c, Closed)
    case Uncount(c) => InPhase(s, c, Unlocked)
    case AcceptExit => !s.acceptDone && s.accepting.None? && !s.stop.NotCalled?
    case StopFlag => s.stop.NotCalled?
    case StopJoin => s.stop.Flagged? && s.acceptDone
    case ScanLock => s.stop.Joined? && s.lock.Free?
    case ScanLoad => s.stop.Scanning? && s.stop.i < |s.table| && s.stop.loaded.None?
    case ScanShutdown => s.stop.Scanning? && s.stop.i < |s.table| && s.stop.loaded.Some?
    case ScanUnlock => s.stop.Scanning? && s.stop.i == |s.table|
    case FreeServer => s.stop.Waiting? && s.active == 0
  }

  function Moved(s: State, c: nat, p: Phase): State
    requires c < |s.conns|
  {
    s.(conns := s.conns[c := s.conns[c].(phase := p)])
  }

  function Closing(fds: map<nat, Owner>, fd: nat): map<nat, Owner> {
    map f | f in fds && f != fd :: fds[f]
  }

  function OwnerOf(fds: map<nat, Owner>, fd: int): Option<Owner> {
    if fd in fds then Some(fds[fd]) else None
  }

  function Apply(s: State, e: Step): State
    requires Enabled(s, e)
  {
    match e
    case ForeignOpen(fd) => s.(fds := s.fds[fd := Foreign])
    case ForeignClose(fd) => s.(fds := Closing(s.fds, fd))
    case Accept(fd) =>
      s.(fds := s.fds[fd := Own(|s.conns|)], conns := s.conns + [Conn(fd, 0, Accepted)], accepting := Some(|s.conns|))
    case Reserve =>
      var c, slot := s.accepting.value, FirstFree(s.table);
      s.(conns := s.conns[c := s.conns[c].(slot := slot, phase := Inserted)],
         table := s.table[slot := s.conns[c].fd], lock := ByConn(c))
    case Refuse =>
      Moved(s, s.accepting.value, Rejected).(fds := Closing(s.fds, s.conns[s.accepting.value].fd), accepting := None)
    case ReserveUnlock => Moved(s, s.accepting.value, Uncounted).(lock := Free)
    case Count => Moved(s, s.accepting.value, Counted).(active := s.active + 1)
    case Spawn => Moved(s, s.accepting.value, Serving).(accepting := None)
    case ReleaseLock(c) => Moved(s, c, Locked).(lock := ByConn(c))
    case ClearSlot(c) => Moved(s, c, Cleared).(table := Emptied(s.table, s.conns[c].slot))
    case CloseFd(c) => Moved(s, c, Closed).(fds := Closing(s.fds, s.conns[c].fd))
    case ReleaseUnlock(c) => Moved(s, c, Unlocked).(lock := Free)
    case Uncount(c) =>
      Moved(s, c, Gone).(active := s.active - 1, accepting := if s.accepting == Some(c) then None else s.accepting)
    case AcceptExit => s.(acceptDone := true)
    case StopFlag => s.(stop := Flagged)
    case StopJoin => s.(stop := Joined)
    case ScanLock => s.(stop := Scanning(0, None), lock := ByStop)
    case ScanLoad => s.(stop := s.stop.(loaded := Some(s.table[s.stop.i])))
    case ScanShutdown =>
      s.(stop := Scanning(s.stop.i + 1, None),
         shut := if s.stop.loaded.value == EMPTY then s.shut else s.shut + [OwnerOf(s.fds, s.stop.loaded.value)])
    case ScanUnlock => s.(stop := Waiting, lock := Free)
    case FreeServer => s.(stop := Freed)
  }

  predicate Initial(s: State) {
    && |s.table| == MAX_CONNS && (forall i :: 0 <= i < MAX_CONNS ==> s.table[i] == EMPTY)
    && (forall fd :: fd in s.fds ==> s.fds[fd].Foreign?) && s.conns == [] && s.accepting.None? && !s.acceptDone
    && s.lock.Free? && s.active == 0 && s.stop.NotCalled? && s.shut == []
  }

  // ---------------------------------------------------------------- invariant

  /** Between reservation and release the connection's descriptor is in its slot. */
  predicate InTable(p: Phase) {
    p.Inserted? || p.Uncounted? || p.Counted? || p.Serving? || p.Locked?
  }

  /** Until it is closed the descriptor is open. */
  predicate IsOpen(p: Phase) {
    InTable(p) || p.Accepted? || p.Cleared?
  }

  predicate HoldsLock(p: Phase) {
    p.Inserted? || p.Locked? || p.Cleared? || p.Closed?
  }

  predicate WithAccept(p: Phase) {
    p.Accepted? || p.Inserted? || p.Uncounted? || p.Counted?
  }

  /** Counted in active_conns. */
  predicate IsCounted(p: Phase) {
    p.Counted? || p.Serving? || p.Locked? || p.Cleared? || p.Closed? || p.Unlocked?
  }

  predicate ConnOk(s: State, c: nat)
    requires c < |s.conns|
  {
    var k := s.conns[c];
    && (InTable(k.phase) ==> k.slot < |s.table| && s.table[k.slot] == k.fd)
    && (IsOpen(k.phase) ==> k.fd in s.fds && s.fds[k.fd] == Own(c))
    && (HoldsLock(k.phase) <==> s.lock == ByConn(c))
    && (WithAccept(k.phase) ==> s.accepting == Some(c))
  }

  predicate ConnsOk(s: State) {
    forall c :: 0 <= c < |s.conns| ==> ConnOk(s, c)
  }

  predicate SlotOwner(s: State, i: nat, c: nat) {
    c < |s.conns| && InTable(s.conns[c].phase) && s.conns[c].slot == i
  }

  /** Every entry of the table belongs to a connection that is in it. */
  predicate TableOk(s: State) {
    forall i :: 0 <= i < |s.table| && s.table[i] != EMPTY ==> exists c :: 0 <= c < |s.conns| && SlotOwner(s, i, c)
  }

  function Counting(conns: seq<Conn>): nat {
    if conns == [] then 0 else (if IsCounted(conns[0].phase) then 1 else 0) + Counting(conns[1..])
  }

  predicate WasShut(s: State, c: nat) {
    Some(Own(c)) in s.shut
  }

  /** How far the scan has got: everything in a slot below has been shut down. */
  function Scanned(s: State): nat {
    match s.stop
    case Scanning(i, _) => i
    case Waiting => MAX_CONNS
    case Freed => MAX_CONNS
    case _ => 0
  }

  predicate StopOk(s: State) {
    && |s.table| == MAX_CONNS
    && (s.lock.ByStop? <==> s.stop.Scanning?)
    && (s.lock.ByConn? ==> s.lock.c < |s.conns|)
    && (s.acceptDone ==> s.accepting.None?)
    && (s.accepting.Some? ==> s.accepting.value < |s.conns|)
    && (!s.stop.NotCalled? && !s.stop.Flagged? ==> s.acceptDone)
    && (s.stop.Scanning? ==>
          && s.stop.i <= MAX_CONNS
          && (s.stop.loaded.Some? ==> s.stop.i < |s.table| && s.stop.loaded.value == s.table[s.stop.i]))
    && (s.stop.Freed? ==> s.active == 0)
  }

  predicate CountOk(s: State) {
    s.active == Counting(s.conns)
  }

  predicate ShutOk(s: State) {
    && (forall k :: 0 <= k < |s.shut| ==> s.shut[k].Some? && s.shut[k].value.Own?)
    && (forall c :: 0 <= c < |s.conns| && InTable(s.conns[c].phase) && s.conns[c].slot < Scanned(s) ==> WasShut(s, c))
  }

  predicate Inv(s: State) {
    ConnsOk(s) && TableOk(s) && StopOk(s) && CountOk(s) && ShutOk(s)
  }

  // ---------------------------------------------------------------- every step keeps it

  lemma {:induction false} CountingUpdate(conns: seq<Conn>, c: nat, k: Conn)
    requires c < |conns|
    ensures Counting(conns[c := k]) ==
              Counting(conns) - (if IsCounted(conns[c].phase) then 1 else 0) + (if IsCounted(k.phase) then 1 else 0)
    decreases |conns|
  {
    if c == 0 {
      assert conns[c := k][1..] == conns[1..];
    } else {
      assert conns[c := k][1..] == conns[1..][c - 1 := k];
      CountingUpdate(conns[1..], c - 1, k);
    }
  }

  lemma {:induction false} CountingGrow(conns: seq<Conn>, k: Conn)
    requires !IsCounted(k.phase)
    ensures Counting(conns + [k]) == Counting(conns)
    decreases |conns|
  {
    if conns != [] {
      assert (conns + [k])[1..] == conns[1..] + [k];
      CountingGrow(conns[1..], k);
    }
  }

  lemma {:induction false} CountedIsCounted(conns: seq<Conn>, c: nat)
    requires c < |conns| && IsCounted(conns[c].phase)
    ensures Counting(conns) >= 1
    decreases |conns|
  {
    if c > 0 { CountedIsCounted(conns[1..], c - 1); }
  }

  /** Steps of the accept thread between accept() and the new thread. */
  predicate ByAccept(e: Step) {
    e.Accept? || e.Reserve? || e.Refuse? || e.ReserveUnlock? || e.Count? || e.Spawn?
  }

  /** Steps of conn_release. */
  predicate Releasing(e: Step) {
    e.ReleaseLock? || e.ClearSlot? || e.CloseFd? || e.ReleaseUnlock? || e.Uncount?
  }

  lemma AcceptKeepsConns(s: State, e: Step)
    requires ConnsOk(s) && StopOk(s) && Enabled(s, e) && ByAccept(e)
    ensures ConnsOk(Apply(s, e))
  {
    hide Counting, FirstFree;
    var s' := Apply(s, e);
    assert s.accepting.Some? ==> ConnOk(s, s.accepting.value);
    forall c | 0 <= c < |s'.conns| ensures ConnOk(s', c) {
      assert c < |s.conns| ==> ConnOk(s, c);
    }
  }

  lemma ReleaseKeepsConns(s: State, e: Step)
    requires ConnsOk(s) && StopOk(s) && Enabled(s, e) && Releasing(e)
    ensures ConnsOk(Apply(s, e))
  {
    hide Counting, FirstFree;
    var s' := Apply(s, e);
    assert ConnOk(s, e.c);
    forall c | 0 <= c < |s'.conns| ensures ConnOk(s', c) {
      assert ConnOk(s, c);
    }
  }

  lemma StepKeepsConns(s: State, e: Step)
    requires ConnsOk(s) && StopOk(s) && Enabled(s, e)
    ensures ConnsOk(Apply(s, e))
  {
    hide Counting, FirstFree;
    if ByAccept(e) {
      AcceptKeepsConns(s, e);
    } else if Releasing(e) {
      ReleaseKeepsConns(s, e);
    } else {
      var s' := Apply(s, e);
      forall c | 0 <= c < |s'.conns| ensures ConnOk(s', c) {
        assert ConnOk(s, c);
      }
    }
  }

  lemma StepKeepsTable(s: State, e: Step)
    requires Inv(s) && Enabled(s, e)
    ensures TableOk(Apply(s, e))
  {
    hide StopOk, ShutOk, FirstFree, ConnsOk;
    var s' := Apply(s, e);
    forall i | 0 <= i < |s'.table| && s'.table[i] != EMPTY
      ensures exists c :: 0 <= c < |s'.conns| && SlotOwner(s', i, c)
    {
      if e.Reserve? && i == FirstFree(s.table) {
        assert SlotOwner(s', i, s.accepting.value);
      } else {
        var c :| 0 <= c < |s.conns| && SlotOwner(s, i, c);
        assert SlotOwner(s', i, c);
      }
    }
  }

  lemma StepKeepsStop(s: State, e: Step)
    requires Inv(s) && Enabled(s, e)
    ensures StopOk(Apply(s, e))
  {
    hide TableOk, ShutOk, FirstFree, Counting;
    assert s.accepting.Some? ==> ConnOk(s, s.accepting.value);
    assert Releasing(e) ==> ConnOk(s, e.c);
    if e.Uncount? && s.active == 0 {
      CountedIsCounted(s.conns, e.c);
      assert false;
    }
  }

  lemma StepKeepsCount(s: State, e: Step)
    requires CountOk(s) && Enabled(s, e)
    ensures CountOk(Apply(s, e))
  {
    hide FirstFree, Counting;
    var s' := Apply(s, e);
    match e {
      case Accept(fd) => CountingGrow(s.conns, Conn(fd, 0, Accepted));
      case Reserve => CountingUpdate(s.conns, s.accepting.value, s'.conns[s.accepting.value]);
      case Refuse => CountingUpdate(s.conns, s.accepting.value, s'.conns[s.accepting.value]);
      case ReserveUnlock => CountingUpdate(s.conns, s.accepting.value, s'.conns[s.accepting.value]);
      case Count => CountingUpdate(s.conns, s.accepting.value, s'.conns[s.accepting.value]);
      case Spawn => CountingUpdate(s.conns, s.accepting.value, s'.conns[s.accepting.value]);
      case ReleaseLock(c) => CountingUpdate(s.conns, c, s'.conns[c]);
      case ClearSlot(c) => CountingUpdate(s.conns, c, s'.conns[c]);
      case CloseFd(c) => CountingUpdate(s.conns, c, s'.conns[c]);
      case ReleaseUnlock(c) => CountingUpdate(s.conns, c, s'.conns[c]);
      case Uncount(c) => CountingUpdate(s.conns, c, s'.conns[c]);
      case _ =>
    }
  }

  lemma StepKeepsShut(s: State, e: Step)
    requires Inv(s) && Enabled(s, e)
    ensures ShutOk(Apply(s, e))
  {
    hide FirstFree, Counting;
    var s' := Apply(s, e);
    assert s.accepting.Some? ==> ConnOk(s, s.accepting.value);
    if e.ScanShutdown? {
      ShutdownKeepsShut(s);
    } else {
      assert s'.shut == s.shut;
      forall c | 0 <= c < |s'.conns| && InTable(s'.conns[c].phase) && s'.conns[c].slot < Scanned(s')
        ensures WasShut(s', c)
      {
        assert ConnOk(s, c);
        assert WasShut(s, c);
      }
    }
  }

  /** The scan shuts down the connection that owns the slot, still open and still its own. */
  lemma ShutdownKeepsShut(s: State)
    requires Inv(s) && Enabled(s, ScanShutdown)
    ensures ShutOk(Apply(s, ScanShutdown))
  {
    hide FirstFree, Counting;
    var s', i := Apply(s, ScanShutdown), s.stop.i;
    if s.table[i] != EMPTY {
      var c :| 0 <= c < |s.conns| && SlotOwner(s, i, c);
      assert ConnOk(s, c);
      assert OwnerOf(s.fds, s.table[i]) == Some(Own(c));
      assert s'.shut == s.shut + [Some(Own(c))];
    }
    forall c | 0 <= c < |s'.conns| && InTable(s'.conns[c].phase) && s'.conns[c].slot < Scanned(s')
      ensures WasShut(s', c)
    {
      assert ConnOk(s, c);
      if s.conns[c].slot < i { assert WasShut(s, c); }
    }
  }

  // ---------------------------------------------------------------- every run

  function Run(s: State, steps: seq<Step>): (r: Option<State>)
    decreases |steps|
  {
    if steps == [] then Some(s)
    else if !Enabled(s, steps[0]) then None
    else Run(Apply(s, steps[0]), steps[1..])
  }

  lemma {:induction false} RunKeepsInv(s: State, steps: seq<Step>)
    requires Inv(s) && Run(s, steps).Some?
    ensures Inv(Run(s, steps).value)
    decreases |steps|
  {
    hide ConnsOk, TableOk, StopOk, CountOk, ShutOk, Enabled, Apply;
    if steps != [] {
      StepKeepsConns(s, steps[0]);
      StepKeepsTable(s, steps[0]);
      StepKeepsStop(s, steps[0]);
      StepKeepsCount(s, steps[0]);
      StepKeepsShut(s, steps[0]);
      RunKeepsInv(Apply(s, steps[0]), steps[1..]);
    }
  }

  /** In every reachable state a table entry is an open descriptor, owned by the one
      connection that holds the slot; no descriptor is in two slots. */
  lemma EntriesAreLive(s: State, steps: seq<Step>, i: nat) returns (c: nat)
    requires Initial(s) && Run(s, steps).Some?
    requires var t := Run(s, steps).value; i < |t.table| && t.table[i] != EMPTY
    ensures var t := Run(s, steps).value;
            && c < |t.conns| && InTable(t.conns[c].phase) && t.conns[c].slot == i && t.conns[c].fd == t.table[i]
            && OwnerOf(t.fds, t.table[i]) == Some(Own(c))
            && forall j :: 0 <= j < |t.table| && t.table[j] == t.table[i] ==> j == i
  {
    assert Inv(s);
    hide Run, Initial;
    RunKeepsInv(s, steps);
    var t := Run(s, steps).value;
    c :| 0 <= c < |t.conns| && SlotOwner(t, i, c);
    assert ConnOk(t, c);
    forall j | 0 <= j < |t.table| && t.table[j] == t.table[i] ensures j == i {
      var d :| 0 <= d < |t.conns| && SlotOwner(t, j, d);
      assert ConnOk(t, d);
    }
  }

  /** Every shutdown() of the stop scan hits an open connection of this server, never a
      closed or reused descriptor; and once stop waits, every connection that has not begun
      its release has been shut down. */
  lemma ShutdownsAreSafeAndComplete(s: State, steps: seq<Step>)
    requires Initial(s) && Run(s, steps).Some?
    ensures var t := Run(s, steps).value;
            && (forall k :: 0 <= k < |t.shut| ==> t.shut[k].Some? && t.shut[k].value.Own?)
            && (t.stop.Waiting? ==> forall c :: 0 <= c < |t.conns| && t.conns[c].phase.Serving? ==> WasShut(t, c))
  {
    assert Inv(s);
    hide Run, Initial;
    RunKeepsInv(s, steps);
    var t := Run(s, steps).value;
    forall c | 0 <= c < |t.conns| && t.conns[c].phase.Serving? && t.stop.Waiting? ensures WasShut(t, c) {
      assert ConnOk(t, c);
    }
  }

  /** Once stop has freed the server, no thread has a step left that touches it. */
  lemma NobodyTouchesFreedServer(s: State, steps: seq<Step>, e: Step)
    requires Initial(s) && Run(s, steps).Some? && Run(s, steps).value.stop.Freed?
    requires Enabled(Run(s, steps).value, e)
    ensures e.ForeignOpen? || e.ForeignClose?
  {
    assert Inv(s);
    hide Run, Initial, TableOk, ShutOk, Counting;
    RunKeepsInv(s, steps);
    var t := Run(s, steps).value;
    if Releasing(e) {
      assert ConnOk(t, e.c);
      CountedIsCounted(t.conns, e.c);
      assert false;
    }
  }

  lemma StepKeepsSize(s: State, e: Step)
    requires Enabled(s, e)
    ensures |Apply(s, e).table| == |s.table|
  {
  }

  lemma {:induction false} TableKeepsSize(s: State, steps: seq<Step>)
    requires Run(s, steps).Some?
    ensures |Run(s, steps).value.table| == |s.table|
    decreases |steps|
  {
    hide Enabled, Apply;
    if steps != [] {
      StepKeepsSize(s, steps[0]);
      TableKeepsSize(Apply(s, steps[0]), steps[1..]);
    }
  }

  predicate AllTaken(table: seq<int>, n: nat) {
    n <= |table| && forall i :: 0 <= i < n ==> table[i] != EMPTY
  }

  /** The connection has the lowest free slot, and only that slot has changed. */
  predicate GivenLowest(t: State, u: State, c: nat) {
    && c < |t.conns| && c < |u.conns|
    && var slot := u.conns[c].slot;
    && slot < |t.table| && t.table[slot] == EMPTY && AllTaken(t.table, slot)
    && u.table == t.table[slot := t.conns[c].fd]
  }

  /** In every reachable state an accepted connection is turned away if and only if all 128
      slots are taken; otherwise the lowest free one gets its descriptor. */
  lemma TurnedAwayExactly(s: State, steps: seq<Step>)
    requires Initial(s) && Run(s, steps).Some?
    requires var t := Run(s, steps).value; t.accepting.Some? && InPhase(t, t.accepting.value, Accepted) && t.lock.Free?
    ensures var t := Run(s, steps).value;
            && |t.table| == 128 && (Enabled(t, Reserve) <==> !Enabled(t, Refuse))
            && (Enabled(t, Refuse) <==> AllTaken(t.table, 128))
            && (Enabled(t, Reserve) ==> GivenLowest(t, Apply(t, Reserve), t.accepting.value))
  {
    hide Run;
    TableKeepsSize(s, steps);
  }
}
