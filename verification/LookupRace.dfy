/** The whole lookup of dns_cache_get against the locked writer: the filter is read without
    the mutex, and only a lookup that passes it takes the mutex and consults the entries. */
module LookupRace {
  import opened Names
  import opened Bloom
  import opened CacheSpec
  import R = FilterRace

  /** A lookup in progress or finished; it has run its filter part as a reader of that id. */
  datatype Ask = Ask(name: seq<byte>, qtype: u16, cap: nat, now: int, done: bool, hit: Option<Hit>)

  /** Who has the mutex: nobody, a lookup taking out an expired entry, or a put, which may
      have evicted already. */
  datatype Holder = Nobody | Getting | Putting(op: Op, evicted: bool)

  /** The filter with its readers and writer, the entries the mutex protects, its holder, the
      operations in the order they had the mutex to the end, and the lookups. */
  datatype State = State(race: R.State, view: View, holder: Holder, log: seq<Op>, asks: map<nat, Ask>)

  /** `j` says where the filter's list of installed hashes holds the entry's hash. */
  datatype Step =
    | StartPut(op: Op)
    | Evict(j: nat)
    | Renew
    | BeginAdd
    | WriterLoad
    | WriterStore
    | WriterDone
    | Start(id: nat, name: seq<byte>, qtype: u16, cap: nat, now: int)
    | Load(id: nat)
    | Consult(id: nat, j: nat)

  function HashOf(e: Entry): u64 {
    KeyHash(e.name, e.qtype)
  }

  function HashesOf(v: View): (r: seq<u64>)
    ensures |r| == |v|
  {
    seq(|v|, i requires 0 <= i < |v| => HashOf(v[i]))
  }

  /** Entry k goes, and the filter's deletion of its hash begins. */
  predicate Droppable(s: State, k: nat, j: nat) {
    s.race.writer.Idle? && k < |s.view| && j < |s.race.live| && s.race.live[j] == HashOf(s.view[k])
  }

  function Dropping(s: State, k: nat, j: nat): State
    requires |s.race.slots| == SLOTS && Droppable(s, k, j)
  {
    s.(race := R.Apply(s.race, R.BeginDel(j)), view := Without(s.view, k))
  }

  predicate Expired(v: View, a: Ask) {
    Find(v, a.name, a.qtype).Some? && v[Find(v, a.name, a.qtype).value].expires <= a.now
  }

  /** A put that has the mutex and is not busy with the filter. */
  predicate InPut(s: State) {
    s.holder.Putting? && s.holder.op.PutOp? && s.race.writer.Idle?
  }

  function PutAt(s: State): Option<nat>
    requires s.holder.Putting?
  {
    Find(s.view, s.holder.op.name, s.holder.op.qtype)
  }

  /** A lookup that passed the filter and now has the mutex. */
  predicate InGet(s: State, id: nat) {
    && id in s.asks && !s.asks[id].done && id in s.race.readers && s.race.readers[id].verdict == R.Passed
    && s.holder.Nobody? && s.race.writer.Idle?
  }

  predicate Enabled(s: State, e: Step) {
    match e
    case StartPut(op) => s.holder.Nobody? && op.PutOp?
    case Evict(j) =>
      && InPut(s) && PutAt(s).None? && |s.view| >= CAPACITY
      && Droppable(s, Victim(s.view, s.holder.op.now), j)
    case Renew => InPut(s) && PutAt(s).Some?
    case BeginAdd => InPut(s) && PutAt(s).None? && |s.view| < CAPACITY
    case WriterLoad => R.Enabled(s.race, R.WriterLoad)
    case WriterStore => R.Enabled(s.race, R.WriterStore)
    case WriterDone => R.Enabled(s.race, R.WriterDone)
    case Start(_, _, _, _, _) => true
    case Load(id) => id in s.asks && !s.asks[id].done && R.Enabled(s.race, R.ReaderLoad(id))
    case Consult(id, j) =>
      && InGet(s, id)
      && (Expired(s.view, s.asks[id]) ==> Droppable(s, Find(s.view, s.asks[id].name, s.asks[id].qtype).value, j))
  }

  function Answer(s: State, a: Ask): Option<Hit> {
    Got(s.view, a.name, a.qtype, a.cap, a.now)
  }

  /** The entry a put stores under this spelling. */
  function Stored(name: seq<byte>, op: Op): Entry
    requires op.PutOp?
  {
    Entry(name, op.qtype, Kept(op.ans), op.rcode, op.now + Lifetime(Kept(op.ans)))
  }

  /** The put leaves these entries and gives the mutex back. */
  function Ended(s: State, op: Op, view: View): State {
    s.(view := view, holder := Nobody, log := s.log + [op])
  }

  function Apply(s: State, e: Step): State
    requires |s.race.slots| == SLOTS && Enabled(s, e)
  {
    match e
    case StartPut(op) => s.(holder := Putting(op, false))
    case Evict(j) => Dropping(s, Victim(s.view, s.holder.op.now), j).(holder := s.holder.(evicted := true))
    case Renew =>
      Ended(s, s.holder.op, [Stored(s.view[PutAt(s).value].name, s.holder.op)] + Without(s.view, PutAt(s).value))
    case BeginAdd => s.(race := R.Apply(s.race, R.BeginAdd(KeyHash(s.holder.op.name, s.holder.op.qtype))))
    case WriterLoad => s.(race := R.Apply(s.race, R.WriterLoad))
    case WriterStore => s.(race := R.Apply(s.race, R.WriterStore))
    case WriterDone =>
      var s' := s.(race := R.Apply(s.race, R.WriterDone));
      if s.holder.Getting? then s'.(holder := Nobody)
      else if s.holder.Putting? && s.holder.op.PutOp? && s.race.writer.adding then
        Ended(s', s.holder.op, [Stored(s.holder.op.name, s.holder.op)] + s.view)
      else s'
    case Start(id, name, qtype, cap, now) =>
      s.(race := R.Apply(s.race, R.ReaderStart(id, KeyHash(name, qtype))),
         asks := s.asks[id := Ask(name, qtype, cap, now, false, None)])
    case Load(id) =>
      var r := R.Apply(s.race, R.ReaderLoad(id));
      var rejected := id in r.readers && r.readers[id].verdict == R.Rejected;
      s.(race := r, asks := if rejected then s.asks[id := s.asks[id].(done := true, hit := None)] else s.asks)
    case Consult(id, j) =>
      var a := s.asks[id];
      var s' := s.(asks := s.asks[id := a.(done := true, hit := Answer(s, a))],
                   log := s.log + [GetOp(a.name, a.qtype, a.now)]);
      var at := Find(s.view, a.name, a.qtype);
      if at.None? then s'
      else if Expired(s.view, a) then Dropping(s', at.value, j).(holder := Getting)
      else s'.(view := [s.view[at.value]] + Without(s.view, at.value))
  }

  predicate Initial(s: State) {
    R.Initial(s.race) && s.race.live == [] && s.view == [] && s.holder.Nobody? && s.log == [] && s.asks == map[]
  }

  // ---------------------------------------------------------------- invariant

  /** The installed hashes are those of the entries, in whatever order. */
  predicate SameKeys(s: State) {
    multiset(s.race.live) == multiset(HashesOf(s.view))
  }

  predicate AsksOk(s: State) {
    forall id :: id in s.asks && !s.asks[id].done
      ==> id in s.race.readers && s.race.readers[id].hash == KeyHash(s.asks[id].name, s.asks[id].qtype)
  }

  predicate HolderOk(s: State) {
    match s.holder
    case Nobody => s.race.writer.Idle?
    case Getting => s.race.writer.Busy? && !s.race.writer.adding
    case Putting(op, _) =>
      && op.PutOp?
      && (s.race.writer.Busy? && s.race.writer.adding ==>
            PutAt(s).None? && |s.view| < CAPACITY && s.race.writer.hash == KeyHash(op.name, op.qtype))
  }

  /** The entries are those of the history; a put that has evicted is one entry ahead. */
  predicate ViewOk(s: State) {
    var v := Run(s.log);
    if s.holder.Putting? && s.holder.evicted then
      && Find(v, s.holder.op.name, s.holder.op.qtype).None? && |v| >= CAPACITY
      && s.view == Without(v, Victim(v, s.holder.op.now))
    else s.view == v
  }

  predicate Inv(s: State) {
    R.Inv(s.race) && SameKeys(s) && AsksOk(s) && HolderOk(s) && ViewOk(s)
  }

  lemma HashesWithout(v: View, k: nat)
    requires k < |v|
    ensures HashesOf(Without(v, k)) == Without(HashesOf(v), k)
  {
    hide KeyHash;
  }

  lemma HashesFront(e: Entry, v: View)
    ensures HashesOf([e] + v) == [HashOf(e)] + HashesOf(v)
  {
    hide KeyHash;
  }

  lemma RemovedOne<T>(s: seq<T>, k: nat)
    requires k < |s|
    ensures multiset(Without(s, k)) == multiset(s) - multiset{s[k]}
  {
    assert s == s[..k] + ([s[k]] + s[k + 1..]);
  }

  lemma FullTable(s: State)
    requires R.Inv(s.race)
    ensures |s.race.slots| == SLOTS
  {
  }

  lemma DroppingKeeps(s: State, k: nat, j: nat)
    requires R.Inv(s.race) && SameKeys(s) && AsksOk(s) && Droppable(s, k, j)
    ensures var s' := Dropping(s, k, j);
            R.Inv(s'.race) && SameKeys(s') && AsksOk(s') && s'.race.writer.Busy? && !s'.race.writer.adding
  {
    hide KeyHash, R.Inv, HashesOf;
    FullTable(s);
    R.StepKeepsInv(s.race, R.BeginDel(j));
    HashesWithout(s.view, k);
    RemovedOne(s.race.live, j);
    RemovedOne(HashesOf(s.view), k);
    HashAt(s.view, k);
    assert Dropping(s, k, j).race.live == Without(s.race.live, j);
  }

  /** Whatever is taken out was installed, so an eviction or an expiry never has to wait. */
  lemma DropIsPossible(s: State, k: nat)
    requires Inv(s) && s.race.writer.Idle? && k < |s.view|
    ensures exists j :: 0 <= j < |s.race.live| && Droppable(s, k, j)
  {
    hide KeyHash, R.Inv, HashesOf, Run, Find;
    HashAt(s.view, k);
    assert HashesOf(s.view)[k] in multiset(HashesOf(s.view));
    assert HashOf(s.view[k]) in multiset(s.race.live);
    var j :| 0 <= j < |s.race.live| && s.race.live[j] == HashOf(s.view[k]);
    assert Droppable(s, k, j);
  }

  lemma HashAt(v: View, k: nat)
    requires k < |v|
    ensures HashesOf(v)[k] == HashOf(v[k])
  {
    hide KeyHash;
  }

  /** Putting an entry with the same key in front changes no hash. */
  lemma MovingKeeps(v: View, k: nat, e: Entry)
    requires k < |v| && HashOf(e) == HashOf(v[k])
    ensures multiset(HashesOf([e] + Without(v, k))) == multiset(HashesOf(v))
  {
    hide KeyHash, HashesOf;
    HashesFront(e, Without(v, k));
    HashesWithout(v, k);
    HashAt(v, k);
    RemovedOne(HashesOf(v), k);
  }

  lemma RunOneMore(log: seq<Op>, op: Op)
    ensures Run(log + [op]) == ApplyOp(Run(log), op)
  {
    hide ApplyOp;
    assert (log + [op])[..|log|] == log;
  }

  lemma ConsultKeeps(s: State, id: nat, j: nat)
    requires Inv(s) && Enabled(s, Consult(id, j))
    ensures Inv(Apply(s, Consult(id, j)))
  {
    hide KeyHash, R.Inv, HashesOf, Find, Got, Run;
    var a := s.asks[id];
    RunOneMore(s.log, GetOp(a.name, a.qtype, a.now));
    var s1 := s.(asks := s.asks[id := a.(done := true, hit := Answer(s, a))],
                 log := s.log + [GetOp(a.name, a.qtype, a.now)]);
    var at := Find(s.view, a.name, a.qtype);
    if at.Some? {
      if Expired(s.view, a) {
        DroppingKeeps(s1, at.value, j);
      } else {
        MovingKeeps(s.view, at.value, s.view[at.value]);
      }
    }
  }

  /** Taking an entry out brings no key in. */
  lemma StillAbsent(v: View, k: nat, name: seq<byte>, qtype: u16)
    requires k < |v| && Find(v, name, qtype).None?
    ensures Find(Without(v, k), name, qtype).None?
  {
    hide NameEq;
    var at := Find(Without(v, k), name, qtype);
    if at.Some? { WithoutAt(v, k, at.value); }
  }

  lemma EvictKeeps(s: State, j: nat)
    requires Inv(s) && Enabled(s, Evict(j))
    ensures Inv(Apply(s, Evict(j)))
  {
    hide KeyHash, R.Inv, HashesOf, Find, Run, Victim;
    HistoryIsGood(s.log);
    GoodParts(s.log, Run(s.log));
    DroppingKeeps(s, Victim(s.view, s.holder.op.now), j);
  }

  lemma RenewKeeps(s: State)
    requires Inv(s) && Enabled(s, Renew)
    ensures Inv(Apply(s, Renew))
  {
    hide KeyHash, R.Inv, HashesOf, Find, Run, Victim;
    var op, v := s.holder.op, Run(s.log);
    if s.holder.evicted { StillAbsent(v, Victim(v, op.now), op.name, op.qtype); }
    MovingKeeps(s.view, PutAt(s).value, Stored(s.view[PutAt(s).value].name, op));
    RunOneMore(s.log, op);
  }

  lemma AddKeeps(s: State)
    requires Inv(s) && Enabled(s, BeginAdd)
    ensures Inv(Apply(s, BeginAdd))
  {
    hide KeyHash, R.Inv, HashesOf, Find, Run, Victim;
    FullTable(s);
    R.StepKeepsInv(s.race, R.BeginAdd(KeyHash(s.holder.op.name, s.holder.op.qtype)));
  }

  lemma CounterKeeps(s: State, e: Step)
    requires Inv(s) && Enabled(s, e) && (e.WriterLoad? || e.WriterStore?)
    ensures Inv(Apply(s, e))
  {
    hide KeyHash, R.Inv, HashesOf, Slot, Find, Run, Victim;
    FullTable(s);
    if e.WriterLoad? {
      R.StepKeepsInv(s.race, R.WriterLoad);
    } else {
      R.StepKeepsInv(s.race, R.WriterStore);
    }
  }

  lemma DoneKeeps(s: State)
    requires Inv(s) && Enabled(s, WriterDone)
    ensures Inv(Apply(s, WriterDone))
  {
    hide KeyHash, R.Inv, HashesOf, Find, Run, Victim;
    FullTable(s);
    R.StepKeepsInv(s.race, R.WriterDone);
    if s.race.writer.adding {
      AddedKeys(s);
      AddedView(s);
    }
  }

  lemma AddedKeys(s: State)
    requires SameKeys(s) && HolderOk(s) && s.holder.Putting? && s.race.writer.Busy? && s.race.writer.adding
    ensures var op := s.holder.op;
            multiset([s.race.writer.hash] + s.race.live) == multiset(HashesOf([Stored(op.name, op)] + s.view))
  {
    hide KeyHash, HashesOf, Find;
    HashesFront(Stored(s.holder.op.name, s.holder.op), s.view);
  }

  lemma AddedView(s: State)
    requires HolderOk(s) && ViewOk(s) && s.holder.Putting? && s.race.writer.Busy? && s.race.writer.adding
    ensures var op := s.holder.op; [Stored(op.name, op)] + s.view == Run(s.log + [op])
  {
    hide KeyHash, Find, Run, Victim, Lifetime;
    RunOneMore(s.log, s.holder.op);
  }

  lemma ReaderKeeps(s: State, e: Step)
    requires Inv(s) && Enabled(s, e) && (e.Start? || e.Load?)
    ensures Inv(Apply(s, e))
  {
    hide KeyHash, R.Inv, HashesOf, Slot, Find, Run, Victim;
    FullTable(s);
    if e.Start? {
      R.StepKeepsInv(s.race, R.ReaderStart(e.id, KeyHash(e.name, e.qtype)));
    } else {
      R.StepKeepsInv(s.race, R.ReaderLoad(e.id));
    }
  }

  lemma StepKeepsInv(s: State, e: Step)
    requires Inv(s) && Enabled(s, e)
    ensures Inv(Apply(s, e))
  {
    hide KeyHash, R.Inv, HashesOf, Inv;
    match e {
      case StartPut(op) => StartKeeps(s, op);
      case Evict(j) => EvictKeeps(s, j);
      case Renew => RenewKeeps(s);
      case BeginAdd => AddKeeps(s);
      case Start(_, _, _, _, _) => ReaderKeeps(s, e);
      case Load(_) => ReaderKeeps(s, e);
      case Consult(id, j) => ConsultKeeps(s, id, j);
      case WriterDone => DoneKeeps(s);
      case _ => CounterKeeps(s, e);
    }
  }

  lemma StartKeeps(s: State, op: Op)
    requires Inv(s) && Enabled(s, StartPut(op))
    ensures Inv(Apply(s, StartPut(op)))
  {
    hide KeyHash, R.Inv, HashesOf, Find, Run, Victim;
  }

  // ---------------------------------------------------------------- lookups

  /** A rejection: at that moment the cache has no entry for the key. */
  lemma RejectedIsAbsent(s: State, id: nat)
    requires Inv(s) && Enabled(s, Load(id)) && Apply(s, Load(id)).asks[id].done
    ensures Find(s.view, s.asks[id].name, s.asks[id].qtype).None?
  {
    hide KeyHash, Slot, HashesOf, Run, HolderOk, ViewOk;
    var a := s.asks[id];
    var at := Find(s.view, a.name, a.qtype);
    if at.Some? {
      var e := s.view[at.value];
      HashIgnoresCase(e.name, a.name, a.qtype);
      HashAt(s.view, at.value);
      assert HashesOf(s.view)[at.value] in multiset(HashesOf(s.view));
      assert HashOf(e) in multiset(s.race.live);
      R.InstalledCountersNonZero(s.race, HashOf(e), s.race.readers[id].i);
    }
  }

  /** The step that ends a lookup gives it exactly the answer of the entries at that moment;
      if it took the mutex it also leaves the entries as a lookup leaves them. */
  lemma EndsWithTheAnswer(s: State, e: Step, id: nat)
    requires Inv(s) && Enabled(s, e) && id in s.asks && !s.asks[id].done
    requires id in Apply(s, e).asks && Apply(s, e).asks[id].done
    ensures Apply(s, e).asks[id].hit == Answer(s, s.asks[id])
    ensures e.Consult? ==> Apply(s, e).view == AfterGet(s.view, s.asks[id].name, s.asks[id].qtype, s.asks[id].now)
  {
    hide KeyHash, Slot, HashesOf, Find, R.Inv, Run, Victim, ViewOk;
    if e.Load? { RejectedIsAbsent(s, id); }
  }

  ghost predicate Follows(s: State, s': State) {
    |s.race.slots| == SLOTS && exists e: Step :: Enabled(s, e) && s' == Apply(s, e)
  }

  ghost predicate IsRun(run: seq<State>) {
    forall t :: 0 <= t < |run| - 1 ==> Follows(run[t], run[t + 1])
  }

  lemma {:induction false} RunKeepsInv(run: seq<State>, t: nat)
    requires IsRun(run) && t < |run| && Initial(run[0])
    ensures Inv(run[t])
    decreases t
  {
    hide Apply, Inv, Enabled, Initial;
    if t == 0 {
      InitialInv(run[0]);
    } else {
      RunKeepsInv(run, t - 1);
      assert Follows(run[t - 1], run[t]);
      var e :| Enabled(run[t - 1], e) && run[t] == Apply(run[t - 1], e);
      StepKeepsInv(run[t - 1], e);
    }
  }

  lemma InitialInv(s: State)
    requires Initial(s)
    ensures Inv(s)
  {
    hide R.Inv;
    R.InitialInv(s.race);
  }

  /** Under every interleaving, lookups are as if they happened at one instant: a lookup that
      is unfinished at moment t and finished at the next has the answer the entries give at
      moment t.  A miss means the key had no entry, or an expired one; a hit is that entry's. */
  lemma LookupsAreAtomic(run: seq<State>, t: nat, id: nat)
    requires IsRun(run) && t + 1 < |run| && Initial(run[0])
    requires id in run[t].asks && !run[t].asks[id].done && id in run[t + 1].asks && run[t + 1].asks[id].done
    ensures run[t + 1].asks[id].hit == Answer(run[t], run[t].asks[id])
  {
    hide Apply, Inv, Enabled, Initial, Answer;
    RunKeepsInv(run, t);
    assert Follows(run[t], run[t + 1]);
    var e :| Enabled(run[t], e) && run[t + 1] == Apply(run[t], e);
    EndsWithTheAnswer(run[t], e, id);
  }

  // ---------------------------------------------------------------- the history

  /** Whenever the mutex is free the entries are those of the operations so far, in the order
      in which they had it. */
  lemma CriticalSectionsMakeTheHistory(run: seq<State>, t: nat)
    requires IsRun(run) && t < |run| && Initial(run[0]) && run[t].holder.Nobody?
    ensures run[t].view == Run(run[t].log)
  {
    hide Initial, Run, R.Inv;
    RunKeepsInv(run, t);
  }

  /** A put that has evicted: its victim alone is missing. */
  lemma OnlyTheVictim(v: View, k: nat, name: seq<byte>, qtype: u16)
    requires k < |v| && UniqueKeys(v) && Find(Without(v, k), name, qtype).None?
    ensures Find(v, name, qtype).None? || Find(v, name, qtype) == Some(k)
  {
    hide NameEq;
    var at := Find(v, name, qtype);
    if at.Some? && at.value != k {
      var i := if at.value < k then at.value else at.value - 1;
      WithoutAt(v, k, i);
    }
  }

  /** The lookup's key is that of the entry the put in progress evicts. */
  predicate BeingEvicted(s: State, a: Ask) {
    && s.holder.Putting? && s.holder.evicted && |Run(s.log)| == 4096
    && Find(Run(s.log), a.name, a.qtype) == Some(Victim(Run(s.log), s.holder.op.now))
  }

  /** Under every interleaving a lookup that ends at moment t answers as the history up to
      then does, but for one case: a key being evicted at that moment may already miss. */
  lemma LookupsSeeTheHistory(run: seq<State>, t: nat, id: nat)
    requires IsRun(run) && t + 1 < |run| && Initial(run[0])
    requires id in run[t].asks && !run[t].asks[id].done && id in run[t + 1].asks && run[t + 1].asks[id].done
    ensures var a, hit := run[t].asks[id], run[t + 1].asks[id].hit;
            || hit == Got(Run(run[t].log), a.name, a.qtype, a.cap, a.now)
            || (hit == None && BeingEvicted(run[t], a))
  {
    hide Apply, Inv, Enabled, Initial, Got;
    RunKeepsInv(run, t);
    assert Follows(run[t], run[t + 1]);
    var e :| Enabled(run[t], e) && run[t + 1] == Apply(run[t], e);
    EndsWithTheAnswer(run[t], e, id);
    AnswersFromTheHistory(run[t], e, id);
  }

  lemma AnswersFromTheHistory(s: State, e: Step, id: nat)
    requires Inv(s) && Enabled(s, e) && id in s.asks && !s.asks[id].done
    requires id in Apply(s, e).asks && Apply(s, e).asks[id].done
    ensures var a := s.asks[id];
            Answer(s, a) == Got(Run(s.log), a.name, a.qtype, a.cap, a.now)
              || (Answer(s, a) == None && BeingEvicted(s, a))
  {
    hide KeyHash, Slot, HashesOf, Find, R.Inv, Run, Victim, UniqueKeys;
    var a, v := s.asks[id], Run(s.log);
    if s.holder.Putting? && s.holder.evicted {
      assert e.Load?;
      RejectedIsAbsent(s, id);
      HistoryIsGood(s.log);
      GoodParts(s.log, v);
      OnlyTheVictim(v, Victim(v, s.holder.op.now), a.name, a.qtype);
    }
  }

  /** A hit, under every interleaving: the answers and rcode of the last put of the key that
      had the mutex before, cut to the caller's capacity, with the seconds they have left. */
  lemma HitIsLastPut(run: seq<State>, t: nat, id: nat) returns (p: nat, life: nat)
    requires IsRun(run) && t + 1 < |run| && Initial(run[0])
    requires id in run[t].asks && !run[t].asks[id].done && id in run[t + 1].asks && run[t + 1].asks[id].done
    requires run[t + 1].asks[id].hit.Some?
    ensures var a, log := run[t].asks[id], run[t].log;
            && LastPutAt(log, a.name, a.qtype, p) && Lives(Cut(log[p].ans, 8), life)
            && var left := log[p].now + life - a.now;
            && left > 0
            && run[t + 1].asks[id].hit.value ==
               Hit(WithTtl(Cut(Cut(log[p].ans, 8), a.cap), left % 0x1_0000_0000), log[p].rcode)
  {
    hide Apply, Inv, Enabled, Initial, Got, Run, IsRun, BeingEvicted, Lives, WithTtl;
    LookupsSeeTheHistory(run, t, id);
    var a := run[t].asks[id];
    p, life := HitIsLastStored(run[t].log, a.name, a.qtype, a.cap, a.now);
  }

  /** What was put is served, under every interleaving: through the next 4087 operations that
      have the mutex, as long as the key is not put again and not asked for after its end,
      every lookup of it that ends hits before that end. */
  lemma PutIsServedConcurrently(run: seq<State>, t: nat, id: nat, p: nat, life: nat)
    requires IsRun(run) && t + 1 < |run| && Initial(run[0])
    requires id in run[t].asks && !run[t].asks[id].done && id in run[t + 1].asks && run[t + 1].asks[id].done
    requires var a, log := run[t].asks[id], run[t].log;
             && LastPutAt(log, a.name, a.qtype, p) && Lives(Cut(log[p].ans, 8), life) && |log| - p <= 4088
             && (forall i :: p < i < |log| && OnKey(log[i], a.name, a.qtype) ==> log[i].now < log[p].now + life)
             && a.now < log[p].now + life
    ensures var a, log := run[t].asks[id], run[t].log;
            var left := log[p].now + life - a.now;
            run[t + 1].asks[id].hit ==
            Some(Hit(WithTtl(Cut(Cut(log[p].ans, 8), a.cap), left % 0x1_0000_0000), log[p].rcode))
  {
    hide Apply, Inv, Enabled, Initial, Got, Run, IsRun, Lives, WithTtl, Victim, Find, NameEq, Cut;
    var a, log := run[t].asks[id], run[t].log;
    LookupsSeeTheHistory(run, t, id);
    PutIsServed(log, p, a.name, a.qtype, life, a.cap, a.now);
    if BeingEvicted(run[t], a) {
      NotTheVictim(log, p, a.name, a.qtype, life, run[t].holder.op.now);
    }
  }

  lemma NotTheVictim(log: seq<Op>, p: nat, name: seq<byte>, qtype: u16, life: nat, now: int)
    requires LastPutAt(log, name, qtype, p) && Lives(Cut(log[p].ans, 8), life) && |log| - p <= 4088
    requires forall i :: p < i < |log| && OnKey(log[i], name, qtype) ==> log[i].now < log[p].now + life
    requires |Run(log)| == 4096
    ensures Find(Run(log), name, qtype) != Some(Victim(Run(log), now))
  {
    hide Run, Lives, NameEq, Victim, Find, Good, UniqueKeys;
    var k := StandsNear(log, p, name, qtype, life);
    HistoryIsGood(log);
    GoodParts(log, Run(log));
    SameName(name, name);
    KeyFound(Run(log), GetOp(name, qtype, now), name, qtype, k);
    VictimIsLate(Run(log), now);
  }
}
