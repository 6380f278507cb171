/** What the cache of dns_cache.c means: a recency-ordered list of at most 4096 entries,
    most recent first, with one entry per (name up to case, query type). */
module CacheSpec {
  import opened Names
  import opened Wire
  import opened Bloom

  const CAPACITY := 4096
  const MIN_TTL := 5
  const MAX_TTL := 86400
  const NEG_TTL := 60
  const SCAN := 8

  datatype Entry = Entry(name: seq<byte>, qtype: u16, answers: seq<Answer>, rcode: int, expires: int)

  type View = seq<Entry>

  predicate HasKey(e: Entry, name: seq<byte>, qtype: u16) {
    e.qtype == qtype && NameEq(e.name, name)
  }

  /** Position of the entry for a key. */
  function Find(v: View, name: seq<byte>, qtype: u16): (r: Option<nat>)
    ensures r.Some? ==> r.value < |v| && HasKey(v[r.value], name, qtype)
    ensures r.None? ==> forall i :: 0 <= i < |v| ==> !HasKey(v[i], name, qtype)
  {
    if v == [] then None
    else if HasKey(v[0], name, qtype) then Some(0)
    else
      var r := Find(v[1..], name, qtype);
      if r.None? then None else Some(r.value + 1)
  }

  // ---------------------------------------------------------------- lifetimes

  function Kept(ans: seq<Answer>): seq<Answer> {
    if |ans| > MAX_ANSWERS then ans[..MAX_ANSWERS] else ans
  }

  /** The shortest TTL, starting from the largest one allowed. */
  function ShortestTtl(ans: seq<Answer>): nat {
    if ans == [] then MAX_TTL
    else
      var m := ShortestTtl(ans[..|ans| - 1]);
      if ans[|ans| - 1].ttl < m then ans[|ans| - 1].ttl else m
  }

  /** How long an answer set lives; an empty set is a remembered NXDOMAIN. */
  function Lifetime(ans: seq<Answer>): nat {
    if ans == [] then NEG_TTL
    else if ShortestTtl(ans) < MIN_TTL then MIN_TTL
    else ShortestTtl(ans)
  }

  lemma {:induction false} ShortestIsLeast(ans: seq<Answer>)
    ensures ShortestTtl(ans) <= MAX_TTL
    ensures forall i :: 0 <= i < |ans| ==> ShortestTtl(ans) <= ans[i].ttl
  {
    if ans != [] {
      var front := ans[..|ans| - 1];
      ShortestIsLeast(front);
      assert forall i :: 0 <= i < |front| ==> front[i] == ans[i];
    }
  }

  // ---------------------------------------------------------------- operations

  /** The entry evict_one picks: the expired one nearest the tail among the last eight,
      else the tail; `k` entries have been looked at. */
  function VictimFrom(v: View, now: int, k: nat): (r: nat)
    requires v != []
    ensures r < |v|
    decreases SCAN - k
  {
    if k >= SCAN || k >= |v| then |v| - 1
    else if v[|v| - 1 - k].expires <= now then |v| - 1 - k
    else VictimFrom(v, now, k + 1)
  }

  function Victim(v: View, now: int): (r: nat)
    requires v != []
    ensures r < |v|
  {
    VictimFrom(v, now, 0)
  }

  /** The entries a put leaves behind the one it stores: the key's old entry goes, or, for
      a new key in a full cache, one victim. */
  function Behind(v: View, name: seq<byte>, qtype: u16, now: int): View {
    var at := Find(v, name, qtype);
    if at.Some? then Without(v, at.value)
    else if |v| >= CAPACITY then Without(v, Victim(v, now))
    else v
  }

  /** The spelling of the key: an existing entry keeps the one it was created with. */
  function Spelling(v: View, name: seq<byte>, qtype: u16): seq<byte> {
    var at := Find(v, name, qtype);
    if at.Some? then v[at.value].name else name
  }

  /** dns_cache_put. */
  function Put(v: View, name: seq<byte>, qtype: u16, ans: seq<Answer>, rcode: int, now: int): View {
    var kept := Kept(ans);
    [Entry(Spelling(v, name, qtype), qtype, kept, rcode, now + Lifetime(kept))] + Behind(v, name, qtype, now)
  }

  datatype Hit = Hit(answers: seq<Answer>, rcode: int)

  /** The stored answers with the TTL the client should see now. */
  function WithTtl(ans: seq<Answer>, ttl: nat): (r: seq<Answer>)
    ensures |r| == |ans|
    ensures forall i :: 0 <= i < |ans| ==> r[i] == ans[i].(ttl := ttl)
  {
    seq(|ans|, i requires 0 <= i < |ans| => ans[i].(ttl := ttl))
  }

  function Remaining(e: Entry, now: int): nat {
    (e.expires - now) % 0x1_0000_0000
  }

  function Served(e: Entry, cap: nat, now: int): Hit {
    Hit(WithTtl(if |e.answers| < cap then e.answers else e.answers[..cap], Remaining(e, now)), e.rcode)
  }

  /** dns_cache_get: what it returns ... */
  function Got(v: View, name: seq<byte>, qtype: u16, cap: nat, now: int): Option<Hit> {
    var at := Find(v, name, qtype);
    if at.None? || v[at.value].expires <= now then None else Some(Served(v[at.value], cap, now))
  }

  /** ... and what it leaves: an expired entry goes, a hit moves to the front. */
  function AfterGet(v: View, name: seq<byte>, qtype: u16, now: int): View {
    var at := Find(v, name, qtype);
    if at.None? then v
    else if v[at.value].expires <= now then Without(v, at.value)
    else [v[at.value]] + Without(v, at.value)
  }

  // ---------------------------------------------------------------- histories

  datatype Op =
    | PutOp(name: seq<byte>, qtype: u16, ans: seq<Answer>, rcode: int, now: int)
    | GetOp(name: seq<byte>, qtype: u16, now: int)

  function ApplyOp(v: View, op: Op): View {
    match op
    case PutOp(n, q, a, r, now) => Put(v, n, q, a, r, now)
    case GetOp(n, q, now) => AfterGet(v, n, q, now)
  }

  /** The cache after a history that began with an empty cache. */
  function Run(ops: seq<Op>): View {
    if ops == [] then [] else ApplyOp(Run(ops[..|ops| - 1]), ops[|ops| - 1])
  }

  predicate OnKey(op: Op, name: seq<byte>, qtype: u16) {
    op.qtype == qtype && NameEq(op.name, name)
  }

  /** Index of the last operation on a key, -1 if there is none. */
  function LastUse(ops: seq<Op>, name: seq<byte>, qtype: u16): (r: int)
    ensures -1 <= r < |ops|
    ensures r >= 0 ==> OnKey(ops[r], name, qtype)
  {
    if ops == [] then -1
    else if OnKey(ops[|ops| - 1], name, qtype) then |ops| - 1
    else LastUse(ops[..|ops| - 1], name, qtype)
  }

  /** Index of the last put of a key, -1 if there is none. */
  function LastPut(ops: seq<Op>, name: seq<byte>, qtype: u16): (r: int)
    ensures -1 <= r < |ops|
    ensures r >= 0 ==> ops[r].PutOp? && OnKey(ops[r], name, qtype)
    ensures forall t :: r < t < |ops| ==> !(ops[t].PutOp? && OnKey(ops[t], name, qtype))
  {
    if ops == [] then -1
    else if ops[|ops| - 1].PutOp? && OnKey(ops[|ops| - 1], name, qtype) then |ops| - 1
    else LastPut(ops[..|ops| - 1], name, qtype)
  }

  /** An entry holds what the last put of its key stored. */
  predicate Current(ops: seq<Op>, e: Entry) {
    var t := LastPut(ops, e.name, e.qtype);
    && t >= 0
    && e.answers == Kept(ops[t].ans) && e.rcode == ops[t].rcode
    && e.expires == ops[t].now + Lifetime(Kept(ops[t].ans))
  }

  predicate Faithful(ops: seq<Op>, v: View) {
    forall i :: 0 <= i < |v| ==> Current(ops, v[i])
  }

  /** Entries stand in the order of their last use, most recent first. */
  predicate RecencyOrdered(ops: seq<Op>, v: View) {
    forall i, j :: 0 <= i < j < |v| ==> LastUse(ops, v[i].name, v[i].qtype) > LastUse(ops, v[j].name, v[j].qtype)
  }

  predicate UniqueKeys(v: View) {
    forall i, j :: 0 <= i < j < |v| ==> !HasKey(v[i], v[j].name, v[j].qtype)
  }

  // -- single operations, as they act on positions

  /** Everything an operation leaves is the front entry or an old entry in old order. */
  predicate Tail(v: View, rest: View) {
    rest == v || exists k :: 0 <= k < |v| && rest == Without(v, k)
  }

  /** Where the entries of a thinned list come from. */
  function Origin(k: nat, i: nat): nat { if i < k then i else i + 1 }

  lemma WithoutAt<T>(s: seq<T>, k: nat, i: nat)
    requires k < |s| && i < |s| - 1
    ensures |Without(s, k)| == |s| - 1 && Without(s, k)[i] == s[Origin(k, i)]
  {
  }

  /** A later operation on another key changes nothing about an entry. */
  lemma OtherKeyKeeps(ops: seq<Op>, op: Op, name: seq<byte>, qtype: u16)
    requires !OnKey(op, name, qtype)
    ensures LastUse(ops + [op], name, qtype) == LastUse(ops, name, qtype)
    ensures LastPut(ops + [op], name, qtype) == LastPut(ops, name, qtype)
  {
    assert (ops + [op])[..|ops|] == ops;
  }

  lemma SameKeyUse(ops: seq<Op>, op: Op, name: seq<byte>, qtype: u16)
    requires OnKey(op, name, qtype)
    ensures LastUse(ops + [op], name, qtype) == |ops|
    ensures op.PutOp? ==> LastPut(ops + [op], name, qtype) == |ops|
    ensures op.GetOp? ==> LastPut(ops + [op], name, qtype) == LastPut(ops, name, qtype)
  {
    assert (ops + [op])[..|ops|] == ops;
  }

  lemma CurrentExtends(ops: seq<Op>, op: Op, e: Entry)
    requires Current(ops, e)
    requires op.PutOp? ==> !OnKey(op, e.name, e.qtype)
    ensures Current(ops + [op], e)
  {
    if OnKey(op, e.name, e.qtype) {
      SameKeyUse(ops, op, e.name, e.qtype);
    } else {
      OtherKeyKeeps(ops, op, e.name, e.qtype);
    }
  }

  /** The three whole-history facts at once. */
  predicate Good(ops: seq<Op>, v: View) {
    Faithful(ops, v) && RecencyOrdered(ops, v) && UniqueKeys(v) && |v| <= 4096
  }

  /** Dropping an entry, or none, keeps them, once no other entry has the new key. */
  lemma RestGood(ops: seq<Op>, op: Op, v: View, rest: View)
    requires Good(ops, v) && Tail(v, rest)
    requires forall i :: 0 <= i < |rest| ==> !OnKey(op, rest[i].name, rest[i].qtype)
    ensures Good(ops + [op], rest)
  {
    hide LastUse, LastPut, Current, NameEq;
    if rest != v {
      var k :| 0 <= k < |v| && rest == Without(v, k);
      forall i | 0 <= i < |rest| ensures rest[i] == v[Origin(k, i)] { WithoutAt(v, k, i); }
    }
    forall i | 0 <= i < |rest| ensures Current(ops + [op], rest[i]) {
      CurrentExtends(ops, op, rest[i]);
    }
    forall i | 0 <= i < |rest|
      ensures LastUse(ops + [op], rest[i].name, rest[i].qtype) == LastUse(ops, rest[i].name, rest[i].qtype)
    {
      OtherKeyKeeps(ops, op, rest[i].name, rest[i].qtype);
    }
  }

  /** Putting the entry of the key just used in front keeps them too. */
  lemma FrontGood(ops: seq<Op>, op: Op, e: Entry, rest: View)
    requires Good(ops + [op], rest) && |rest| < CAPACITY
    requires OnKey(op, e.name, e.qtype) && Current(ops + [op], e)
    requires forall i :: 0 <= i < |rest| ==> !OnKey(op, rest[i].name, rest[i].qtype)
    ensures Good(ops + [op], [e] + rest)
  {
    hide LastUse, LastPut, Current, NameEq;
    var v := [e] + rest;
    SameKeyUse(ops, op, e.name, e.qtype);
    forall i | 0 <= i < |rest|
      ensures LastUse(ops + [op], rest[i].name, rest[i].qtype) < |ops| && !HasKey(e, rest[i].name, rest[i].qtype)
    {
      OtherKeyKeeps(ops, op, rest[i].name, rest[i].qtype);
      KeyTransfers(op, e, rest[i].name, rest[i].qtype);
    }
  }

  lemma KeyTransfers(op: Op, e: Entry, name: seq<byte>, qtype: u16)
    requires OnKey(op, e.name, e.qtype)
    ensures OnKey(op, name, qtype) <==> HasKey(e, name, qtype)
  {
  }

  /** Without the entry of a key, no entry has that key. */
  lemma RestLacksKey(v: View, at: nat, name: seq<byte>, qtype: u16)
    requires UniqueKeys(v) && at < |v| && HasKey(v[at], name, qtype)
    ensures forall i :: 0 <= i < |v| - 1 ==> !HasKey(Without(v, at)[i], name, qtype)
  {
    forall i | 0 <= i < |v| - 1 ensures !HasKey(Without(v, at)[i], name, qtype) {
      WithoutAt(v, at, i);
      var o := Origin(at, i);
      assert !HasKey(v[if o < at then o else at], v[if o < at then at else o].name, v[if o < at then at else o].qtype);
    }
  }

  lemma PutKeepsGood(ops: seq<Op>, op: Op, v: View)
    requires op.PutOp? && Good(ops, v)
    ensures Good(ops + [op], ApplyOp(v, op))
  {
    hide Good, Current, Victim, NameEq, UniqueKeys;
    assert UniqueKeys(v) && |v| <= CAPACITY by { GoodParts(ops, v); }
    var at := Find(v, op.name, op.qtype);
    var kept := Kept(op.ans);
    var name := if at.Some? then v[at.value].name else op.name;
    var e := Entry(name, op.qtype, kept, op.rcode, op.now + Lifetime(kept));
    assert NameEq(op.name, name) by { SameName(if at.Some? then v[at.value].name else op.name, op.name); }
    FreshIsCurrent(ops, op, e);
    if at.Some? {
      RestLacksKey(v, at.value, op.name, op.qtype);
      var rest := Without(v, at.value);
      LacksKeyForOp(rest, op);
      RestGood(ops, op, v, rest);
      FrontGood(ops, op, e, rest);
    } else {
      var rest := if |v| >= CAPACITY then Without(v, Victim(v, op.now)) else v;
      forall i | 0 <= i < |rest| ensures !HasKey(rest[i], op.name, op.qtype) {
        if |v| >= CAPACITY { WithoutAt(v, Victim(v, op.now), i); }
      }
      LacksKeyForOp(rest, op);
      RestGood(ops, op, v, rest);
      FrontGood(ops, op, e, rest);
    }
  }

  lemma SameName(a: seq<byte>, b: seq<byte>)
    ensures NameEq(a, b) <==> NameEq(b, a)
    ensures NameEq(a, a)
  {
  }

  lemma LacksKeyForOp(rest: View, op: Op)
    requires forall i :: 0 <= i < |rest| ==> !HasKey(rest[i], op.name, op.qtype)
    ensures forall i :: 0 <= i < |rest| ==> !OnKey(op, rest[i].name, rest[i].qtype)
  {
    forall i | 0 <= i < |rest| ensures !OnKey(op, rest[i].name, rest[i].qtype) {
      SameName(rest[i].name, op.name);
    }
  }

  lemma GoodParts(ops: seq<Op>, v: View)
    requires Good(ops, v)
    ensures UniqueKeys(v) && |v| <= CAPACITY && Faithful(ops, v)
  {
  }

  lemma FreshIsCurrent(ops: seq<Op>, op: Op, e: Entry)
    requires op.PutOp? && OnKey(op, e.name, e.qtype)
    requires e.answers == Kept(op.ans) && e.rcode == op.rcode && e.expires == op.now + Lifetime(Kept(op.ans))
    ensures Current(ops + [op], e)
  {
    hide LastPut, LastUse;
    SameKeyUse(ops, op, e.name, e.qtype);
  }

  lemma GetKeepsGood(ops: seq<Op>, op: Op, v: View)
    requires op.GetOp? && Good(ops, v)
    ensures Good(ops + [op], ApplyOp(v, op))
  {
    hide Good, Current, NameEq, UniqueKeys;
    GoodParts(ops, v);
    var at := Find(v, op.name, op.qtype);
    if at.None? {
      LacksKeyForOp(v, op);
      RestGood(ops, op, v, v);
    } else {
      var rest, e := Without(v, at.value), v[at.value];
      RestLacksKey(v, at.value, op.name, op.qtype);
      LacksKeyForOp(rest, op);
      RestGood(ops, op, v, rest);
      if e.expires > op.now {
        SameName(e.name, op.name);
        CurrentExtends(ops, op, e);
        FrontGood(ops, op, e, rest);
      }
    }
  }

  /** Over every history: each entry holds what the last put of its key stored, entries
      stand in order of last use, keys are unique, and there are at most 4096. */
  lemma {:induction false} HistoryIsGood(ops: seq<Op>)
    ensures Good(ops, Run(ops))
  {
    hide ApplyOp, Good;
    if ops == [] {
      EmptyIsGood();
    } else {
      var front, op := ops[..|ops| - 1], ops[|ops| - 1];
      HistoryIsGood(front);
      assert front + [op] == ops;
      if op.PutOp? { PutKeepsGood(front, op, Run(front)); } else { GetKeepsGood(front, op, Run(front)); }
    }
  }

  lemma EmptyIsGood()
    ensures Good([], [])
  {
  }

  /** How long a stored set lives: the shortest of its TTLs, but at least 5 seconds and at
      most a day; a set without answers lives a minute. */
  predicate Lives(ans: seq<Answer>, life: nat) {
    if ans == [] then life == 60
    else
      && 5 <= life <= 86400
      && (forall i :: 0 <= i < |ans| ==> life <= AtLeast5(ans[i].ttl))
      && (life == 86400 || exists i :: 0 <= i < |ans| && life == AtLeast5(ans[i].ttl))
  }

  function AtLeast5(ttl: nat): nat { if ttl < 5 then 5 else ttl }

  lemma {:induction false} ShortestIsOne(ans: seq<Answer>)
    ensures ShortestTtl(ans) == 86400 || exists i :: 0 <= i < |ans| && ShortestTtl(ans) == ans[i].ttl
  {
    if ans != [] {
      var front := ans[..|ans| - 1];
      ShortestIsOne(front);
      assert forall i :: 0 <= i < |front| ==> front[i] == ans[i];
    }
  }

  lemma LifetimeExactly(ans: seq<Answer>, life: nat)
    ensures Lives(ans, life) <==> life == Lifetime(ans)
  {
    hide ShortestTtl;
    ShortestIsLeast(ans);
    ShortestIsOne(ans);
    if ans != [] {
      var m := ShortestTtl(ans);
      if i :| 0 <= i < |ans| && m == ans[i].ttl {
        assert Lifetime(ans) == AtLeast5(ans[i].ttl);
      }
    }
  }

  lemma KeptIsFirstEight(ans: seq<Answer>)
    ensures Kept(ans) == Cut(ans, 8)
  {
  }

  /** p is the last put of this key. */
  predicate LastPutAt(ops: seq<Op>, name: seq<byte>, qtype: u16, p: nat) {
    && p < |ops| && ops[p].PutOp? && OnKey(ops[p], name, qtype)
    && forall t :: p < t < |ops| ==> !(ops[t].PutOp? && OnKey(ops[t], name, qtype))
  }

  /** A hit, after every history: the first eight answers and the rcode of the last put of
      that key, cut to the caller's capacity, with the TTL that is left, which is positive. */
  lemma HitIsLastStored(ops: seq<Op>, name: seq<byte>, qtype: u16, cap: nat, now: int) returns (p: nat, life: nat)
    requires Got(Run(ops), name, qtype, cap, now).Some?
    ensures LastPutAt(ops, name, qtype, p) && Lives(Cut(ops[p].ans, 8), life) && ops[p].now + life > now
    ensures Got(Run(ops), name, qtype, cap, now).value ==
            Hit(WithTtl(Cut(Cut(ops[p].ans, 8), cap), (ops[p].now + life - now) % 0x1_0000_0000), ops[p].rcode)
  {
    hide Run, Lifetime, Kept, Good, LastPut, NameEq, WithTtl, Find, Lives;
    var v := Run(ops);
    HistoryIsGood(ops);
    GoodParts(ops, v);
    var at := Find(v, name, qtype).value;
    assert Current(ops, v[at]);
    LastPutIgnoresCase(ops, v[at].name, name, qtype);
    p := LastPut(ops, name, qtype);
    life := Lifetime(Kept(ops[p].ans));
    KeptIsFirstEight(ops[p].ans);
    LifetimeExactly(Kept(ops[p].ans), life);
  }

  lemma {:induction false} LastPutIgnoresCase(ops: seq<Op>, a: seq<byte>, b: seq<byte>, qtype: u16)
    requires NameEq(a, b)
    ensures LastPut(ops, a, qtype) == LastPut(ops, b, qtype)
  {
    if ops != [] {
      LastPutIgnoresCase(ops[..|ops| - 1], a, b, qtype);
    }
  }

  /** While the clock has not gone back since the put, the served TTL is at most the
      entry's lifetime: 60 seconds for a negative entry, otherwise the larger of 5 and
      the shortest stored TTL. */
  lemma ServedTtlIsBounded(ans: seq<Answer>, life: nat, put: int, now: int)
    requires Lives(Cut(ans, 8), life) && put <= now < put + life
    ensures var left := put + life - now;
            && left % 0x1_0000_0000 == left
            && (ans == [] ==> left <= 60)
            && forall i :: 0 <= i < |ans| && i < 8 ==> left <= if ans[i].ttl < 5 then 5 else ans[i].ttl
  {
    var kept := Cut(ans, 8);
    forall i | 0 <= i < |ans| && i < 8 ensures life <= AtLeast5(ans[i].ttl) {
      assert kept[i] == ans[i];
    }
  }

  /** None of the k entries nearest the tail has expired. */
  predicate NoneExpired(v: View, now: int, k: nat) {
    forall j :: 0 <= j < |v| && |v| - k <= j ==> v[j].expires > now
  }

  lemma {:induction false} VictimFromWorst(v: View, now: int, k: nat)
    requires v != [] && k <= SCAN && NoneExpired(v, now, k)
    ensures var r := VictimFrom(v, now, k);
            if v[r].expires <= now && |v| - r <= SCAN then NoneExpired(v, now, |v| - 1 - r)
            else r == |v| - 1 && NoneExpired(v, now, SCAN)
    decreases SCAN - k
  {
    if k < SCAN && k < |v| && v[|v| - 1 - k].expires > now {
      VictimFromWorst(v, now, k + 1);
    }
  }

  /** A put keeps every entry of another key, except at most one, and only when the cache
      is full: the expired entry nearest the tail among the last eight, or, if none of
      those has expired, the least recently used entry. */
  lemma PutDropsAtMostOne(v: View, name: seq<byte>, qtype: u16, ans: seq<Answer>, rcode: int, now: int, j: nat)
    requires UniqueKeys(v) && |v| <= 4096 && j < |v| && !HasKey(v[j], name, qtype)
    ensures v[j] in Put(v, name, qtype, ans, rcode, now)[1..] ||
            (&& |v| == 4096 && Find(v, name, qtype).None?
             && if v[j].expires <= now then |v| - j <= 8 && NoneExpired(v, now, |v| - 1 - j)
                else j == |v| - 1 && NoneExpired(v, now, 8))
  {
    hide NameEq, Lifetime, VictimFrom;
    var p := Put(v, name, qtype, ans, rcode, now);
    var at := Find(v, name, qtype);
    if at.Some? {
      assert p[1..] == Without(v, at.value);
      StaysUnless(v, at.value, j);
    } else if |v| == CAPACITY {
      assert p[1..] == Without(v, Victim(v, now));
      VictimFromWorst(v, now, 0);
      if j != Victim(v, now) { StaysUnless(v, Victim(v, now), j); }
    } else {
      assert p[1..] == v;
    }
  }

  lemma StaysUnless<T>(s: seq<T>, k: nat, j: nat)
    requires k < |s| && j < |s| && j != k
    ensures s[j] in Without(s, k)
  {
    var i := if j < k then j else j - 1;
    assert Without(s, k)[i] == s[j];
  }

  // ---------------------------------------------------------------- how long a put lasts

  /** The key's entry stands at position k and holds what operation p stored. */
  predicate StandsAt(ops: seq<Op>, p: nat, v: View, name: seq<byte>, qtype: u16, life: nat, k: nat)
    requires p < |ops| && ops[p].PutOp?
  {
    && k < |v| && HasKey(v[k], name, qtype)
    && v[k].answers == Cut(ops[p].ans, 8) && v[k].rcode == ops[p].rcode && v[k].expires == ops[p].now + life
  }

  lemma {:induction false} VictimNearTail(v: View, now: int, k: nat)
    requires v != [] && k <= 8
    ensures VictimFrom(v, now, k) >= |v| - 8
    decreases 8 - k
  {
    if k < SCAN && k < |v| && v[|v| - 1 - k].expires > now { VictimNearTail(v, now, k + 1); }
  }

  /** Behind a new front entry the others move back by at most one. */
  lemma MovesBack(v: View, at: nat, e: Entry, k: nat) returns (k': nat)
    requires at < |v| && k < |v| && k != at
    ensures k' <= k + 1 && k' < |[e] + Without(v, at)| && ([e] + Without(v, at))[k'] == v[k]
    ensures k' > 0 && k' - 1 < |Without(v, at)| && Without(v, at)[k' - 1] == v[k]
  {
    k' := if k < at then k + 1 else k;
  }

  /** One operation moves an entry back by at most one, and takes it out only if it is a get
      after its end, or it is among the last eight of 4096. */
  lemma {:induction false} StepBack(v: View, op: Op, name: seq<byte>, qtype: u16, k: nat) returns (k': nat)
    requires UniqueKeys(v) && |v| <= 4096 && k < |v| && k < 4088 && HasKey(v[k], name, qtype)
    requires op.PutOp? ==> !OnKey(op, name, qtype)
    requires op.GetOp? && OnKey(op, name, qtype) ==> op.now < v[k].expires
    ensures k' <= k + 1 && k' < |ApplyOp(v, op)| && ApplyOp(v, op)[k'] == v[k]
  {
    hide NameEq, UniqueKeys, Victim, Lifetime;
    var at := Find(v, op.name, op.qtype);
    if OnKey(op, name, qtype) {
      assert at == Some(k) by { KeyFound(v, op, name, qtype, k); }
      k' := 0;
    } else {
      assert at != Some(k) by { OtherKey(v, op, name, qtype, k); }
      if at.Some? {
        k' := MovesBack(v, at.value, ApplyOp(v, op)[0], k);
        if op.GetOp? && v[at.value].expires <= op.now { k' := k' - 1; }
      } else if op.GetOp? {
        k' := k;
      } else if |v| >= CAPACITY {
        VictimIsLate(v, op.now);
        k' := MovesBack(v, Victim(v, op.now), ApplyOp(v, op)[0], k);
      } else {
        k' := k + 1;
      }
    }
  }

  lemma VictimIsLate(v: View, now: int)
    requires |v| == 4096
    ensures Victim(v, now) >= 4088
  {
    hide VictimFrom;
    VictimNearTail(v, now, 0);
  }

  lemma KeyFound(v: View, op: Op, name: seq<byte>, qtype: u16, k: nat)
    requires UniqueKeys(v) && k < |v| && HasKey(v[k], name, qtype) && OnKey(op, name, qtype)
    ensures Find(v, op.name, op.qtype) == Some(k)
  {
    assert HasKey(v[k], op.name, op.qtype);
  }

  lemma OtherKey(v: View, op: Op, name: seq<byte>, qtype: u16, k: nat)
    requires k < |v| && HasKey(v[k], name, qtype) && !OnKey(op, name, qtype)
    ensures Find(v, op.name, op.qtype) != Some(k)
  {
  }

  /** From a put on, the entry moves back by at most one with every operation. */
  lemma {:induction false} StandsNear(ops: seq<Op>, p: nat, name: seq<byte>, qtype: u16, life: nat) returns (k: nat)
    requires LastPutAt(ops, name, qtype, p) && Lives(Cut(ops[p].ans, 8), life) && |ops| - p <= 4089
    requires forall t :: p < t < |ops| && OnKey(ops[t], name, qtype) ==> ops[t].now < ops[p].now + life
    ensures k <= |ops| - 1 - p && StandsAt(ops, p, Run(ops), name, qtype, life, k)
    decreases |ops|
  {
    hide ApplyOp, NameEq, Lives, Good;
    var front, op := ops[..|ops| - 1], ops[|ops| - 1];
    if p == |ops| - 1 {
      k := 0;
      FreshStands(Run(front), op, name, qtype, life);
    } else {
      assert forall t :: 0 <= t < |front| ==> front[t] == ops[t];
      var j := StandsNear(front, p, name, qtype, life);
      HistoryIsGood(front);
      GoodParts(front, Run(front));
      k := StepBack(Run(front), op, name, qtype, j);
    }
  }

  lemma FreshStands(v: View, op: Op, name: seq<byte>, qtype: u16, life: nat)
    requires op.PutOp? && OnKey(op, name, qtype) && Lives(Cut(op.ans, 8), life)
    ensures StandsAt([op], 0, ApplyOp(v, op), name, qtype, life, 0)
  {
    hide Lives, Behind, Lifetime;
    KeptIsFirstEight(op.ans);
    LifetimeExactly(Kept(op.ans), life);
  }

  /** What was put is served: through the next 4088 operations, whatever they are, as long as
      the key is not put again and not asked for after its end, a lookup hits at every time
      before that end, with the first eight answers that were put, and misses from then on. */
  lemma PutIsServed(ops: seq<Op>, p: nat, name: seq<byte>, qtype: u16, life: nat, cap: nat, now: int)
    requires LastPutAt(ops, name, qtype, p) && Lives(Cut(ops[p].ans, 8), life) && |ops| - p <= 4089
    requires forall t :: p < t < |ops| && OnKey(ops[t], name, qtype) ==> ops[t].now < ops[p].now + life
    ensures var left := ops[p].now + life - now;
            Got(Run(ops), name, qtype, cap, now) ==
            if left <= 0 then None
            else Some(Hit(WithTtl(Cut(Cut(ops[p].ans, 8), cap), left % 0x1_0000_0000), ops[p].rcode))
  {
    hide Run, NameEq, Lives, Good, UniqueKeys, StandsAt, Got, WithTtl, Cut;
    var k := StandsNear(ops, p, name, qtype, life);
    HistoryIsGood(ops);
    GoodParts(ops, Run(ops));
    StandingIsServed(ops, p, Run(ops), name, qtype, life, k, cap, now);
  }

  lemma StandingIsServed(ops: seq<Op>, p: nat, v: View, name: seq<byte>, qtype: u16, life: nat, k: nat, cap: nat,
                         now: int)
    requires p < |ops| && ops[p].PutOp? && StandsAt(ops, p, v, name, qtype, life, k) && UniqueKeys(v)
    ensures var left := ops[p].now + life - now;
            Got(v, name, qtype, cap, now) ==
            if left <= 0 then None
            else Some(Hit(WithTtl(Cut(Cut(ops[p].ans, 8), cap), left % 0x1_0000_0000), ops[p].rcode))
  {
    hide NameEq, UniqueKeys, WithTtl, Find;
    SameName(name, name);
    KeyFound(v, GetOp(name, qtype, now), name, qtype, k);
    var ans := v[k].answers;
    assert (if |ans| < cap then ans else ans[..cap]) == Cut(ans, cap);
  }
}
