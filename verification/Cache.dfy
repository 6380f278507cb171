/** dns_cache.c: the operations over the shared nodes, the two linked structures and the
    filter, against the recency-ordered list they must agree with. */
module Cache {
  import opened Names
  import opened Wire
  import opened Bloom
  import opened CacheSpec
  import opened CacheNodes

  /** clamp_ttl. */
  function ClampTtl(ttl: nat): nat {
    if ttl < MIN_TTL then MIN_TTL else if ttl > MAX_TTL then MAX_TTL else ttl
  }

  /** The lifetime of an answer set, as dns_cache_put computes it. */
  method LifetimeOf(ans: seq<Answer>) returns (ttl: nat)
    ensures ttl == Lifetime(ans)
  {
    if |ans| == 0 { return NEG_TTL; }
    ttl := MAX_TTL;
    var i := 0;
    while i < |ans|
      invariant i <= |ans| && ttl == ShortestTtl(ans[..i])
    {
      assert ans[..i + 1][..i] == ans[..i];
      if ans[i].ttl < ttl { ttl := ans[i].ttl; }
      i := i + 1;
    }
    assert ans[..i] == ans;
    ShortestIsLeast(ans);
    ttl := ClampTtl(ttl);
  }

  /** The copy loop of dns_cache_get: the first k answers with the remaining TTL. */
  method CopyOut(ans: seq<Answer>, k: nat, ttl: nat) returns (out: seq<Answer>)
    requires k <= |ans|
    ensures out == WithTtl(ans[..k], ttl)
  {
    out := [];
    for i := 0 to k
      invariant |out| == i && forall j :: 0 <= j < i ==> out[j] == ans[j].(ttl := ttl)
    {
      out := out + [ans[i].(ttl := ttl)];
    }
  }

  lemma FoundAt(v: View, k: nat, name: seq<byte>, qtype: u16)
    requires UniqueKeys(v) && k < |v| && HasKey(v[k], name, qtype)
    ensures Find(v, name, qtype) == Some(k)
  {
    hide NameEq;
    KeysAgree(v[Find(v, name, qtype).value], v[k], name, qtype);
  }

  /** Two entries with the key asked for have each other's key. */
  lemma KeysAgree(a: Entry, b: Entry, name: seq<byte>, qtype: u16)
    requires HasKey(a, name, qtype) && HasKey(b, name, qtype)
    ensures HasKey(a, b.name, b.qtype) && HasKey(b, a.name, a.qtype)
  {
  }

  lemma EntriesWithout(s: seq<Node>, k: nat)
    requires k < |s|
    ensures Entries(Without(s, k)) == Without(Entries(s), k)
  {
    hide Entries, Node.ToEntry;
    EntriesAre(s);
    EntriesAre(Without(s, k));
    assert |Entries(Without(s, k))| == |s| - 1;
    forall i | 0 <= i < |s| - 1 ensures Entries(Without(s, k))[i] == Without(Entries(s), k)[i] {
      WithoutAt(s, k, i);
      WithoutAt(Entries(s), k, i);
    }
  }

  lemma HashesWithout(s: seq<Node>, k: nat)
    requires k < |s|
    ensures Hashes(Without(s, k)) == Without(Hashes(s), k)
  {
    hide Hashes, Node.Hash;
    HashesAre(s);
    HashesAre(Without(s, k));
    assert |Hashes(Without(s, k))| == |s| - 1;
    forall i | 0 <= i < |s| - 1 ensures Hashes(Without(s, k))[i] == Without(Hashes(s), k)[i] {
      WithoutAt(s, k, i);
      WithoutAt(Hashes(s), k, i);
    }
  }

  lemma EntriesFront(n: Node, s: seq<Node>)
    ensures Entries([n] + s) == [n.ToEntry()] + Entries(s)
    ensures Hashes([n] + s) == [n.Hash()] + Hashes(s)
  {
    hide Entries, Hashes, Node.ToEntry, Node.Hash;
    EntriesAre(s);
    EntriesAre([n] + s);
    HashesAre(s);
    HashesAre([n] + s);
  }

  lemma UniqueWithout(v: View, k: nat)
    requires UniqueKeys(v) && k < |v|
    ensures UniqueKeys(Without(v, k))
  {
    hide NameEq;
    forall i | 0 <= i < |v| - 1 ensures Without(v, k)[i] == v[Origin(k, i)] { WithoutAt(v, k, i); }
  }

  lemma UniqueFront(e: Entry, v: View)
    requires UniqueKeys(v) && forall i :: 0 <= i < |v| ==> !HasKey(v[i], e.name, e.qtype)
    ensures UniqueKeys([e] + v)
  {
    forall i | 0 <= i < |v| ensures !HasKey(e, v[i].name, v[i].qtype) {
      SameName(v[i].name, e.name);
    }
  }

  /** The node leaves its chain, then the list. */
  method Detach(list: RecencyList, chains: HashChains, b: nat, n: Node, ghost k: nat)
    requires list.Valid() && chains.Valid() && n in chains.nodes && b == n.Home()
    requires k < |list.items| && list.items[k] == n
    modifies list, list.items`prev, list.items`next, chains, chains.heads, chains.nodes`hnext
    ensures list.Valid() && list.items == Without(old(list.items), k)
    ensures chains.Valid() && chains.nodes == old(chains.nodes) - {n}
  {
    hide HashChains.Valid, RecencyList.Valid, Node.Home;
    chains.Remove(b, n);
    list.Unlink(n, k);
  }

  class DnsCache {
    /** false models the build with DNS_BLOOM_DISABLED. */
    const filtered: bool
    const list: RecencyList
    const chains: HashChains
    const filter: Filter
    var count: nat

    /** Everything but the entries: list, chains, count and filter describe one set of
        nodes without duplicates. */
    ghost predicate Linkage()
      reads this, list, list.items`prev, list.items`next, chains, chains.heads, chains.nodes`hnext, filter.slots
    {
      && list.Valid() && chains.Valid() && filter.Valid()
      && (forall n :: n in list.items ==> n in chains.nodes)
      && (forall n :: n in chains.nodes ==> n in list.items)
      && count == |list.items|
      && (filtered ==> Tracks(filter.slots[..], Hashes(list.items)))
    }

    /** The nodes in use. */
    ghost function Listed(): set<Node>
      reads this, list
    {
      set n | n in list.items
    }

    lemma ChainedIsListed()
      requires Valid()
      ensures chains.nodes == Listed()
    {
      hide Tracks, Hashes, HashChains.Valid, RecencyList.Valid, UniqueKeys, Entries;
    }

    lemma NothingListed()
      requires Contents() == []
      ensures Listed() == {}
    {
      assert |list.items| == |Entries(list.items)|;
    }

    ghost function Contents(): View
      reads this, list, list.items`answers, list.items`rcode, list.items`expires
    {
      Entries(list.items)
    }

    ghost predicate Valid()
      reads this, list, list.items, chains, chains.heads, chains.nodes`hnext, filter.slots
    {
      Linkage() && UniqueKeys(Contents()) && count <= CAPACITY
    }

    /** dns_cache_init. */
    constructor (filtered: bool)
      ensures Valid() && Contents() == [] && this.filtered == filtered
      ensures fresh(list) && fresh(chains) && fresh(chains.heads) && fresh(filter) && fresh(filter.slots)
    {
      this.filtered := filtered;
      list := new RecencyList();
      chains := new HashChains();
      filter := new Filter();
      count := 0;
    }

    /** node_destroy, except for free(): the node leaves filter, chain and list. */
    method Destroy(n: Node, ghost k: nat)
      requires Linkage() && k < |list.items| && list.items[k] == n
      modifies this`count, list, list.items`prev, list.items`next, chains, chains.heads, chains.nodes`hnext,
               filter.slots
      ensures Linkage() && list.items == Without(old(list.items), k)
      ensures n !in list.items && chains.nodes <= old(chains.nodes)
    {
      hide Tracks, Hashes, Entries, KeyHash, Node.Hash, Node.Home, BucketOf, HashChains.Valid, RecencyList.Valid,
           NoDuplicates;
      ghost var before := list.items;
      list.Distinct();
      WithoutMembers(before, k);
      HashesWithout(before, k);
      HashAt(before, k);
      HashIsKeyHash(n);
      var h := HashKey(n.name, n.qtype);
      ghost var slots := filter.slots[..];
      if filtered {
        filter.Del(h);
        DelTracks(slots, filter.slots[..], Hashes(before), k);
      }
      Detach(list, chains, BucketOf(h), n, k);
      count := count - 1;
    }

    /** The scan of evict_one: from the tail, at most eight nodes; nothing in an empty cache. */
    method PickVictim(now: int) returns (victim: Node?, ghost k: nat)
      requires list.Valid()
      ensures victim == null <==> list.items == []
      ensures victim != null ==> && |Contents()| == |list.items| && k == Victim(Contents(), now)
                                 && victim == list.items[Victim(Contents(), now)]
    {
      ghost var s, v := list.items, Contents();
      EntriesAre(s);
      victim, k := list.tail, if s == [] then 0 else |s| - 1;
      var n, scanned := list.tail, 0;
      while n != null && scanned < SCAN
        invariant 0 <= scanned <= SCAN && scanned <= |s|
        invariant n == (if scanned < |s| then s[|s| - 1 - scanned] else null)
        invariant victim == (if s == [] then null else s[|s| - 1]) && (s != [] ==> k == |s| - 1)
        invariant s != [] ==> Victim(v, now) == VictimFrom(v, now, scanned)
        decreases SCAN - scanned
      {
        if n.expires <= now {
          victim, k := n, |s| - 1 - scanned;
          return;
        }
        n := n.prev;
        scanned := scanned + 1;
      }
    }

    /** lru_unlink then lru_push_front: the node becomes the most recent one. */
    method MoveToFront(n: Node, ghost k: nat)
      requires Linkage() && k < |list.items| && list.items[k] == n
      modifies list, list.items`prev, list.items`next
      ensures Linkage() && list.items == [n] + Without(old(list.items), k)
    {
      hide Tracks, Hashes, KeyHash, Node.Hash, HashChains.Valid, RecencyList.Valid, NoDuplicates;
      ghost var before := list.items;
      list.Distinct();
      WithoutMembers(before, k);
      MovedHashes(before, k);
      if filtered { TracksMoved(filter.slots[..], Hashes(before), k); }
      list.Unlink(n, k);
      list.FrontListed();
      list.PushFront(n);
    }

    /** bucket_find on a key's own bucket finds the entry of that key, if there is one. */
    method Lookup(h: u64, name: seq<byte>, qtype: u16) returns (n: Node?, ghost k: nat)
      requires Valid() && h == KeyHash(name, qtype)
      ensures n == null ==> Find(Contents(), name, qtype).None?
      ensures n != null ==> k < |list.items| && list.items[k] == n && Find(Contents(), name, qtype) == Some(k)
    {
      hide Tracks, Hashes, KeyHash, Node.Hash, Node.Home, BucketOf, HashChains.Valid, RecencyList.Valid, NameEq,
           UniqueKeys;
      ghost var s, v := list.items, Contents();
      EntriesAre(s);
      k := 0;
      n := chains.Find(BucketOf(h), name, qtype);
      if n != null {
        chains.Members();
        assert n in chains.nodes && n in s;
        k :| 0 <= k < |s| && s[k] == n;
        FoundAt(v, k, name, qtype);
      } else {
        chains.Members();
        forall i | 0 <= i < |v| ensures !HasKey(v[i], name, qtype) {
          if HasKey(v[i], name, qtype) { SameHome(s[i], name, qtype); }
        }
        NotFound(v, name, qtype);
      }
    }

    /** The filter's shortcut: a key it rejects has no entry. */
    method PassesFilter(h: u64, name: seq<byte>, qtype: u16) returns (maybe: bool)
      requires Valid() && h == KeyHash(name, qtype)
      ensures !maybe ==> Find(Contents(), name, qtype).None?
    {
      hide Tracks, Hashes, KeyHash, HashChains.Valid, RecencyList.Valid, UniqueKeys, Entries, Maybe, Find;
      if !filtered { return true; }
      maybe := filter.MaybePresent(h);
      if !maybe { RejectedIsAbsent(filter.slots[..], list.items, name, qtype); }
    }

    /** node_destroy, seen from outside. */
    method DropEntry(n: Node, ghost k: nat)
      requires Valid() && k < |list.items| && list.items[k] == n
      modifies this`count, list, list.items`prev, list.items`next, chains, chains.heads, chains.nodes`hnext,
               filter.slots
      ensures Valid() && Contents() == Without(old(Contents()), k)
      ensures (forall m :: m in list.items ==> m in old(list.items)) && chains.nodes <= old(chains.nodes)
    {
      hide Tracks, Hashes, HashChains.Valid, RecencyList.Valid, UniqueKeys, Entries;
      EntriesWithout(list.items, k);
      UniqueWithout(Contents(), k);
      ghost var before := list.items;
      Destroy(n, k);
      assert forall m :: m in list.items ==> m in before;
    }

    /** A use, seen from outside. */
    method TouchEntry(n: Node, ghost k: nat)
      requires Valid() && k < |list.items| && list.items[k] == n
      modifies list, list.items`prev, list.items`next
      ensures Valid() && Contents() == [old(Contents())[k]] + Without(old(Contents()), k)
      ensures forall m :: m in list.items ==> m in old(list.items)
    {
      hide Linkage, UniqueKeys, Entries, Node.ToEntry, Hashes;
      EntriesAre(list.items);
      EntriesWithout(list.items, k);
      EntriesFront(n, Without(list.items, k));
      MovedUnique(Contents(), k);
      MoveToFront(n, k);
    }

    lemma EntryAt(n: Node, k: nat)
      requires k < |list.items| && list.items[k] == n
      ensures k < |Contents()| && Contents()[k] == n.ToEntry()
    {
      EntriesAre(list.items);
    }

    /** The answers and rcode a hit hands out. */
    method Serve(n: Node, cap: nat, now: int) returns (hit: Hit)
      ensures hit == Served(n.ToEntry(), cap, now)
    {
      var k := if |n.answers| < cap then |n.answers| else cap;
      var out := CopyOut(n.answers, k, (n.expires - now) % 0x1_0000_0000);
      assert n.answers[..|n.answers|] == n.answers;
      hit := Hit(out, n.rcode);
    }

    /** dns_cache_get.  With or without the filter it returns and leaves exactly what the
        specification says, which does not mention the filter. */
    method Get(name: seq<byte>, qtype: u16, cap: nat, now: int) returns (r: Option<Hit>)
      requires Valid()
      modifies this`count, list, chains, chains.heads, chains.nodes`hnext, filter.slots
      modifies Listed()`prev, Listed()`next
      ensures Valid() && Listed() <= old(Listed()) && chains.nodes <= old(chains.nodes)
      ensures r == Got(old(Contents()), name, qtype, cap, now)
      ensures Contents() == AfterGet(old(Contents()), name, qtype, now)
    {
      hide KeyHash, Valid, Find, Served, Entries, Contents;
      var h := HashKey(name, qtype);
      var maybe := PassesFilter(h, name, qtype);
      if !maybe { return None; }
      var n, k := Lookup(h, name, qtype);
      if n == null { return None; }
      EntryAt(n, k);
      if n.expires <= now {
        DropEntry(n, k);
        return None;
      }
      var hit := Serve(n, cap, now);
      TouchEntry(n, k);
      return Some(hit);
    }

    /** A node that is in its chain, counted and known to the filter, but not listed. */
    ghost predicate Unlisted(n: Node)
      reads this, list, list.items`prev, list.items`next, chains, chains.heads, chains.nodes`hnext, filter.slots
    {
      && list.Valid() && chains.Valid() && filter.Valid()
      && n !in list.items && n in chains.nodes
      && (forall m :: m in list.items ==> m in chains.nodes)
      && (forall m :: m in chains.nodes ==> m == n || m in list.items)
      && count == |list.items| + 1
      && (filtered ==> Tracks(filter.slots[..], [n.Hash()] + Hashes(list.items)))
    }

    /** The new-key branch of dns_cache_put: a node for the key, in its chain, counted. */
    method Admit(name: seq<byte>, qtype: u16, h: u64) returns (n: Node)
      requires Linkage() && h == KeyHash(name, qtype)
      modifies this`count, chains, chains.heads, filter.slots
      ensures Unlisted(n) && fresh(n) && n.name == name && n.qtype == qtype && count == old(count) + 1
    {
      hide Tracks, Hashes, KeyHash, Node.Hash, Node.Home, BucketOf, HashChains.Valid, RecencyList.Valid, AddedTo;
      n := new Node(name, qtype);
      HashIsKeyHash(n);
      chains.Insert(BucketOf(h), n);
      count := count + 1;
      ghost var slots := filter.slots[..];
      if filtered {
        filter.Add(h);
        AddTracks(slots, filter.slots[..], Hashes(list.items), h);
      }
    }

    /** The known-key branch: the node leaves the list only. */
    method Withdraw(n: Node, ghost k: nat)
      requires Linkage() && k < |list.items| && list.items[k] == n
      modifies list, list.items`prev, list.items`next
      ensures Unlisted(n) && list.items == Without(old(list.items), k)
    {
      hide Tracks, Hashes, KeyHash, Node.Hash, HashChains.Valid, RecencyList.Valid, NoDuplicates;
      ghost var before := list.items;
      list.Distinct();
      WithoutMembers(before, k);
      MovedHashes(before, k);
      EntriesFront(n, Without(before, k));
      if filtered { TracksMoved(filter.slots[..], Hashes(before), k); }
      list.Unlink(n, k);
    }

    /** The node becomes the most recent one. */
    method List(n: Node)
      requires Unlisted(n)
      modifies list, n`prev, n`next, list.Front()`prev
      ensures Linkage() && list.items == [n] + old(list.items)
    {
      hide Tracks, Hashes, KeyHash, Node.Hash, HashChains.Valid, RecencyList.Valid;
      EntriesFront(n, list.items);
      list.PushFront(n);
    }

    /** evict_one. */
    method Evict(now: int)
      requires Valid()
      modifies this`count, list, list.items`prev, list.items`next, chains, chains.heads, chains.nodes`hnext,
               filter.slots
      ensures Valid() && count == |Contents()|
      ensures Contents() == if old(Contents()) == [] then [] else Without(old(Contents()), Victim(old(Contents()), now))
      ensures (forall m :: m in list.items ==> m in old(list.items)) && chains.nodes <= old(chains.nodes)
    {
      hide Tracks, Hashes, HashChains.Valid, RecencyList.Valid, UniqueKeys, Entries, Victim;
      var victim, k := PickVictim(now);
      if victim != null { DropEntry(victim, k); }
    }

    /** Makes room for one more entry; the loop of dns_cache_put turns at most once. */
    method MakeRoom(now: int) returns (ghost turns: nat)
      requires Valid()
      modifies this`count, list, list.items`prev, list.items`next, chains, chains.heads, chains.nodes`hnext,
               filter.slots
      ensures Valid() && count < CAPACITY && turns == if |old(Contents())| >= CAPACITY then 1 else 0
      ensures Contents() ==
              if |old(Contents())| < CAPACITY then old(Contents())
              else Without(old(Contents()), Victim(old(Contents()), now))
      ensures forall m :: m in list.items ==> m in old(list.items)
    {
      hide Tracks, Hashes, HashChains.Valid, RecencyList.Valid, UniqueKeys, Entries, Victim;
      ghost var v := Contents();
      turns := 0;
      while count >= CAPACITY
        invariant Valid() && count == |Contents()| && (turns == 0 || (turns == 1 && count < CAPACITY))
        invariant turns == 1 ==> |v| >= CAPACITY
        invariant Contents() == if turns == 0 then v else Without(v, Victim(v, now))
        invariant (forall m :: m in list.items ==> m in old(list.items)) && chains.nodes <= old(chains.nodes)
        decreases count
      {
        Evict(now);
        turns := turns + 1;
      }
    }

    /** The entries that will stand behind the one being put. */
    ghost predicate ReadyFor(n: Node, name: seq<byte>, qtype: u16)
      reads this, list, list.items, chains, chains.heads, chains.nodes`hnext, filter.slots
    {
      && Unlisted(n) && n.qtype == qtype && NameEq(n.name, name)
      && count <= CAPACITY && UniqueKeys(Contents())
      && forall i :: 0 <= i < |Contents()| ==> !HasKey(Contents()[i], name, qtype)
    }

    method NewNode(name: seq<byte>, qtype: u16, h: u64, now: int) returns (n: Node)
      requires Valid() && h == KeyHash(name, qtype) && Find(Contents(), name, qtype).None?
      modifies this`count, list, list.items`prev, list.items`next, chains, chains.heads, chains.nodes`hnext,
               filter.slots
      ensures ReadyFor(n, name, qtype) && n.name == Spelling(old(Contents()), name, qtype) && fresh(n)
      ensures Contents() == Behind(old(Contents()), name, qtype, now)
      ensures forall m :: m in list.items ==> m in old(list.items)
    {
      hide KeyHash, NameEq, UniqueKeys, Entries, Victim, Find, Unlisted, Linkage;
      ghost var v := Contents();
      var _ := MakeRoom(now);
      AbsentAfterRoom(v, Contents(), name, qtype, now);
      SameName(name, name);
      n := Admit(name, qtype, h);
    }

    method KnownNode(n: Node, ghost k: nat, name: seq<byte>, qtype: u16, ghost now: int)
      requires Valid() && k < |list.items| && list.items[k] == n && Find(Contents(), name, qtype) == Some(k)
      modifies list, list.items`prev, list.items`next
      ensures ReadyFor(n, name, qtype) && n.name == Spelling(old(Contents()), name, qtype)
      ensures Contents() == Behind(old(Contents()), name, qtype, now)
      ensures forall m :: m in list.items ==> m in old(list.items)
    {
      hide KeyHash, NameEq, UniqueKeys, Entries, Unlisted, Linkage, Find;
      ghost var s, v := list.items, Contents();
      assert HasKey(v[k], name, qtype);
      EntriesAre(s);
      EntriesWithout(s, k);
      UniqueWithout(v, k);
      RestLacksKey(v, k, name, qtype);
      Withdraw(n, k);
      assert forall m :: m in list.items ==> m in s;
    }

    /** Fills the node in and makes it the most recent entry. */
    method Store(n: Node, kept: seq<Answer>, rcode: int, expires: int, name: seq<byte>, qtype: u16)
      requires ReadyFor(n, name, qtype)
      modifies list, n`answers, n`rcode, n`expires, n`prev, n`next, list.Front()`prev
      ensures Valid() && Contents() == [Entry(n.name, qtype, kept, rcode, expires)] + old(Contents())
      ensures list.items == [n] + old(list.items)
    {
      hide NameEq, UniqueKeys, Entries, Unlisted, Linkage, Hashes;
      ghost var rest := Contents();
      NotListed(n);
      Fill(n, kept, rcode, expires);
      assert Contents() == rest;
      EntriesFront(n, list.items);
      ghost var e := n.ToEntry();
      FrontUnique(e, rest, name, qtype);
      List(n);
      assert Contents() == [e] + rest;
    }

    method Fill(n: Node, kept: seq<Answer>, rcode: int, expires: int)
      modifies n`answers, n`rcode, n`expires
      ensures n.ToEntry() == Entry(n.name, n.qtype, kept, rcode, expires)
    {
      n.answers, n.rcode, n.expires := kept, rcode, expires;
    }

    lemma FrontReady(n: Node, name: seq<byte>, qtype: u16)
      requires ReadyFor(n, name, qtype)
      ensures forall m :: m in list.Front() ==> m in list.items
    {
      list.FrontListed();
    }

    lemma NotListed(n: Node)
      requires Unlisted(n)
      ensures n !in list.items && count == |list.items| + 1
    {
    }

    /** dns_cache_put. */
    method Put(name: seq<byte>, qtype: u16, ans: seq<Answer>, rcode: int, now: int)
      requires Valid() && |name| <= 255
      modifies this`count, list, chains, chains.heads, chains.nodes`hnext, filter.slots
      modifies Listed()`prev, Listed()`next, Listed()`answers, Listed()`rcode, Listed()`expires
      ensures Valid() && forall m :: m in Listed() ==> m in old(Listed()) || fresh(m)
      ensures Contents() == CacheSpec.Put(old(Contents()), name, qtype, ans, rcode, now)
    {
      hide KeyHash, NameEq, Entries, Lifetime, Find, ReadyFor, Valid, Spelling, Behind, Contents;
      var kept := Kept(ans);
      var ttl := LifetimeOf(kept);
      var h := HashKey(name, qtype);
      var n, k := Lookup(h, name, qtype);
      if n == null {
        n := NewNode(name, qtype, h, now);
      } else {
        KnownNode(n, k, name, qtype, now);
      }
      FrontReady(n, name, qtype);
      Store(n, kept, rcode, now + ttl, name, qtype);
    }
  }

  // ---------------------------------------------------------------- whole traces

  /** What the lookups of a history return. */
  function Results(ops: seq<Op>, cap: nat): seq<Option<Hit>> {
    if ops == [] then []
    else
      var front, op := ops[..|ops| - 1], ops[|ops| - 1];
      Results(front, cap) + if op.GetOp? then [Got(Run(front), op.name, op.qtype, cap, op.now)] else []
  }

  lemma OneMore(ops: seq<Op>, i: nat, cap: nat)
    requires i < |ops|
    ensures Run(ops[..i + 1]) == ApplyOp(Run(ops[..i]), ops[i])
    ensures Results(ops[..i + 1], cap) ==
            Results(ops[..i], cap)
            + if ops[i].GetOp? then [Got(Run(ops[..i]), ops[i].name, ops[i].qtype, cap, ops[i].now)] else []
  {
    hide ApplyOp, Got;
    assert ops[..i + 1][..i] == ops[..i];
  }

  /** Every operation sequence on one cache, built with or without the filter. */
  method Replay(filtered: bool, ops: seq<Op>, cap: nat) returns (cache: DnsCache, results: seq<Option<Hit>>)
    requires forall i :: 0 <= i < |ops| && ops[i].PutOp? ==> |ops[i].name| <= 255
    ensures cache.Valid() && cache.filtered == filtered && cache.Contents() == Run(ops)
    ensures results == Results(ops, cap)
  {
    hide Run, Results, DnsCache.Valid, DnsCache.Contents, DnsCache.Listed, Got, AfterGet, CacheSpec.Put;
    cache := new DnsCache(filtered);
    cache.NothingListed();
    results := [];
    NoHistory(cap);
    assert ops[..0] == [];
    for i := 0 to |ops|
      invariant fresh(cache) && fresh(cache.list) && fresh(cache.chains) && fresh(cache.chains.heads)
                && fresh(cache.filter.slots)
      invariant cache.Valid() && cache.filtered == filtered && cache.Contents() == Run(ops[..i])
      invariant forall m :: m in cache.Listed() ==> fresh(m)
      invariant results == Results(ops[..i], cap)
    {
      OneMore(ops, i, cap);
      cache.ChainedIsListed();
      match ops[i] {
        case PutOp(name, qtype, ans, rcode, now) => cache.Put(name, qtype, ans, rcode, now);
        case GetOp(name, qtype, now) =>
          var hit := cache.Get(name, qtype, cap, now);
          results := results + [hit];
      }
    }
    assert ops[..|ops|] == ops;
  }

  lemma NoHistory(cap: nat)
    ensures Run([]) == [] && Results([], cap) == []
  {
  }

  /** The filter makes no difference: on every trace the two builds return the same results
      and end with the same entries in the same order. */
  method CompareBuilds(ops: seq<Op>, cap: nat)
    returns (a: DnsCache, x: seq<Option<Hit>>, b: DnsCache, y: seq<Option<Hit>>)
    requires forall i :: 0 <= i < |ops| && ops[i].PutOp? ==> |ops[i].name| <= 255
    ensures a.filtered && !b.filtered && x == y && a.Contents() == b.Contents()
  {
    hide DnsCache.Valid, DnsCache.Contents, Run, Results;
    a, x := Replay(true, ops, cap);
    b, y := Replay(false, ops, cap);
  }

  lemma FrontUnique(e: Entry, rest: View, name: seq<byte>, qtype: u16)
    requires UniqueKeys(rest) && HasKey(e, name, qtype)
    requires forall i :: 0 <= i < |rest| ==> !HasKey(rest[i], name, qtype)
    ensures UniqueKeys([e] + rest)
  {
    forall i | 0 <= i < |rest| ensures !HasKey(rest[i], e.name, e.qtype) {
      SameName(rest[i].name, e.name);
    }
    UniqueFront(e, rest);
  }

  lemma AbsentAfterRoom(v: View, rest: View, name: seq<byte>, qtype: u16, now: int)
    requires Find(v, name, qtype).None?
    requires rest == if |v| >= CAPACITY then Without(v, Victim(v, now)) else v
    ensures forall i :: 0 <= i < |rest| ==> !HasKey(rest[i], name, qtype)
    ensures HasKey(Entry(name, qtype, [], 0, 0), name, qtype)
  {
    hide NameEq, Victim;
    SameName(name, name);
    forall i | 0 <= i < |rest| ensures !HasKey(rest[i], name, qtype) {
      if |v| >= CAPACITY { WithoutAt(v, Victim(v, now), i); }
    }
  }

  lemma MovedUnique(v: View, k: nat)
    requires UniqueKeys(v) && k < |v|
    ensures UniqueKeys([v[k]] + Without(v, k))
  {
    hide NameEq;
    SameName(v[k].name, v[k].name);
    RestLacksKey(v, k, v[k].name, v[k].qtype);
    UniqueWithout(v, k);
    UniqueFront(v[k], Without(v, k));
  }

  /** A key the filter rejects has no entry. */
  lemma RejectedIsAbsent(slots: seq<byte>, s: seq<Node>, name: seq<byte>, qtype: u16)
    requires Tracks(slots, Hashes(s)) && !Maybe(slots, KeyHash(name, qtype))
    ensures Find(Entries(s), name, qtype).None?
  {
    hide Tracks, Maybe, KeyHash, NameEq, Entries, Hashes;
    var r := Find(Entries(s), name, qtype);
    EntriesAre(s);
    HashesAre(s);
    if r.Some? {
      SameHome(s[r.value], name, qtype);
      LiveKeyPasses(slots, Hashes(s), r.value);
    }
  }

  lemma NotFound(v: View, name: seq<byte>, qtype: u16)
    requires forall i :: 0 <= i < |v| ==> !HasKey(v[i], name, qtype)
    ensures Find(v, name, qtype).None?
  {
  }

  /** A node with the key asked for has that key's hash, and so that key's bucket. */
  lemma SameHome(n: Node, name: seq<byte>, qtype: u16)
    requires n.qtype == qtype && NameEq(n.name, name)
    ensures n.Hash() == KeyHash(name, qtype) && n.Home() == BucketOf(KeyHash(name, qtype))
  {
    hide KeyHash, BucketOf, NameEq;
    HashIgnoresCase(n.name, name, qtype);
  }

  lemma MovedHashes(s: seq<Node>, k: nat)
    requires k < |s|
    ensures Hashes([s[k]] + Without(s, k)) == [Hashes(s)[k]] + Hashes(s)[..k] + Hashes(s)[k + 1..]
  {
    hide Hashes, Node.Hash, Entries;
    HashesAre(s);
    HashesWithout(s, k);
    EntriesFront(s[k], Without(s, k));
    Assoc([Hashes(s)[k]], Hashes(s)[..k], Hashes(s)[k + 1..]);
  }

  lemma HashIsKeyHash(n: Node)
    ensures n.Hash() == KeyHash(n.name, n.qtype) && n.Home() == BucketOf(n.Hash())
  {
  }

  lemma HashAt(s: seq<Node>, k: nat)
    requires k < |s|
    ensures Hashes(s)[k] == s[k].Hash()
  {
    HashesAre(s);
  }
}
