/** The nodes of the cache and the two linked structures they live in at once: the
    doubly linked recency list and the singly linked hash chains of dns_cache.c. */
module CacheNodes {
  import opened Names
  import opened Wire
  import opened Bloom
  import opened CacheSpec

  const BUCKETS := 2048

  function BucketOf(hash: u64): (b: nat)
    ensures b < BUCKETS
  {
    hash % 0x1_0000_0000 % BUCKETS
  }

  class Node {
    const name: seq<byte>
    const qtype: u16
    var answers: seq<Answer>
    var rcode: int
    var expires: int

    var hnext: Node?
    var prev: Node?
    var next: Node?

    constructor (name: seq<byte>, qtype: u16)
      ensures this.name == name && this.qtype == qtype
      ensures hnext == null && prev == null && next == null
    {
      this.name, this.qtype := name, qtype;
      answers, rcode, expires := [], 0, 0;
      hnext, prev, next := null, null, null;
    }

    function Hash(): u64 { KeyHash(name, qtype) }

    function Home(): (b: nat)
      ensures b < BUCKETS
    {
      BucketOf(Hash())
    }

    ghost function ToEntry(): Entry
      reads this`answers, this`rcode, this`expires
    {
      Entry(name, qtype, answers, rcode, expires)
    }
  }

  /** The entries the nodes of a list stand for. */
  ghost function Entries(s: seq<Node>): (v: View)
    reads s`answers, s`rcode, s`expires
    ensures |v| == |s|
  {
    if s == [] then [] else Entries(s[..|s| - 1]) + [s[|s| - 1].ToEntry()]
  }

  ghost function Hashes(s: seq<Node>): (h: seq<u64>)
    ensures |h| == |s|
  {
    if s == [] then [] else Hashes(s[..|s| - 1]) + [s[|s| - 1].Hash()]
  }

  lemma {:induction false} EntriesAre(s: seq<Node>)
    ensures forall i :: 0 <= i < |s| ==> Entries(s)[i] == s[i].ToEntry()
  {
    hide Node.ToEntry;
    if s != [] {
      var front := s[..|s| - 1];
      EntriesAre(front);
      assert forall i :: 0 <= i < |front| ==> front[i] == s[i];
    }
  }

  lemma {:induction false} HashesAre(s: seq<Node>)
    ensures forall i :: 0 <= i < |s| ==> Hashes(s)[i] == s[i].Hash()
  {
    hide Node.Hash;
    if s != [] {
      var front := s[..|s| - 1];
      HashesAre(front);
      assert forall i :: 0 <= i < |front| ==> front[i] == s[i];
    }
  }

  ghost predicate NoDuplicates(s: seq<Node>) {
    forall i, j :: 0 <= i < j < |s| ==> s[i] != s[j]
  }

  /** Taking out position k of a list without duplicates takes out exactly that node. */
  lemma WithoutMembers(s: seq<Node>, k: nat)
    requires NoDuplicates(s) && k < |s|
    ensures NoDuplicates(Without(s, k))
    ensures forall m :: m in Without(s, k) <==> m in s && m != s[k]
  {
    var w := Without(s, k);
    forall m ensures m in w <==> m in s && m != s[k] {
      if m in s && m != s[k] {
        var j :| 0 <= j < |s| && s[j] == m;
        StaysUnless(s, k, j);
      }
    }
  }

  // ---------------------------------------------------------------- recency list

  /** `s` is the list from head to tail. */
  ghost predicate Linked(head: Node?, tail: Node?, s: seq<Node>)
    reads s`prev, s`next
  {
    if s == [] then head == null && tail == null
    else
      && head == s[0] && tail == s[|s| - 1]
      && s[0].prev == null && s[|s| - 1].next == null
      && (forall i {:trigger s[i].next} :: 0 <= i < |s| - 1 ==> s[i].next == s[i + 1])
      && (forall i {:trigger s[i].prev} :: 1 <= i < |s| ==> s[i].prev == s[i - 1])
  }

  /** The neighbour of position i once position k is skipped, forwards and backwards. */
  ghost function After(s: seq<Node>, k: nat, i: nat): Node? {
    var j := if i + 1 == k then i + 2 else i + 1;
    if j < |s| then s[j] else null
  }

  ghost function Before(s: seq<Node>, k: nat, i: nat): Node? {
    var j := if i == k + 1 then i - 2 else i - 1;
    if 0 <= j < |s| then s[j] else null
  }

  lemma Rejoined(head: Node?, tail: Node?, s: seq<Node>, k: nat)
    requires k < |s|
    requires forall i {:trigger s[i].next} :: 0 <= i < |s| && i != k ==> s[i].next == After(s, k, i)
    requires forall i {:trigger s[i].prev} :: 0 <= i < |s| && i != k ==> s[i].prev == Before(s, k, i)
    requires head == (if k == 0 then (if |s| > 1 then s[1] else null) else s[0])
    requires tail == (if k == |s| - 1 then (if |s| > 1 then s[|s| - 2] else null) else s[|s| - 1])
    ensures Linked(head, tail, Without(s, k))
  {
    var w := Without(s, k);
    assert |w| == |s| - 1;
    hide Without;
    forall i | 0 <= i < |w| ensures w[i] == s[Origin(k, i)] { WithoutAt(s, k, i); }
    forall i {:trigger w[i].next} | 0 <= i < |w| - 1 ensures w[i].next == w[i + 1] {
      assert s[Origin(k, i)].next == After(s, k, Origin(k, i));
    }
    forall i {:trigger w[i].prev} | 1 <= i < |w| ensures w[i].prev == w[i - 1] {
      assert s[Origin(k, i)].prev == Before(s, k, Origin(k, i));
    }
  }

  class RecencyList {
    var head: Node?
    var tail: Node?
    ghost var items: seq<Node>

    ghost predicate Valid()
      reads this, items`prev, items`next
    {
      NoDuplicates(items) && Linked(head, tail, items)
    }

    constructor ()
      ensures Valid() && items == []
    {
      head, tail, items := null, null, [];
    }

    /** The node whose prev link a push changes, if there is one. */
    ghost function Front(): set<Node>
      reads this
    {
      if head == null then {} else {head}
    }

    lemma FrontListed()
      requires Valid()
      ensures forall m :: m in Front() ==> m in items
    {
    }

    lemma Distinct()
      requires Valid()
      ensures NoDuplicates(items)
    {
    }

    /** The neighbours of n are linked to each other. */
    method Relink(n: Node, ghost k: nat)
      requires Valid() && k < |items| && items[k] == n
      modifies this`head, this`tail, items`prev, items`next
      ensures Linked(head, tail, Without(items, k))
      ensures n.prev == null && n.next == null
    {
      ghost var s := items;
      if n.prev != null { n.prev.next := n.next; } else { head := n.next; }
      if n.next != null { n.next.prev := n.prev; } else { tail := n.prev; }
      n.prev, n.next := null, null;
      Rejoined(head, tail, s, k);
    }

    /** lru_unlink. */
    method Unlink(n: Node, ghost k: nat)
      requires Valid() && k < |items| && items[k] == n
      modifies this, items`prev, items`next
      ensures Valid() && items == Without(old(items), k)
      ensures n.prev == null && n.next == null
    {
      WithoutMembers(items, k);
      Relink(n, k);
      items := Without(items, k);
    }

    /** lru_push_front. */
    method PushFront(n: Node)
      requires Valid() && n !in items
      modifies this, n`prev, n`next, Front()`prev
      ensures Valid() && items == [n] + old(items)
    {
      n.prev := null;
      n.next := head;
      if head != null { head.prev := n; }
      head := n;
      if tail == null { tail := n; }
      items := [n] + items;
    }
  }

  // ---------------------------------------------------------------- hash chains

  /** `s` is the chain that starts at head. */
  ghost predicate Chained(head: Node?, s: seq<Node>)
    reads s`hnext
  {
    if s == [] then head == null
    else
      && head == s[0] && s[|s| - 1].hnext == null
      && forall i {:trigger s[i].hnext} :: 0 <= i < |s| - 1 ==> s[i].hnext == s[i + 1]
  }

  ghost predicate AllAtHome(s: seq<Node>, b: nat) {
    forall i :: 0 <= i < |s| ==> s[i].Home() == b
  }

  class HashChains {
    const heads: array<Node?>
    ghost var chains: seq<seq<Node>>
    ghost var nodes: set<Node>

    /** Chain b holds distinct nodes whose home is bucket b, and no others. */
    ghost predicate ChainOk(b: nat)
      requires b < heads.Length && b < |chains|
      reads this, heads, chains[b]`hnext
    {
      Chained(heads[b], chains[b]) && NoDuplicates(chains[b]) && AllAtHome(chains[b], b)
    }

    ghost predicate Shape()
      reads this
    {
      heads.Length == BUCKETS && |chains| == BUCKETS
    }

    ghost predicate Valid()
      reads this, heads, nodes`hnext
    {
      && Shape()
      && (forall b, n :: 0 <= b < BUCKETS && n in chains[b] ==> n in nodes)
      && (forall b :: 0 <= b < BUCKETS ==> ChainOk(b))
      && (forall n :: n in nodes ==> n in chains[n.Home()])
    }

    constructor ()
      ensures Valid() && nodes == {} && fresh(heads)
    {
      heads := new Node?[BUCKETS](_ => null);
      chains := seq(BUCKETS, _ => []);
      nodes := {};
    }

    /** Every node is in the chain of its home bucket, and every chain holds nodes only. */
    lemma Members()
      requires Valid()
      ensures |chains| == BUCKETS
      ensures forall n :: n in nodes ==> n in chains[n.Home()]
      ensures forall b, n :: 0 <= b < BUCKETS && n in chains[b] ==> n in nodes
    {
    }

    /** bucket_find: the node of a key in its bucket's chain. */
    method Find(b: nat, name: seq<byte>, qtype: u16) returns (n: Node?)
      requires Valid() && b < BUCKETS
      ensures n != null ==> n in chains[b] && n.qtype == qtype && NameEq(n.name, name)
      ensures n == null ==> forall m :: m in chains[b] ==> !(m.qtype == qtype && NameEq(m.name, name))
    {
      hide NameEq;
      n := heads[b];
      ghost var s, i := chains[b], 0;
      assert ChainOk(b);
      while n != null
        invariant 0 <= i <= |s| && n == (if i < |s| then s[i] else null)
        invariant forall j :: 0 <= j < i ==> !(s[j].qtype == qtype && NameEq(s[j].name, name))
        decreases |s| - i
      {
        if n.qtype == qtype {
          var same := EqualNames(n.name, name);
          if same { return n; }
        }
        n := n.hnext;
        i := i + 1;
      }
    }

    /** The new node goes to the head of its chain. */
    method Insert(b: nat, n: Node)
      requires Valid() && n !in nodes && b == n.Home()
      modifies this, heads, n`hnext
      ensures Valid() && nodes == old(nodes) + {n}
    {
      hide Node.Home;
      n.hnext := heads[b];
      heads[b] := n;
      ghost var before := chains;
      chains := chains[b := [n] + chains[b]];
      nodes := nodes + {n};
      assert forall c :: 0 <= c < BUCKETS && c != b ==> chains[c] == before[c];
      forall c | 0 <= c < BUCKETS ensures ChainOk(c) {
        assert old(ChainOk(c));
      }
      assert n in chains[b];
    }

    /** The walk of bucket_unlink: find the link that leads to n. */
    method FindLink(b: nat, n: Node) returns (before: Node?, ghost i: nat)
      requires Valid() && n in nodes && b == n.Home()
      ensures i < |chains[b]| && chains[b][i] == n
      ensures before == if i > 0 then chains[b][i - 1] else null
    {
      hide Node.Home;
      ghost var s := chains[b];
      assert ChainOk(b);
      before, i := null, 0;
      var cur := heads[b];
      while cur != n
        invariant 0 <= i < |s| && cur == s[i] && before == (if i > 0 then s[i - 1] else null)
        invariant forall j :: 0 <= j < i ==> s[j] != n
        decreases |s| - i
      {
        before, cur := cur, cur.hnext;
        i := i + 1;
      }
    }

    /** The link that leads to n passes it by; every other chain stays as it is. */
    method PassBy(b: nat, n: Node, before: Node?, ghost i: nat)
      requires Shape() && b < BUCKETS && i < |chains[b]| && chains[b][i] == n
      requires Chained(heads[b], chains[b]) && NoDuplicates(chains[b])
      requires before == if i > 0 then chains[b][i - 1] else null
      modifies heads, chains[b]`hnext
      ensures n.hnext == null && Chained(heads[b], Without(chains[b], i))
      ensures forall c :: 0 <= c < BUCKETS && c != b ==> heads[c] == old(heads[c])
    {
      if before != null { before.hnext := n.hnext; } else { heads[b] := n.hnext; }
      n.hnext := null;
    }

    /** bucket_unlink. */
    method Remove(b: nat, n: Node)
      requires Valid() && n in nodes && b == n.Home()
      modifies this, heads, nodes`hnext
      ensures Valid() && nodes == old(nodes) - {n} && n.hnext == null
    {
      hide Node.Home, Chained, NoDuplicates;
      var before, i := FindLink(b, n);
      ghost var s, earlier := chains[b], chains;
      assert ChainOk(b);
      WithoutMembers(s, i);
      label relink:
      PassBy(b, n, before, i);
      forall c | 0 <= c < BUCKETS && c != b ensures Chained(heads[c], earlier[c]) {
        assert old(ChainOk(c));
        assert forall m :: m in earlier[c] ==> m !in s;
      }
      chains := chains[b := Without(s, i)];
      nodes := nodes - {n};
      forall c | 0 <= c < BUCKETS ensures ChainOk(c) && n !in chains[c] {
        assert old(ChainOk(c));
        if c == b { assert forall j :: 0 <= j < |chains[b]| ==> chains[b][j] in s; }
      }
      forall m | m in nodes ensures m in chains[m.Home()] {
        assert m in earlier[m.Home()];
      }
    }
  }
}
