/** The counting Bloom filter of dns_bloom.c: 65536 saturating byte counters, four of
    them per key. */
module Bloom {
  import opened Names

  const SLOTS := 65536
  const HASHES := 4
  const BLOOM_MAX: byte := 255

  type u16 = x: int | 0 <= x < 0x1_0000
  type u64 = x: int | 0 <= x < 0x1_0000_0000_0000_0000

  // ---------------------------------------------------------------- key hash

  function Mix(h: bv64, b: bv64): bv64 {
    (h ^ b) * 1099511628211
  }

  function HashBytes(h: bv64, name: seq<byte>): bv64
    decreases |name|
  {
    if name == [] then h else HashBytes(Mix(h, LowerByte(name[0]) as bv64), name[1..])
  }

  /** FNV-1a over the lower-cased name, with the query type mixed in last. */
  function KeyHash(name: seq<byte>, qtype: u16): u64 {
    Mix(HashBytes(14695981039346656037, name), qtype as bv64) as int
  }

  /** dns_key_hash. */
  method HashKey(name: seq<byte>, qtype: u16) returns (r: u64)
    ensures r == KeyHash(name, qtype)
  {
    hide Mix;
    var h: bv64 := 14695981039346656037;
    var i := 0;
    assert name[0..] == name;
    while i < |name|
      invariant i <= |name| && HashBytes(14695981039346656037, name) == HashBytes(h, name[i..])
    {
      assert name[i..][0] == name[i] && name[i..][1..] == name[i + 1..];
      h := Mix(h, LowerByte(name[i]) as bv64);
      i := i + 1;
    }
    assert name[i..] == [];
    return Mix(h, qtype as bv64) as int;
  }

  lemma {:induction false} HashBytesIgnoresCase(h: bv64, a: seq<byte>, b: seq<byte>)
    requires NameEq(a, b)
    ensures HashBytes(h, a) == HashBytes(h, b)
    decreases |a|
  {
    hide Mix;
    assert |Lower(a)| == |Lower(b)|;
    if a != [] {
      assert Lower(a)[0] == Lower(b)[0];
      assert Lower(a)[1..] == Lower(a[1..]) && Lower(b)[1..] == Lower(b[1..]);
      HashBytesIgnoresCase(Mix(h, LowerByte(a[0]) as bv64), a[1..], b[1..]);
    }
  }

  /** Names equal up to case have equal hashes, so they share bucket and slots. */
  lemma HashIgnoresCase(a: seq<byte>, b: seq<byte>, qtype: u16)
    requires NameEq(a, b)
    ensures KeyHash(a, qtype) == KeyHash(b, qtype)
  {
    hide Mix;
    HashBytesIgnoresCase(14695981039346656037, a, b);
  }

  // ---------------------------------------------------------------- slots

  /** g(i) = h1 + i * h2 in 32-bit arithmetic, with h2 forced odd. */
  function Slot(hash: u64, i: nat): (s: nat)
    ensures s < SLOTS
  {
    var h1 := hash % 0x1_0000_0000;
    var hi := hash / 0x1_0000_0000;
    var h2 := if hi % 2 == 0 then hi + 1 else hi;
    (h1 + i * h2) % 0x1_0000_0000 % SLOTS
  }

  lemma SlotKeepsMod4(x: nat)
    ensures x % 0x1_0000_0000 % SLOTS % 4 == x % 4
  {
    var y := x % 0x1_0000_0000;
    assert x == 0x1_0000_0000 * (x / 0x1_0000_0000) + y;
    assert y == SLOTS * (y / SLOTS) + y % SLOTS;
  }

  /** Adding up to three odd steps never comes back to the same slot. */
  lemma OddStepMoves(a: nat, h: nat, d: nat)
    requires h % 2 == 1 && 1 <= d <= 3
    ensures (a + d * h) % 0x1_0000_0000 % SLOTS != a % 0x1_0000_0000 % SLOTS
  {
    SlotKeepsMod4(a);
    SlotKeepsMod4(a + d * h);
    var k := h / 2;
    assert h == 2 * k + 1;
    assert d == 2 ==> d * h == 4 * k + 2;
    assert d == 3 ==> d * h == 6 * k + 3;
    assert (a + d * h) % 4 != a % 4;
  }

  /** The four slots of a key are distinct. */
  lemma SlotsDistinct(hash: u64, i: nat, j: nat)
    requires i < j < 4
    ensures Slot(hash, i) != Slot(hash, j)
  {
    var h1 := hash % 0x1_0000_0000;
    var hi := hash / 0x1_0000_0000;
    var h2 := if hi % 2 == 0 then hi + 1 else hi;
    OddStepMoves(h1 + i * h2, h2, j - i);
    assert h1 + i * h2 + (j - i) * h2 == h1 + j * h2;
  }

  predicate UsesSlot(hash: u64, s: nat) {
    exists i :: 0 <= i < 4 && Slot(hash, i) == s
  }

  // ---------------------------------------------------------------- counters

  function Raised(v: byte): byte { if v == BLOOM_MAX then v else v + 1 }
  function Lowered(v: byte): byte { if v == 0 || v == BLOOM_MAX then v else v - 1 }

  /** Number of the given keys that use slot s. */
  function Users(hashes: seq<u64>, s: nat): nat {
    if hashes == [] then 0 else (if UsesSlot(hashes[0], s) then 1 else 0) + Users(hashes[1..], s)
  }

  /** Every counter is the number of live keys using its slot, or pinned at 255. */
  predicate Tracks(slots: seq<byte>, hashes: seq<u64>) {
    |slots| == 65536 && forall s :: 0 <= s < 65536 ==> slots[s] == 255 || slots[s] == Users(hashes, s)
  }

  lemma {:induction false} UsersConcat(a: seq<u64>, b: seq<u64>, s: nat)
    ensures Users(a + b, s) == Users(a, s) + Users(b, s)
  {
    hide UsesSlot;
    if a == [] {
      assert a + b == b;
    } else {
      assert (a + b)[1..] == a[1..] + b;
      UsersConcat(a[1..], b, s);
    }
  }

  /** A live key is one of the users of each of its slots. */
  lemma UsersOfLive(hashes: seq<u64>, k: nat, s: nat)
    requires k < |hashes|
    ensures Users(hashes, s) == Users(hashes[..k] + hashes[k + 1..], s) + if UsesSlot(hashes[k], s) then 1 else 0
  {
    hide UsesSlot;
    UsersConcat(hashes[..k], hashes[k + 1..], s);
    UsersConcat(hashes[..k], hashes[k..], s);
    assert hashes[..k] + hashes[k..] == hashes;
    assert hashes[k..][1..] == hashes[k + 1..];
  }

  /** Only the live keys count, not the order they are listed in. */
  lemma TracksMoved(slots: seq<byte>, hashes: seq<u64>, k: nat)
    requires k < |hashes| && Tracks(slots, hashes)
    ensures Tracks(slots, [hashes[k]] + hashes[..k] + hashes[k + 1..])
  {
    hide UsesSlot;
    var moved := [hashes[k]] + hashes[..k] + hashes[k + 1..];
    var rest := hashes[..k] + hashes[k + 1..];
    assert moved[1..] == rest;
    forall s | 0 <= s < SLOTS ensures Users(moved, s) == Users(hashes, s) {
      UsersOfLive(hashes, k, s);
    }
  }

  /** The slot array before and after touching the four counters of a key. */
  predicate AddedTo(before: seq<byte>, after: seq<byte>, hash: u64) {
    |before| == |after| == SLOTS
    && forall s :: 0 <= s < SLOTS ==> after[s] == if UsesSlot(hash, s) then Raised(before[s]) else before[s]
  }

  predicate RemovedFrom(before: seq<byte>, after: seq<byte>, hash: u64) {
    |before| == |after| == SLOTS
    && forall s :: 0 <= s < SLOTS ==> after[s] == if UsesSlot(hash, s) then Lowered(before[s]) else before[s]
  }

  /** Inserting a key keeps the counters exact. */
  lemma AddTracks(before: seq<byte>, after: seq<byte>, hashes: seq<u64>, hash: u64)
    requires Tracks(before, hashes) && AddedTo(before, after, hash)
    ensures Tracks(after, [hash] + hashes)
  {
    hide UsesSlot;
    assert ([hash] + hashes)[1..] == hashes;
  }

  /** Removing a live key keeps the counters exact; the guard against zero never acts. */
  lemma DelTracks(before: seq<byte>, after: seq<byte>, hashes: seq<u64>, k: nat)
    requires k < |hashes| && Tracks(before, hashes) && RemovedFrom(before, after, hashes[k])
    ensures Tracks(after, hashes[..k] + hashes[k + 1..])
    ensures forall s :: 0 <= s < SLOTS && UsesSlot(hashes[k], s) ==> before[s] != 0
  {
    hide UsesSlot;
    forall s | 0 <= s < SLOTS
      ensures after[s] == BLOOM_MAX || after[s] == Users(hashes[..k] + hashes[k + 1..], s)
      ensures UsesSlot(hashes[k], s) ==> before[s] != 0
    {
      UsersOfLive(hashes, k, s);
    }
  }

  /** The filter's answer for a key: all four counters are non-zero. */
  predicate Maybe(slots: seq<byte>, hash: u64) {
    |slots| == SLOTS && forall i :: 0 <= i < 4 ==> slots[Slot(hash, i)] != 0
  }

  /** No false negatives: a live key is never rejected. */
  lemma LiveKeyPasses(slots: seq<byte>, hashes: seq<u64>, k: nat)
    requires k < |hashes| && Tracks(slots, hashes)
    ensures Maybe(slots, hashes[k])
  {
    forall i | 0 <= i < HASHES ensures slots[Slot(hashes[k], i)] != 0 {
      UsersOfLive(hashes, k, Slot(hashes[k], i));
    }
  }

  // ---------------------------------------------------------------- the filter

  class Filter {
    const slots: array<byte>

    ghost predicate Valid() {
      slots.Length == SLOTS
    }

    /** dns_bloom_reset leaves every counter at zero, which tracks no keys at all. */
    constructor ()
      ensures Valid() && fresh(slots) && Tracks(slots[..], [])
    {
      slots := new byte[SLOTS](_ => 0);
    }

    /** dns_bloom_maybe. */
    method MaybePresent(hash: u64) returns (r: bool)
      requires Valid()
      ensures r <==> Maybe(slots[..], hash)
    {
      hide Slot;
      var i := 0;
      while i < HASHES
        invariant i <= HASHES && forall k :: 0 <= k < i ==> slots[Slot(hash, k)] != 0
      {
        if slots[Slot(hash, i)] == 0 { return false; }
        i := i + 1;
      }
      return true;
    }

    /** dns_bloom_add. */
    method Add(hash: u64)
      requires Valid()
      modifies slots
      ensures AddedTo(old(slots[..]), slots[..], hash)
    {
      hide Slot;
      var i := 0;
      while i < HASHES
        invariant i <= HASHES
        invariant forall s :: 0 <= s < SLOTS ==>
                    slots[s] ==
                    if (exists k :: 0 <= k < i && Slot(hash, k) == s) then Raised(old(slots[s])) else old(slots[s])
      {
        var s := Slot(hash, i);
        forall k | 0 <= k < i ensures Slot(hash, k) != s { SlotsDistinct(hash, k, i); }
        if slots[s] != BLOOM_MAX {
          slots[s] := slots[s] + 1;
        }
        i := i + 1;
      }
    }

    /** dns_bloom_del. */
    method Del(hash: u64)
      requires Valid()
      modifies slots
      ensures RemovedFrom(old(slots[..]), slots[..], hash)
    {
      hide Slot;
      var i := 0;
      while i < HASHES
        invariant i <= HASHES
        invariant forall s :: 0 <= s < SLOTS ==>
                    slots[s] ==
                    if (exists k :: 0 <= k < i && Slot(hash, k) == s) then Lowered(old(slots[s])) else old(slots[s])
      {
        var s := Slot(hash, i);
        forall k | 0 <= k < i ensures Slot(hash, k) != s { SlotsDistinct(hash, k, i); }
        if slots[s] != 0 && slots[s] != BLOOM_MAX {
          slots[s] := slots[s] - 1;
        }
        i := i + 1;
      }
    }
  }
}
