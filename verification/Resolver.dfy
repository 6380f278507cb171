/** The iterative resolver of resolver.c: referrals, nested resolutions for missing glue,
    CNAME chasing, three budgets, and the cache in front.

    query_server is an oracle: for every attempt it may return any bytes or nothing. */
module Resolver {
  import opened Names
  import opened Wire
  import opened Bloom
  import opened CacheSpec
  import opened Cache
  import opened Rescan
  import opened Dissect
  import opened Trail

  const MAX_REFERRALS := 16
  const RCODE_SERVFAIL := 2
  const RCODE_NOTIMP := 4

  datatype Resolution = Resolution(answers: seq<Answer>, rcode: int)

  // ---------------------------------------------------------------- budgets

  /** Upstream round trips of a whole resolution at a nesting depth: nine names, sixteen
      levels each, eight servers per level, and as many nested resolutions for glue. */
  function Trips(depth: nat): nat
    decreases MAX_NS_DEPTH - depth
  {
    9 * (16 * PerLevel(depth))
  }

  function PerLevel(depth: nat): nat
    decreases MAX_NS_DEPTH - depth, 0
  {
    8 + 8 * if depth >= MAX_NS_DEPTH then 0 else Trips(depth + 1)
  }

  /** Round trips of one resolution that has already followed some CNAMEs. */
  function Budget(depth: nat, hops: nat): nat
    requires hops <= MAX_CNAME_HOPS
  {
    (9 - hops) * (16 * PerLevel(depth))
  }

  /** The bound in closed form: U(3) = 9*16*8 and U(d) = 9*16*8*(1 + U(d+1)). */
  lemma TripsClosedForm(depth: nat)
    ensures depth >= 3 ==> Trips(depth) == 9 * 16 * 8
    ensures depth < 3 ==> Trips(depth) == 9 * 16 * 8 * (1 + Trips(depth + 1))
    ensures Trips(depth) == Budget(depth, 0)
  {
  }

  // ---------------------------------------------------------------- the algorithm

  /** A result and the number of attempts made when it was reached. */
  datatype Outcome<T> = Outcome(result: T, asked: nat)

  /** The first server whose reply can be dissected. */
  function AskAny(o: Oracle, k: nat, servers: seq<Addr>, name: seq<byte>, qtype: nat, zone: seq<byte>,
                  cap: nat): Outcome<Option<Reply>>
    decreases |servers|
  {
    if servers == [] then Outcome(None, k)
    else
      var msg := o(k, servers[0], name, qtype);
      var r := if msg.None? then None else Dissected(msg.value, name, zone, cap);
      if r.Some? then Outcome(r, k + 1) else AskAny(o, k + 1, servers[1..], name, qtype, zone, cap)
  }

  /** The glue addresses, in order. */
  function GlueOf(addrs: seq<Option<Addr>>): seq<Addr> {
    if addrs == [] then []
    else GlueOf(addrs[..|addrs| - 1]) + if addrs[|addrs| - 1].Some? then [addrs[|addrs| - 1].value] else []
  }

  /** The first address among the answers. */
  function AddressIn(ans: seq<Answer>): Option<Addr> {
    if ans == [] then None
    else if ans[0].data.AData? then Some(ans[0].data.addr)
    else AddressIn(ans[1..])
  }

  /** An address for a server name, by a nested resolution one level deeper. */
  function AddrOf(o: Oracle, roots: seq<Addr>, k: nat, ns: seq<byte>, depth: nat): Outcome<Option<Addr>>
    decreases MAX_NS_DEPTH - depth, 0, 0, 0
  {
    if depth >= MAX_NS_DEPTH then Outcome(None, k)
    else
      var r := Resolve(o, roots, k, ns, TYPE_A, FirstFew(roots), [], MAX_ANSWERS, depth + 1, 0, 0);
      Outcome(if r.result.None? then None else AddressIn(r.result.value.answers), r.asked)
  }

  /** The first server name for which an address can be found. */
  function OneServer(o: Oracle, roots: seq<Addr>, k: nat, names: seq<seq<byte>>, depth: nat): Outcome<seq<Addr>>
    decreases MAX_NS_DEPTH - depth, 0, 0, 1 + |names|
  {
    if names == [] then Outcome([], k)
    else
      var a := AddrOf(o, roots, k, names[0], depth);
      if a.result.Some? then Outcome([a.result.value], a.asked) else OneServer(o, roots, a.asked, names[1..], depth)
  }

  function Servers(o: Oracle, roots: seq<Addr>, k: nat, ref: Referral, depth: nat): Outcome<seq<Addr>>
    decreases MAX_NS_DEPTH - depth, 0, 1
  {
    if GlueOf(ref.addrs) != [] then Outcome(GlueOf(ref.addrs), k) else OneServer(o, roots, k, ref.names, depth)
  }

  /** From a level on: ask, then finish, chase a CNAME from the roots, or go down. */
  function Resolve(o: Oracle, roots: seq<Addr>, k: nat, name: seq<byte>, qtype: nat, current: seq<Addr>,
                   zone: seq<byte>, cap: nat, depth: nat, hops: nat, level: nat): Outcome<Option<Resolution>>
    requires hops <= MAX_CNAME_HOPS
    decreases MAX_NS_DEPTH - depth, MAX_CNAME_HOPS - hops, 2 + MAX_REFERRALS - level
  {
    if level >= MAX_REFERRALS then Outcome(None, k)
    else
      var a := AskAny(o, k, current, name, qtype, zone, cap);
      if a.result.None? then Outcome(None, a.asked)
      else
        var Reply(rcode, scan, ref) := a.result.value;
        if rcode == RCODE_NXDOMAIN then Outcome(Some(Resolution(scan.kept, rcode)), a.asked)
        else if AnyAsked(scan.kept, qtype, name) then Outcome(Some(Resolution(scan.kept, 0)), a.asked)
        else if scan.cname != [] && hops < MAX_CNAME_HOPS then
          var sub := Resolve(o, roots, a.asked, scan.cname, qtype, FirstFew(roots), [], MAX_ANSWERS,
                             depth, hops + 1, 0);
          if sub.result.None? then sub
          else
            var all := Cut(scan.kept + sub.result.value.answers, cap);
            Outcome(Some(Resolution(all, sub.result.value.rcode)), sub.asked)
        else if ref.names == [] then Outcome(if rcode == 0 then Some(Resolution(scan.kept, rcode)) else None, a.asked)
        else
          var next := Servers(o, roots, a.asked, ref, depth);
          if next.result == [] then Outcome(None, next.asked)
          else Resolve(o, roots, next.asked, name, qtype, next.result, ref.zone, cap, depth, hops, level + 1)
  }

  // ---------------------------------------------------------------- small loops

  /** "Did we get what we asked for?" */
  method HasAsked(ans: seq<Answer>, qtype: nat, name: seq<byte>) returns (found: bool)
    ensures found <==> AnyAsked(ans, qtype, name)
  {
    hide NameEq;
    for i := 0 to |ans|
      invariant forall j :: 0 <= j < i ==> !Asked(ans[j], qtype, name)
    {
      if ans[i].Type() == qtype {
        var same := EqualNames(ans[i].owner, name);
        if same { return true; }
      }
    }
    return false;
  }

  /** The hops already collected, then the tail, as far as there is room. */
  method AppendTail(ans: seq<Answer>, tail: seq<Answer>, cap: nat) returns (r: seq<Answer>)
    requires |ans| <= cap
    ensures r == Cut(ans + tail, cap)
  {
    r := ans;
    var i := 0;
    while i < |tail| && |r| < cap
      invariant i <= |tail| && |r| <= cap && r == ans + tail[..i]
    {
      r := r + [tail[i]];
      i := i + 1;
    }
    assert tail[..|tail|] == tail;
  }

  /** The addresses given as glue. */
  method Glued(ref: Referral) returns (r: seq<Addr>)
    requires |ref.addrs| <= MAX_NS_CANDIDATES
    ensures r == GlueOf(ref.addrs) && |r| <= MAX_NS_CANDIDATES
  {
    r := [];
    for i := 0 to |ref.addrs|
      invariant |r| <= i && r == GlueOf(ref.addrs[..i])
    {
      assert ref.addrs[..i + 1][..i] == ref.addrs[..i];
      if ref.addrs[i].Some? { r := r + [ref.addrs[i].value]; }
    }
    assert ref.addrs[..|ref.addrs|] == ref.addrs;
  }

  method FirstAddress(ans: seq<Answer>) returns (r: Option<Addr>)
    ensures r == AddressIn(ans)
  {
    assert ans[0..] == ans;
    for i := 0 to |ans|
      invariant AddressIn(ans) == AddressIn(ans[i..])
    {
      assert ans[i..][0] == ans[i] && ans[i..][1..] == ans[i + 1..];
      if ans[i].data.AData? { return Some(ans[i].data.addr); }
    }
    assert ans[|ans|..] == [];
    return None;
  }

  // ---------------------------------------------------------------- results

  /** What every resolution of a question guarantees: the replies it accepted came from
      servers it was right to ask, in attempts lo to hi, and its answers and result code rest
      on them. */
  ghost predicate Sound(w: World, r: Option<Resolution>, q: Question, trail: seq<Exchange>, lo: nat, hi: nat,
                        depth: nat, hops: nat) {
    && WellReached(w, trail, q, lo, hi, depth)
    && (r.Some? ==> && |r.value.answers| <= q.cap && AllProven(trail, q.name, r.value.answers)
                    && Concluded(trail, q.name, r.value.rcode, hops))
  }

  /** The servers of the coming level are the right ones to ask for this zone. */
  ghost predicate Ready(w: World, trail: seq<Exchange>, q: Question, servers: seq<Addr>, route: Route, zone: seq<byte>,
                        now: nat, depth: nat) {
    if trail == [] then
      route.Roots? && zone == [] && forall i :: 0 <= i < |servers| ==> servers[i] in FirstFew(w.roots)
    else
      var last := trail[|trail| - 1];
      && !route.Roots? && last.attempt < now && QuestionOf(last) == q && LeadsTo(last, zone)
      && forall i :: 0 <= i < |servers| ==> Serves(w, last, servers[i], route, last.attempt + 1, now, depth)
  }

  /** The state of resolve_from's loop between levels. */
  ghost predicate OnTheWay(w: World, trail: seq<Exchange>, q: Question, lo: nat, now: nat, depth: nat) {
    && WellReached(w, trail, q, lo, now, depth)
    && Starts(trail) == (if trail == [] then 0 else 1)
  }

  /** The reply of one level extends the trail. */
  lemma NextExchange(w: World, trail: seq<Exchange>, servers: seq<Addr>, i: nat, e: Exchange, lo: nat, now: nat,
                     hi: nat, depth: nat)
    requires OnTheWay(w, trail, QuestionOf(e), lo, now, depth) && lo <= now <= e.attempt < hi
    requires Ready(w, trail, QuestionOf(e), servers, e.route, e.zone, now, depth) && i < |servers|
             && servers[i] == e.server
    requires w.oracle(e.attempt, e.server, e.qname, e.qtype) == Some(e.msg) && ReadReply(e.msg).Some?
    ensures OnTheWay(w, trail + [e], QuestionOf(e), lo, hi, depth)
  {
    hide WellReached, Serves, LeadsTo, ReadReply, Starts;
    var all := trail + [e];
    WellReachedLater(w, trail, QuestionOf(e), lo, now, hi, depth);
    if trail != [] {
      var last := trail[|trail| - 1];
      ServesLater(w, last, e.server, e.route, last.attempt + 1, now, last.attempt + 1, e.attempt, depth);
    }
    assert ReachedAt(w, all, |trail|, QuestionOf(e), lo, hi, depth);
    WellReachedSnoc(w, trail, e, QuestionOf(e), lo, hi, depth);
    StartsSnoc(trail, e);
  }

  lemma StartsSnoc(trail: seq<Exchange>, e: Exchange)
    ensures Starts(trail + [e]) == Starts(trail) + if e.route.Roots? then 1 else 0
  {
    assert (trail + [e])[..|trail|] == trail;
  }

  /** What the reply of a level yields is proven by the trail that ends with it. */
  lemma LevelYields(trail: seq<Exchange>, e: Exchange)
    requires ReadReply(e.msg).Some?
    ensures var s := Scanned(e);
            && |s.kept| <= e.cap && AllProven(trail + [e], e.qname, s.kept)
            && Reachable(trail + [e], e.qname, e.qname)
            && (s.cname != [] ==> Reachable(trail + [e], e.qname, s.cname) && Chases(e, s.cname))
  {
    hide AllProven, Reachable, ReadReply, Answers;
    KeptProven(e);
    KeptFits(ReadReply(e.msg).value.answers, e.qname, e.zone, e.cap);
    ProvenAfter(trail, e, e.qname, Scanned(e).kept);
    ReachableItself(trail + [e], e.qname);
    if Scanned(e).cname != [] {
      CnameReachable(e);
      ReachableAfter(trail, e, e.qname, Scanned(e).cname);
    }
  }

  lemma KeptFits(recs: seq<Rec>, qname: seq<byte>, zone: seq<byte>, cap: nat)
    ensures |Answers(recs, qname, zone, cap).kept| <= cap
  {
    hide Answers, Owned, NameSet;
    KeptIsOwned(recs, qname, zone, cap);
  }

  /** A level that ends the resolution by itself. */
  lemma EndsHere(w: World, trail: seq<Exchange>, e: Exchange, rcode: int, lo: nat, hi: nat, depth: nat, hops: nat)
    requires OnTheWay(w, trail + [e], QuestionOf(e), lo, hi, depth) && ReadReply(e.msg).Some?
    requires if rcode == RCODE_NXDOMAIN then Denies(e) else rcode == 0 && (Finds(e) || NoData(e, hops))
    ensures Sound(w, Some(Resolution(Scanned(e).kept, rcode)), QuestionOf(e), trail + [e], lo, hi, depth, hops)
  {
    hide WellReached, AllProven, Reachable, Denies, Finds, NoData, ReadReply, Answers;
    LevelYields(trail, e);
    assert (trail + [e])[|trail|] == e;
  }

  /** A level that ends with a CNAME: the resolution of its target finishes the job. */
  lemma EndsThere(w: World, trail: seq<Exchange>, e: Exchange, b: seq<Exchange>, sub: Option<Resolution>, lo: nat,
                  mid: nat, hi: nat, depth: nat, hops: nat)
    requires OnTheWay(w, trail + [e], QuestionOf(e), lo, mid, depth) && ReadReply(e.msg).Some? && mid <= hi
    requires Scanned(e).cname != []
             && Sound(w, sub, Chasing(QuestionOf(e), Scanned(e).cname), b, mid, hi, depth, hops + 1)
    ensures var r := if sub.None? then None
              else Some(Resolution(Cut(Scanned(e).kept + sub.value.answers, e.cap), sub.value.rcode));
            Sound(w, r, QuestionOf(e), trail + [e] + b, lo, hi, depth, hops)
  {
    hide WellReached, AllProven, Reachable, Concluded, ReadReply, Answers, Starts, Chases;
    var a, cname := trail + [e], Scanned(e).cname;
    LevelYields(trail, e);
    assert a[|a| - 1] == e;
    WellReachedConcat(w, a, b, QuestionOf(e), cname, lo, mid, hi, depth);
    if sub.Some? {
      ChasedProven(a, b, e.qname, cname, Scanned(e).kept, sub.value.answers, e.cap);
      ConcludedThrough(a, b, e.qname, cname, sub.value.rcode, hops);
    }
  }

  /** Glue serves the zone it was given for. */
  lemma GlueServes(w: World, e: Exchange, i: nat, lo: nat, hi: nat, depth: nat)
    requires ReadReply(e.msg).Some? && i < |GlueOf(ReferralIn(e).addrs)|
    ensures Serves(w, e, GlueOf(ReferralIn(e).addrs)[i], Glue, lo, hi, depth)
  {
    hide ReadReply, ReferralOf, Glues, WellReached, GlueOf;
    var s, ref := ReadReply(e.msg).value, ReferralIn(e);
    var j := GlueFrom(ref.addrs, i);
    GlueComesFrom(s, e.qname, e.zone);
    assert NamesServer(e, ref.names[j]);
  }

  lemma {:induction false} GlueFrom(addrs: seq<Option<Addr>>, i: nat) returns (j: nat)
    requires i < |GlueOf(addrs)|
    ensures j < |addrs| && addrs[j] == Some(GlueOf(addrs)[i])
    decreases |addrs|
  {
    var front := addrs[..|addrs| - 1];
    if i < |GlueOf(front)| {
      j := GlueFrom(front, i);
    } else {
      j := |addrs| - 1;
    }
  }

  /** The address found by a nested resolution is proven by it. */
  lemma {:induction false} AddressIsProven(trail: seq<Exchange>, ns: seq<byte>, ans: seq<Answer>)
    requires AllProven(trail, ns, ans)
    ensures AddressIn(ans).Some? ==> AddressFor(trail, ns, AddressIn(ans).value)
    decreases |ans|
  {
    hide Proven;
    if ans != [] {
      if ans[0].data.AData? {
        assert Proven(trail, ns, ans[0]);
      } else {
        assert forall j :: 0 <= j < |ans[1..]| ==> ans[1..][j] == ans[j + 1];
        AddressIsProven(trail, ns, ans[1..]);
      }
    }
  }

  // ---------------------------------------------------------------- the resolver

  class DnsResolver {
    const oracle: Oracle
    const roots: seq<Addr>
    const cache: DnsCache
    var asked: nat

    constructor (oracle: Oracle, roots: seq<Addr>, cache: DnsCache)
      ensures this.oracle == oracle && this.roots == roots && this.cache == cache && asked == 0
    {
      this.oracle, this.roots, this.cache, asked := oracle, roots, cache, 0;
    }

    /** query_server. */
    method QueryServer(server: Addr, name: seq<byte>, qtype: nat) returns (r: Option<seq<byte>>)
      modifies this`asked
      ensures asked == old(asked) + 1 && r == oracle(old(asked), server, name, qtype)
    {
      r := oracle(asked, server, name, qtype);
      asked := asked + 1;
    }

    ghost function Around(): World {
      World(oracle, roots)
    }

    /** One level: each server in turn until one gives a usable reply. */
    method AskLevel(servers: seq<Addr>, name: seq<byte>, qtype: nat, zone: seq<byte>, cap: nat)
      returns (r: Option<Reply>, ghost i: nat, ghost attempt: nat, ghost msg: seq<byte>)
      requires |servers| <= MAX_NS_CANDIDATES
      modifies this`asked
      ensures Outcome(r, asked) == AskAny(oracle, old(asked), servers, name, qtype, zone, cap)
      ensures old(asked) <= asked <= old(asked) + 8
      ensures r.Some? ==>
                && i < |servers| && old(asked) <= attempt < asked
                && oracle(attempt, servers[i], name, qtype) == Some(msg)
                          && Dissected(msg, name, zone, cap) == r
    {
      hide Dissected;
      msg, i, attempt := [], 0, 0;
      var s := 0;
      assert servers[0..] == servers;
      while s < |servers|
        invariant s <= |servers| && asked == old(asked) + s
        invariant AskAny(oracle, old(asked), servers, name, qtype, zone, cap) ==
                    AskAny(oracle, asked, servers[s..], name, qtype, zone, cap)
      {
        assert servers[s..][0] == servers[s] && servers[s..][1..] == servers[s + 1..];
        i, attempt := s, asked;
        var reply := QueryServer(servers[s], name, qtype);
        s := s + 1;
        if reply.None? { continue; }
        msg := reply.value;
        r := DissectReply(reply.value, name, zone, cap);
        if r.Some? { return; }
      }
      assert servers[s..] == [];
      r := None;
    }

    /** resolve_ns_addr: a nested resolution with its own depth budget, whose replies prove
        the address. */
    method ResolveNsAddr(nsName: seq<byte>, depth: nat) returns (r: Option<Addr>, ghost sub: seq<Exchange>)
      requires depth <= MAX_NS_DEPTH
      modifies this`asked
      ensures Outcome(r, asked) == AddrOf(oracle, roots, old(asked), nsName, depth)
      ensures old(asked) <= asked <= old(asked) + if depth >= MAX_NS_DEPTH then 0 else Trips(depth + 1)
      ensures r.Some? ==> && depth < MAX_NS_DEPTH && AddressFor(sub, nsName, r.value)
                          && WellReached(Around(), sub, ServerQuestion(nsName), old(asked), asked, depth + 1)
      decreases MAX_NS_DEPTH - depth, 0, 0
    {
      hide Trips, PerLevel, Resolve, WellReached, AllProven, Concluded, AddressFor;
      sub := [];
      if depth >= MAX_NS_DEPTH { return None, sub; }
      var res, trail := ResolveFrom(nsName, TYPE_A, MAX_ANSWERS, depth + 1, 0);
      BudgetIsTrips(depth + 1);
      sub := trail;
      if res.None? { return None, sub; }
      AddressIsProven(trail, nsName, res.value.answers);
      r := FirstAddress(res.value.answers);
    }

    /** The servers for the next level: glue if there is any, else one server name resolved
        out of band.  Either way they are servers the reply refers to. */
    method NextServers(ref: Referral, depth: nat, ghost e: Exchange) returns (next: seq<Addr>, ghost route: Route)
      requires depth <= MAX_NS_DEPTH && ReadReply(e.msg).Some? && ref == ReferralIn(e)
      modifies this`asked
      ensures Outcome(next, asked) == Servers(oracle, roots, old(asked), ref, depth)
      ensures |next| <= MAX_NS_CANDIDATES && old(asked) <= asked
      ensures asked <= old(asked) + 8 * if depth >= MAX_NS_DEPTH then 0 else Trips(depth + 1)
      ensures !route.Roots?
      ensures forall i :: 0 <= i < |next| ==> Serves(Around(), e, next[i], route, old(asked), asked, depth)
      decreases MAX_NS_DEPTH - depth, 0, 1
    {
      hide Trips, AddrOf, GlueOf, WellReached, AddressFor, Glues, ReadReply, ReferralOf;
      ghost var each: nat := if depth >= MAX_NS_DEPTH then 0 else Trips(depth + 1);
      route := Glue;
      next := Glued(ref);
      if |next| > 0 {
        forall i | 0 <= i < |next| ensures Serves(Around(), e, next[i], route, asked, asked, depth) {
          GlueServes(Around(), e, i, asked, asked, depth);
        }
        return;
      }
      var i := 0;
      assert ref.names[0..] == ref.names;
      while i < |ref.names|
        invariant i <= |ref.names| && next == [] && old(asked) <= asked <= old(asked) + i * each
        invariant OneServer(oracle, roots, old(asked), ref.names, depth) ==
                    OneServer(oracle, roots, asked, ref.names[i..], depth)
      {
        assert ref.names[i..][0] == ref.names[i] && ref.names[i..][1..] == ref.names[i + 1..];
        Multiply(i, each);
        ghost var before := asked;
        var addr, sub := ResolveNsAddr(ref.names[i], depth);
        i := i + 1;
        if addr.Some? {
          route := Nested(ref.names[i - 1], sub);
          NestedServes(Around(), e, addr.value, ref.names[i - 1], sub, old(asked), before, asked, depth);
          return [addr.value], route;
        }
      }
      Multiply(i, each);
      assert ref.names[i..] == [];
    }

    /** resolve_from.  It does what the algorithm says, ends for all replies within its
        budget of round trips, asks only servers it was right to ask, and its answers and
        result code rest on the replies it accepted. */
    method ResolveFrom(name: seq<byte>, qtype: nat, cap: nat, depth: nat, hops: nat)
      returns (r: Option<Resolution>, ghost trail: seq<Exchange>)
      requires depth <= MAX_NS_DEPTH && hops <= MAX_CNAME_HOPS
      modifies this`asked
      ensures Outcome(r, asked) ==
              Resolve(oracle, roots, old(asked), name, qtype, FirstFew(roots), [], cap, depth, hops, 0)
      ensures old(asked) <= asked <= old(asked) + Budget(depth, hops)
      ensures Sound(Around(), r, Question(name, qtype, cap), trail, old(asked), asked, depth, hops)
      decreases MAX_NS_DEPTH - depth, MAX_CNAME_HOPS - hops, 2
    {
      hide Trips, OnTheWay, Sound, Ready, Scanned, ReadReply, ReferralOf, Budget, PerLevel, AskAny, Servers, AnyAsked,
           Serves, Answers;
      ghost var w, q, lo := Around(), Question(name, qtype, cap), asked;
      var current := FirstFew(roots);
      var zone: seq<byte> := [];
      ghost var route := Roots;
      trail := [];
      StartOfTrail(w, q, lo, depth);
      LevelsFit(depth, hops, 0);
      var level := 0;
      while level < MAX_REFERRALS
        invariant 0 <= level <= MAX_REFERRALS && |current| <= MAX_NS_CANDIDATES
        invariant Resolve(oracle, roots, lo, name, qtype, FirstFew(roots), [], cap, depth, hops, 0)
               == Resolve(oracle, roots, asked, name, qtype, current, zone, cap, depth, hops, level)
        invariant lo <= asked <= lo + level * PerLevel(depth)
        invariant OnTheWay(w, trail, q, lo, asked, depth) && Ready(w, trail, q, current, route, zone, asked, depth)
      {
        LevelsFit(depth, hops, level);
        ghost var now := asked;
        var reply, i, attempt, msg := AskLevel(current, name, qtype, zone, cap);
        if reply.None? {
          StopsHere(w, trail, q, lo, now, asked, depth, hops);
          return None, trail;
        }
        ghost var e := Exchange(attempt, current[i], route, zone, name, qtype, msg, cap);
        var Reply(rcode, scan, ref) := reply.value;
        WhatItHolds(e, reply.value);
        NextExchange(w, trail, current, i, e, lo, now, asked, depth);
        StopsHere(w, trail + [e], q, lo, asked, asked, depth, hops);
        if rcode == RCODE_NXDOMAIN {
          EndsHere(w, trail, e, rcode, lo, asked, depth, hops);
          return Some(Resolution(scan.kept, rcode)), trail + [e];
        }
        var found := HasAsked(scan.kept, qtype, name);
        if found {
          EndsHere(w, trail, e, 0, lo, asked, depth, hops);
          return Some(Resolution(scan.kept, 0)), trail + [e];
        }
        if scan.cname != [] && hops < MAX_CNAME_HOPS {
          ghost var mid := asked;
          KeptFitsIn(e);
          var sub, more := ResolveFrom(scan.cname, qtype, MAX_ANSWERS, depth, hops + 1);
          EndsThere(w, trail, e, more, sub, lo, mid, asked, depth, hops);
          trail := trail + [e] + more;
          if sub.None? { return None, trail; }
          var all := AppendTail(scan.kept, sub.value.answers, cap);
          return Some(Resolution(all, sub.value.rcode)), trail;
        }
        if ref.names == [] {
          if rcode == 0 {
            EndsHere(w, trail, e, rcode, lo, asked, depth, hops);
            return Some(Resolution(scan.kept, rcode)), trail + [e];
          }
          return None, trail + [e];
        }
        ghost var mid := asked;
        current, route := NextServers(ref, depth, e);
        ReadyAgain(w, trail, e, current, route, lo, mid, asked, depth);
        trail := trail + [e];
        StopsHere(w, trail, q, lo, asked, asked, depth, hops);
        if current == [] { return None, trail; }
        zone := ref.zone;
        level := level + 1;
      }
      StopsHere(w, trail, q, lo, asked, asked, depth, hops);
      return None, trail;
    }

    /** dns_resolve: unsupported types are declined, a cached answer is served, and what a
        completed resolution yields is stored only if it is an answer or an NXDOMAIN. */
    method ResolveName(name: seq<byte>, qtype: u16, cap: nat, now: int, later: int) returns (ok: bool, r: Resolution)
      requires cache.Valid() && |name| <= 255
      modifies this`asked, cache`count, cache.list, cache.chains, cache.chains.heads, cache.chains.nodes`hnext,
               cache.filter.slots
      modifies cache.Listed()`prev, cache.Listed()`next, cache.Listed()`answers, cache.Listed()`rcode,
               cache.Listed()`expires
      ensures cache.Valid() && forall m :: m in cache.Listed() ==> m in old(cache.Listed()) || fresh(m)
      ensures Supported(qtype) && Got(old(cache.Contents()), name, qtype, cap, now).None?
              ==> asked <= old(asked) + Trips(0)
      ensures var v := old(cache.Contents());
              var hit := Got(v, name, qtype, cap, now);
              if !Supported(qtype) then
                ok && r == Resolution([], RCODE_NOTIMP) && asked == old(asked) && cache.Contents() == v
              else if hit.Some? then
                && ok && r == Resolution(hit.value.answers, hit.value.rcode) && asked == old(asked)
                && cache.Contents() == AfterGet(v, name, qtype, now)
              else
                var o := Resolve(oracle, roots, old(asked), name, qtype, FirstFew(roots), [], cap, 0, 0, 0);
                && asked == o.asked && ok == o.result.Some?
                && r == (if ok then o.result.value else Resolution([], RCODE_SERVFAIL))
                && var left := AfterGet(v, name, qtype, now);
                   cache.Contents() == if ok then Stored(left, name, qtype, r, later) else left
      ensures cap == MAX_ANSWERS && Honest(Around(), old(cache.Contents()), old(asked)) ==>
                && old(asked) <= asked && Honest(Around(), cache.Contents(), asked)
                && (ok && Supported(qtype) ==> Backed(Around(), name, qtype, r, cap, asked))
    {
      hide Resolve, Trips, Sound, Honest, Backed, Got, AfterGet, CacheSpec.Put, DnsCache.Valid, DnsCache.Contents,
           DnsCache.Listed, Budget;
      if !Supported(qtype) { return true, Resolution([], RCODE_NOTIMP); }
      ghost var w, v, start := Around(), cache.Contents(), asked;
      HitIsBacked(w, v, name, qtype, cap, now, start);
      var hit := cache.Get(name, qtype, cap, now);
      GetStaysHonest(w, v, name, qtype, now, start);
      if hit.Some? { return true, Resolution(hit.value.answers, hit.value.rcode); }
      var res, trail := ResolveFrom(name, qtype, cap, 0, 0);
      BudgetIsTrips(0);
      HonestLater(w, cache.Contents(), start, asked);
      if res.None? { return false, Resolution([], RCODE_SERVFAIL); }
      ok, r := true, res.value;
      if cap == MAX_ANSWERS {
        SoundIsBacked(w, r, name, qtype, trail, start, asked);
        StoringStaysHonest(w, cache.Contents(), name, qtype, r, trail, later, start, asked);
      }
      if r.rcode == 0 && |r.answers| > 0 {
        cache.Put(name, qtype, r.answers, r.rcode, later);
      } else if r.rcode == RCODE_NXDOMAIN {
        cache.Put(name, qtype, [], r.rcode, later);
      }
    }
  }

  predicate Supported(qtype: nat) { qtype == TYPE_A || qtype == TYPE_AAAA }

  /** The cache after a completed resolution. */
  function Stored(v: View, name: seq<byte>, qtype: u16, r: Resolution, now: int): View {
    if r.rcode == 0 && |r.answers| > 0 then CacheSpec.Put(v, name, qtype, r.answers, r.rcode, now)
    else if r.rcode == RCODE_NXDOMAIN then CacheSpec.Put(v, name, qtype, [], r.rcode, now)
    else v
  }

  /** Answers and a result code that rest on a resolution which took place before attempt
      hi, of that name up to case. */
  ghost predicate Evidence(w: World, n: seq<byte>, qtype: nat, trail: seq<Exchange>, ans: seq<Answer>, rcode: int,
                           hi: nat)
  {
    && WellReached(w, trail, Question(n, qtype, MAX_ANSWERS), 0, hi, 0)
    && AllProven(trail, n, ans) && Concluded(trail, n, rcode, 0)
  }

  /** An entry is vouched for: answers without error or an NXDOMAIN without answers, either
      way with evidence from a resolution of the name it is filed under. */
  ghost predicate Vouched(w: World, e: Entry, hi: nat) {
    && (if e.answers == [] then e.rcode == RCODE_NXDOMAIN else e.rcode == 0)
    && exists n, trail :: NameEq(n, e.name) && Evidence(w, n, e.qtype, trail, e.answers, e.rcode, hi)
  }

  ghost predicate Honest(w: World, v: View, hi: nat) {
    forall i :: 0 <= i < |v| ==> Vouched(w, v[i], hi)
  }

  /** An answer with the TTL it is served with, proven with the TTL it came with. */
  ghost predicate ProvenOnce(trail: seq<Exchange>, name: seq<byte>, a: Answer) {
    a.ttl < 0x1_0000_0000 && exists ttl: nat :: Proven(trail, name, a.(ttl := ttl))
  }

  ghost predicate AllProvenOnce(trail: seq<Exchange>, name: seq<byte>, ans: seq<Answer>) {
    forall j :: 0 <= j < |ans| ==> ProvenOnce(trail, name, ans[j])
  }

  /** Everything a client is told, the result code included, rests on replies that servers
      it was right to ask really gave before attempt hi. */
  ghost predicate Backed(w: World, name: seq<byte>, qtype: nat, r: Resolution, cap: nat, hi: nat) {
    && |r.answers| <= cap
    && exists n, trail :: && NameEq(n, name) && WellReached(w, trail, Question(n, qtype, MAX_ANSWERS), 0, hi, 0)
                          && AllProvenOnce(trail, n, r.answers) && Concluded(trail, n, r.rcode, 0)
  }

  lemma BackedBy(w: World, n: seq<byte>, trail: seq<Exchange>, name: seq<byte>, qtype: nat, r: Resolution, cap: nat,
                 hi: nat)
    requires |r.answers| <= cap && NameEq(n, name) && WellReached(w, trail, Question(n, qtype, MAX_ANSWERS), 0, hi, 0)
    requires AllProvenOnce(trail, n, r.answers) && Concluded(trail, n, r.rcode, 0)
    ensures Backed(w, name, qtype, r, cap, hi)
  {
    hide WellReached, AllProvenOnce, Concluded, NameEq;
  }

  lemma ProvenItself(trail: seq<Exchange>, name: seq<byte>, a: Answer)
    requires Proven(trail, name, a)
    ensures ProvenOnce(trail, name, a)
  {
    hide Reachable, InReply;
    var t :| 0 <= t < |trail| && Accepts(trail[t], a) && Reachable(trail, name, trail[t].qname);
    SuppliedIsValid(trail[t], a);
    assert a.(ttl := a.ttl) == a;
  }

  lemma SoundIsBacked(w: World, r: Resolution, name: seq<byte>, qtype: nat, trail: seq<Exchange>, lo: nat, hi: nat)
    requires Sound(w, Some(r), Question(name, qtype, MAX_ANSWERS), trail, lo, hi, 0, 0)
    ensures Backed(w, name, qtype, r, MAX_ANSWERS, hi)
  {
    hide WellReached, Concluded, Proven, ProvenOnce, Backed, NameEq;
    forall j | 0 <= j < |r.answers| ensures ProvenOnce(trail, name, r.answers[j]) {
      ProvenItself(trail, name, r.answers[j]);
    }
    SameName(name, name);
    WellReachedEarlier(w, trail, Question(name, qtype, MAX_ANSWERS), lo, 0, hi, 0);
    BackedBy(w, name, trail, name, qtype, r, MAX_ANSWERS, hi);
  }

  lemma HitIsBacked(w: World, v: View, name: seq<byte>, qtype: u16, cap: nat, now: int, hi: nat)
    ensures var hit := Got(v, name, qtype, cap, now);
            Honest(w, v, hi) && hit.Some? ==>
              Backed(w, name, qtype, Resolution(hit.value.answers, hit.value.rcode), cap, hi)
  {
    hide Vouched, Backed, Served;
    if Honest(w, v, hi) && Got(v, name, qtype, cap, now).Some? {
      var e := v[Find(v, name, qtype).value];
      assert Vouched(w, e, hi);
      ServedIsBacked(w, e, name, cap, now, hi);
    }
  }

  lemma ServedIsBacked(w: World, e: Entry, name: seq<byte>, cap: nat, now: int, hi: nat)
    requires Vouched(w, e, hi) && NameEq(e.name, name)
    ensures var hit := Served(e, cap, now); Backed(w, name, e.qtype, Resolution(hit.answers, hit.rcode), cap, hi)
  {
    hide WellReached, Concluded, Proven, Backed;
    var ans := Served(e, cap, now).answers;
    var n, trail :| NameEq(n, e.name) && Evidence(w, n, e.qtype, trail, e.answers, e.rcode, hi);
    forall j | 0 <= j < |ans| ensures ProvenOnce(trail, n, ans[j]) {
      assert ans[j].(ttl := e.answers[j].ttl) == e.answers[j] && Proven(trail, n, e.answers[j]);
    }
    BackedBy(w, n, trail, name, e.qtype, Resolution(ans, e.rcode), cap, hi);
  }

  lemma HonestLater(w: World, v: View, hi: nat, later: nat)
    ensures Honest(w, v, hi) && hi <= later ==> Honest(w, v, later)
  {
    hide WellReached, AllProven, Concluded, NameEq;
    if Honest(w, v, hi) && hi <= later {
      forall i | 0 <= i < |v| ensures Vouched(w, v[i], later) {
        var e := v[i];
        assert Vouched(w, e, hi);
        var n, trail :| NameEq(n, e.name) && Evidence(w, n, e.qtype, trail, e.answers, e.rcode, hi);
        WellReachedLater(w, trail, Question(n, e.qtype, MAX_ANSWERS), 0, hi, later, 0);
        assert Evidence(w, n, e.qtype, trail, e.answers, e.rcode, later);
      }
    }
  }

  lemma HonestWithout(w: World, v: View, k: nat, hi: nat)
    requires Honest(w, v, hi) && k < |v|
    ensures Honest(w, Without(v, k), hi)
  {
    hide Vouched;
    forall i | 0 <= i < |v| - 1 ensures Vouched(w, Without(v, k)[i], hi) {
      WithoutAt(v, k, i);
    }
  }

  lemma GetStaysHonest(w: World, v: View, name: seq<byte>, qtype: u16, now: int, hi: nat)
    ensures Honest(w, v, hi) ==> Honest(w, AfterGet(v, name, qtype, now), hi)
  {
    hide Vouched, Find;
    var at := Find(v, name, qtype);
    if Honest(w, v, hi) && at.Some? {
      HonestWithout(w, v, at.value, hi);
      assert Vouched(w, v[at.value], hi);
    }
  }

  lemma PutStaysHonest(w: World, v: View, name: seq<byte>, qtype: u16, ans: seq<Answer>, rcode: int, now: int, hi: nat)
    requires Honest(w, v, hi)
    requires forall n :: NameEq(n, name) ==>
               Vouched(w, Entry(n, qtype, Kept(ans), rcode, now + Lifetime(Kept(ans))), hi)
    ensures Honest(w, CacheSpec.Put(v, name, qtype, ans, rcode, now), hi)
  {
    hide Vouched, Find, Lifetime, Victim, NameEq;
    var at := Find(v, name, qtype);
    SameName(name, name);
    if at.Some? {
      HonestWithout(w, v, at.value, hi);
    } else if |v| >= CAPACITY {
      HonestWithout(w, v, Victim(v, now), hi);
    }
  }

  lemma KeptEvidence(w: World, name: seq<byte>, qtype: nat, trail: seq<Exchange>, r: Resolution, ans: seq<Answer>,
                     lo: nat, hi: nat)
    requires Sound(w, Some(r), Question(name, qtype, MAX_ANSWERS), trail, lo, hi, 0, 0)
             && (ans == [] || ans == r.answers)
    ensures Evidence(w, name, qtype, trail, Kept(ans), r.rcode, hi)
  {
    hide WellReached, Concluded, Proven;
    WellReachedEarlier(w, trail, Question(name, qtype, MAX_ANSWERS), lo, 0, hi, 0);
  }

  /** What a completed resolution leaves in the cache has evidence, under whatever spelling
      it is filed. */
  lemma StoringStaysHonest(w: World, v: View, name: seq<byte>, qtype: u16, r: Resolution, trail: seq<Exchange>,
                           now: int, lo: nat, hi: nat)
    requires Sound(w, Some(r), Question(name, qtype, MAX_ANSWERS), trail, lo, hi, 0, 0)
    ensures Honest(w, v, hi) ==> Honest(w, Stored(v, name, qtype, r, now), hi)
  {
    hide Honest, CacheSpec.Put, Sound, Evidence, NameEq, Lifetime;
    if Honest(w, v, hi) && (r.rcode == RCODE_NXDOMAIN || (r.rcode == 0 && |r.answers| > 0)) {
      var ans := if r.rcode == 0 then r.answers else [];
      KeptEvidence(w, name, qtype, trail, r, ans, lo, hi);
      forall n | NameEq(n, name)
        ensures Vouched(w, Entry(n, qtype, Kept(ans), r.rcode, now + Lifetime(Kept(ans))), hi)
      {
        SameName(n, name);
      }
      PutStaysHonest(w, v, name, qtype, ans, r.rcode, now, hi);
    }
  }

  lemma Multiply(i: nat, each: nat)
    requires i <= 8
    ensures (i + 1) * each == i * each + each && i * each <= 8 * each && (i < 8 ==> (i + 1) * each <= 8 * each)
  {
  }

  lemma BudgetIsTrips(depth: nat)
    ensures Budget(depth, 0) == Trips(depth)
  {
  }

  lemma StartOfTrail(w: World, q: Question, lo: nat, depth: nat)
    ensures OnTheWay(w, [], q, lo, lo, depth) && Ready(w, [], q, FirstFew(w.roots), Roots, [], lo, depth)
  {
  }

  /** Giving up is sound. */
  lemma StopsHere(w: World, trail: seq<Exchange>, q: Question, lo: nat, now: nat, hi: nat, depth: nat, hops: nat)
    requires OnTheWay(w, trail, q, lo, now, depth) && now <= hi
    ensures Sound(w, None, q, trail, lo, hi, depth, hops)
  {
    hide WellReached;
    WellReachedLater(w, trail, q, lo, now, hi, depth);
  }

  /** The parts of a dissected reply, seen from the exchange. */
  lemma WhatItHolds(e: Exchange, reply: Reply)
    requires Dissected(e.msg, e.qname, e.zone, e.cap) == Some(reply)
    ensures ReadReply(e.msg).Some? && reply.scan == Scanned(e) && reply.ref == ReferralIn(e)
    ensures reply.rcode == RCODE_NXDOMAIN ==> Denies(e)
    ensures AnyAsked(reply.scan.kept, e.qtype, e.qname) ==> Finds(e)
    ensures reply.rcode == 0 && !AnyAsked(reply.scan.kept, e.qtype, e.qname) && reply.ref.names == [] ==>
              forall chased :: reply.scan.cname == [] || chased >= MAX_CNAME_HOPS ==> NoData(e, chased)
  {
    hide ReadReply, Answers, ReferralOf, AnyAsked;
  }

  lemma KeptFitsIn(e: Exchange)
    requires ReadReply(e.msg).Some?
    ensures |Scanned(e).kept| <= e.cap
  {
    hide ReadReply, Answers;
    KeptFits(ReadReply(e.msg).value.answers, e.qname, e.zone, e.cap);
  }

  lemma NestedServes(w: World, e: Exchange, s: Addr, ns: seq<byte>, sub: seq<Exchange>, lo: nat, from: nat, hi: nat,
                     depth: nat)
    requires NamesServer(e, ns) && depth < MAX_NS_DEPTH && lo <= from && AddressFor(sub, ns, s)
    requires WellReached(w, sub, ServerQuestion(ns), from, hi, depth + 1)
    ensures Serves(w, e, s, Nested(ns, sub), lo, hi, depth)
  {
    hide WellReached, AddressFor, NamesServer;
    WellReachedEarlier(w, sub, ServerQuestion(ns), from, lo, hi, depth + 1);
  }

  /** After a referral the next level is ready. */
  lemma ReadyAgain(w: World, trail: seq<Exchange>, e: Exchange, servers: seq<Addr>, route: Route, lo: nat, mid: nat,
                   now: nat, depth: nat)
    requires OnTheWay(w, trail + [e], QuestionOf(e), lo, mid, depth) && mid <= now
    requires ReadReply(e.msg).Some? && ReferralIn(e).names != [] && !route.Roots?
    requires forall i :: 0 <= i < |servers| ==> Serves(w, e, servers[i], route, mid, now, depth)
    ensures OnTheWay(w, trail + [e], QuestionOf(e), lo, now, depth)
    ensures Ready(w, trail + [e], QuestionOf(e), servers, route, ReferralIn(e).zone, now, depth)
  {
    hide ReadReply, ReferralOf, Serves, WellReached, Starts;
    var all := trail + [e];
    WellReachedLater(w, all, QuestionOf(e), lo, mid, now, depth);
    LastIsBefore(w, all, QuestionOf(e), lo, mid, depth);
    assert all[|all| - 1] == e;
    forall i | 0 <= i < |servers| ensures Serves(w, e, servers[i], route, e.attempt + 1, now, depth) {
      ServesLater(w, e, servers[i], route, mid, now, e.attempt + 1, now, depth);
    }
  }

  lemma LastIsBefore(w: World, trail: seq<Exchange>, q: Question, lo: nat, hi: nat, depth: nat)
    requires trail != [] && WellReached(w, trail, q, lo, hi, depth)
    ensures trail[|trail| - 1].attempt < hi
  {
    hide Serves;
    assert ReachedAt(w, trail, |trail| - 1, q, lo, hi, depth);
  }

  /** Levels done, one more level, and what a followed CNAME may use, all fit the budget. */
  lemma LevelsFit(depth: nat, hops: nat, level: nat)
    requires hops <= MAX_CNAME_HOPS && level < MAX_REFERRALS
    ensures PerLevel(depth) == 8 + 8 * if depth >= MAX_NS_DEPTH then 0 else Trips(depth + 1)
    ensures (level + 1) * PerLevel(depth) == level * PerLevel(depth) + PerLevel(depth)
    ensures (level + 1) * PerLevel(depth) <= Budget(depth, hops)
    ensures MAX_REFERRALS * PerLevel(depth) <= Budget(depth, hops)
    ensures hops < MAX_CNAME_HOPS ==> (level + 1) * PerLevel(depth) + Budget(depth, hops + 1) <= Budget(depth, hops)
  {
    var p := PerLevel(depth);
    assert (level + 1) * p <= 16 * p;
    assert (9 - hops) * (16 * p) >= 16 * p;
    if hops < MAX_CNAME_HOPS {
      assert (9 - hops) * (16 * p) == (9 - (hops + 1)) * (16 * p) + 16 * p;
    }
  }
}
