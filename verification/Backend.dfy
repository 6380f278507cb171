/** dns_resolve_query of dns_backend.c: parse, resolve, build; what both transports call. */
module Backend {
  import opened Names
  import opened NameCodec
  import opened Buffers
  import opened Wire
  import opened ResponseBuilder
  import opened CacheSpec
  import opened Cache
  import opened Trail
  import opened Resolver

  lemma BackedIsValid(w: World, name: seq<byte>, qtype: nat, r: Resolution, cap: nat, hi: nat)
    requires Backed(w, name, qtype, r, cap, hi)
    ensures AllValid(r.answers)
  {
    hide WellReached, Concluded, ProvenOnce, NameEq;
    var n, trail :| && NameEq(n, name) && WellReached(w, trail, Question(n, qtype, MAX_ANSWERS), 0, hi, 0)
                    && AllProvenOnce(trail, n, r.answers) && Concluded(trail, n, r.rcode, 0);
    forall j | 0 <= j < |r.answers| ensures r.answers[j].Valid() {
      OneIsValid(trail, n, r.answers[j]);
    }
  }

  lemma OneIsValid(trail: seq<Exchange>, name: seq<byte>, a: Answer)
    requires ProvenOnce(trail, name, a)
    ensures a.Valid()
  {
    hide Supplies, InReply, Reachable;
    var ttl: nat :| Proven(trail, name, a.(ttl := ttl));
    var t :| 0 <= t < |trail| && Accepts(trail[t], a.(ttl := ttl)) && Reachable(trail, name, trail[t].qname);
    SuppliedIsValid(trail[t], a.(ttl := ttl));
  }

  lemma {:induction false} CStringShorter(s: seq<byte>)
    ensures |CString(s)| <= |s|
  {
    if s != [] && s[0] != 0 { CStringShorter(s[1..]); }
  }

  /** A question the parser accepts has a name and a type the cache can file. */
  lemma QuestionFiles(query: seq<byte>, q: QueryInfo)
    requires ParseQuery(query) == Some(q)
    ensures |q.name| <= 255 && q.qtype < 0x1_0000
  {
    hide Decode;
    DecodeBounds(query, HDR_LEN);
    CStringShorter(Decode(query, HDR_LEN, MAX_NAME + 1).value.text);
  }

  /** A query, how it came, the room for its reply, and the clock before and after resolving. */
  datatype Request = Request(query: seq<byte>, udp: bool, cap: nat, now: int, later: int)

  /** What the backend has between two queries: the cached entries and the attempts made. */
  datatype Moment = Moment(view: View, asked: nat)

  /** One query's result, and the moment after it. */
  datatype Service = Service(result: Resolution, after: Moment)

  /** What is done for a question: outside class IN and the two address types nothing; a
      cached answer is served and moved to the front; otherwise the question is resolved from
      the roots, and what that yields is stored. */
  function Serve(w: World, q: QueryInfo, m: Moment, now: int, later: int): Service
    requires q.qtype < 0x1_0000
  {
    if q.qclass != CLASS_IN || !Supported(q.qtype) then Service(Resolution([], RCODE_NOTIMP), m)
    else
      var hit := Got(m.view, q.name, q.qtype, MAX_ANSWERS, now);
      var v := AfterGet(m.view, q.name, q.qtype, now);
      if hit.Some? then Service(Resolution(hit.value.answers, hit.value.rcode), m.(view := v))
      else
        var o := Resolve(w.oracle, w.roots, m.asked, q.name, q.qtype, FirstFew(w.roots), [], MAX_ANSWERS, 0, 0, 0);
        if o.result.None? then Service(Resolution([], RCODE_SERVFAIL), Moment(v, o.asked))
        else Service(o.result.value, Moment(Stored(v, q.name, q.qtype, o.result.value, later), o.asked))
  }

  /** What the client is told is exactly that; and unless it is a refusal or a failure, all of
      it rests on replies that were given by then. */
  ghost predicate Told(w: World, q: QueryInfo, r: Resolution, m: Moment, after: Moment, now: int, later: int) {
    && q.qtype < 0x1_0000 && Serve(w, q, m, now, later) == Service(r, after)
    && (if r.rcode == RCODE_NOTIMP || r.rcode == RCODE_SERVFAIL then r.answers == []
        else Backed(w, q.name, q.qtype, r, MAX_ANSWERS, after.asked))
  }

  /** The bytes are the specified response to the query, within the limit of its transport,
      for what the client is told. */
  ghost predicate Answers(w: World, q: Request, reply: seq<byte>, r: Resolution, m: Moment, after: Moment) {
    && ParseQuery(q.query).Some?
    && var p := ParseQuery(q.query).value;
       && Told(w, p, r, m, after, q.now, q.later)
       && HDR_LEN + p.rawLen <= |q.query| && HDR_LEN + p.rawLen <= AnswerLimit(p, q.udp, q.cap)
       && reply == Response(q.query, p, r.answers, r.rcode, q.udp, q.cap) && |reply| <= Limit(p, q.udp, q.cap)
  }

  lemma BackedIsNoFailure(w: World, name: seq<byte>, qtype: nat, r: Resolution, cap: nat, hi: nat)
    requires Backed(w, name, qtype, r, cap, hi)
    ensures r.rcode == 0 || r.rcode == RCODE_NXDOMAIN
  {
    hide WellReached, AllProvenOnce, NameEq, Reachable, Denies, Finds, NoData;
  }

  ghost function Now(resolver: DnsResolver): Moment
    reads resolver, resolver.cache, resolver.cache.list, resolver.cache.list.items
  {
    Moment(resolver.cache.Contents(), resolver.asked)
  }

  /** dns_resolve_query.  A query is dropped exactly when it does not parse.  Otherwise the
      buffer holds the specified response, within its limit, to what the client is told, and
      the cache stays honest. */
  method ResolveQuery(resolver: DnsResolver, q: Request, out: Buffer) returns (ok: bool, ghost r: Resolution)
    requires resolver.cache.Valid() && Honest(resolver.Around(), resolver.cache.Contents(), resolver.asked)
    requires out.Valid() && out.len == 0 && out.data.Length == q.cap >= 512 && out.data != resolver.cache.filter.slots
    modifies resolver`asked, resolver.cache`count, resolver.cache.list, resolver.cache.chains,
             resolver.cache.chains.heads
    modifies resolver.cache.chains.nodes`hnext, resolver.cache.filter.slots
    modifies resolver.cache.Listed()`prev, resolver.cache.Listed()`next, resolver.cache.Listed()`answers
    modifies resolver.cache.Listed()`rcode, resolver.cache.Listed()`expires
    modifies out`len, out.data
    ensures resolver.cache.Valid() && Honest(resolver.Around(), resolver.cache.Contents(), resolver.asked)
    ensures forall m :: m in resolver.cache.Listed() ==> m in old(resolver.cache.Listed()) || fresh(m)
    ensures out.Valid() && (ok <==> ParseQuery(q.query).Some?)
    ensures if ok then Answers(resolver.Around(), q, out.Contents(), r, old(Now(resolver)), Now(resolver))
            else Now(resolver) == old(Now(resolver))
  {
    hide ParseQuery, Honest, Backed, Response, AllValid, Resolve, Got, AfterGet, Stored;
    hide DnsCache.Valid, DnsCache.Contents, DnsCache.Listed;
    ghost var before := Now(resolver);
    r := Resolution([], RCODE_NOTIMP);
    var parsed := ParseQuery(q.query);
    if parsed.None? { return false, r; }
    var p := parsed.value;
    QuestionFiles(q.query, p);
    var res := Resolution([], RCODE_NOTIMP);
    NoneIsValid();
    if p.qclass == CLASS_IN {
      var done, found := resolver.ResolveName(p.name, p.qtype, MAX_ANSWERS, q.now, q.later);
      res := found;
      if done && Supported(p.qtype) {
        BackedIsValid(resolver.Around(), p.name, p.qtype, res, MAX_ANSWERS, resolver.asked);
        BackedIsNoFailure(resolver.Around(), p.name, p.qtype, res, MAX_ANSWERS, resolver.asked);
      }
    }
    r := res;
    ghost var after := Now(resolver);
    assert Told(resolver.Around(), p, r, before, after, q.now, q.later);
    hide Told, Serve;
    ResponseFits(q.query, p, res.answers, res.rcode, q.udp, q.cap);
    ok := BuildResponse(q.query, p, res.answers, res.rcode, q.udp, out);
    assert Now(resolver) == after;
  }

  lemma NoneIsValid()
    ensures AllValid([])
  {
  }

  /** A dropped query did not parse and changed nothing; any other got a reply that answers it. */
  ghost predicate Justified(w: World, q: Request, reply: Option<seq<byte>>, m: Moment, after: Moment) {
    if reply.None? then ParseQuery(q.query).None? && after == m
    else exists r :: Answers(w, q, reply.value, r, m, after)
  }

  lemma JustifiedBy(w: World, q: Request, reply: seq<byte>, r: Resolution, m: Moment, after: Moment)
    requires Answers(w, q, reply, r, m, after)
    ensures Justified(w, q, Some(reply), m, after)
  {
    hide Answers;
  }

  /** One request into a buffer of its own. */
  method ServeOne(resolver: DnsResolver, q: Request) returns (reply: Option<seq<byte>>)
    requires resolver.cache.Valid() && Honest(resolver.Around(), resolver.cache.Contents(), resolver.asked)
             && q.cap >= 512
    modifies resolver`asked, resolver.cache`count, resolver.cache.list, resolver.cache.chains,
             resolver.cache.chains.heads
    modifies resolver.cache.chains.nodes`hnext, resolver.cache.filter.slots
    modifies resolver.cache.Listed()`prev, resolver.cache.Listed()`next, resolver.cache.Listed()`answers
    modifies resolver.cache.Listed()`rcode, resolver.cache.Listed()`expires
    ensures resolver.cache.Valid() && Honest(resolver.Around(), resolver.cache.Contents(), resolver.asked)
    ensures forall m :: m in resolver.cache.Listed() ==> m in old(resolver.cache.Listed()) || fresh(m)
    ensures Justified(resolver.Around(), q, reply, old(Now(resolver)), Now(resolver))
  {
    hide Honest, Justified, Answers, ParseQuery, DnsCache.Valid, DnsCache.Contents, DnsCache.Listed;
    ghost var before := Now(resolver);
    var out := new Buffer(q.cap);
    assert Now(resolver) == before;
    var ok, r := ResolveQuery(resolver, q, out);
    if ok {
      reply := Some(out.data[..out.len]);
      JustifiedBy(resolver.Around(), q, reply.value, r, before, Now(resolver));
    } else {
      reply := None;
      DroppedUnparsed(resolver.Around(), q, before, Now(resolver));
    }
  }

  /** Every run: from a fresh cache, whatever is asked, whatever the servers say and however
      the clock moves, every reply is justified.  moments[i] is what the backend has before
      request i: at first nothing, then what serving the request before has left. */
  method ServeAll(oracle: Oracle, roots: seq<Addr>, filtered: bool, requests: seq<Request>)
      returns (replies: seq<Option<seq<byte>>>, ghost moments: seq<Moment>)
    requires forall i :: 0 <= i < |requests| ==> requests[i].cap >= 512
    ensures |replies| == |requests| && |moments| == |requests| + 1 && moments[0] == Moment([], 0)
    ensures forall i :: 0 <= i < |requests| ==>
              Justified(World(oracle, roots), requests[i], replies[i], moments[i], moments[i + 1])
  {
    hide Honest, Justified, Answers, DnsCache.Valid, DnsCache.Contents, DnsCache.Listed;
    ghost var w := World(oracle, roots);
    var cache := new DnsCache(filtered);
    var resolver := new DnsResolver(oracle, roots, cache);
    EmptyIsHonest(w);
    cache.NothingListed();
    replies, moments := [], [Now(resolver)];
    for i := 0 to |requests|
      invariant cache.Valid() && Honest(w, cache.Contents(), resolver.asked)
      invariant forall m :: m in cache.Listed() ==> fresh(m)
      invariant |replies| == i && |moments| == i + 1 && moments[0] == Moment([], 0) && moments[i] == Now(resolver)
      invariant forall j :: 0 <= j < i ==> Justified(w, requests[j], replies[j], moments[j], moments[j + 1])
    {
      cache.ChainedIsListed();
      var reply := ServeOne(resolver, requests[i]);
      replies := replies + [reply];
      moments := moments + [Now(resolver)];
    }
  }

  lemma DroppedUnparsed(w: World, q: Request, m: Moment, after: Moment)
    requires ParseQuery(q.query).None? && after == m
    ensures Justified(w, q, None, m, after)
  {
    hide ParseQuery, Answers;
  }

  lemma EmptyIsHonest(w: World)
    ensures Honest(w, [], 0)
  {
  }
}
