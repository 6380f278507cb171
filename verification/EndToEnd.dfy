/** What a client sees: a query in bytes, the replies upstream gives, and the response read
    back, for a name that is not cached and for one that has just been resolved. */
module EndToEnd {
  import opened Names
  import opened NameCodec
  import opened Wire
  import opened WireRoundTrip
  import opened QueryBuilder
  import opened CacheSpec
  import opened Rescan
  import opened Dissect
  import opened Trail
  import opened Resolver
  import opened Backend
  import opened Runs

  /** A query the server resolves: class IN, type A or AAAA, a name that can be encoded. */
  predicate Resolvable(c: Query) {
    && c.Valid() && WireName(c.name).Some? && c.flags / 0x800 == 0
    && c.qclass == 1 && (c.qtype == 1 || c.qtype == 28)
  }

  /** The question it puts. */
  function Asks(c: Query): Question {
    Question(CString(Canonical(c.name)), c.qtype, 8)
  }

  /** Upstream delegates down to the answer: at most sixteen replies from attempt k on, each
      from the first glue address of the one before, and the last has an answer. */
  ghost predicate Delegated(w: World, q: Question, msgs: seq<seq<byte>>, k: nat) {
    && 1 <= |msgs| <= 16
    && (forall t :: 0 <= t < |msgs| ==> FirstSays(w, q, msgs, k, t))
    && (forall t :: 0 <= t < |msgs| - 1 ==> JustRefers(q, Downward(w, q, msgs, k, t)))
    && var last := Downward(w, q, msgs, k, |msgs| - 1); SectionsOf(last).rcode != 3 && HasAnswer(q, last)
  }

  /** What was kept of that last reply. */
  function Found(w: World, q: Question, msgs: seq<seq<byte>>, k: nat): seq<Answer>
    requires |msgs| > 0
  {
    ScanOf(q, Downward(w, q, msgs, k, |msgs| - 1)).kept
  }

  lemma KeptIsValid(q: Question, l: Level)
    requires ReadReply(l.msg).Some?
    ensures AllValid(ScanOf(q, l).kept) && |ScanOf(q, l).kept| <= q.cap
  {
    hide ReadReply, Rescan.Answers, Supplies, InReply, Reachable;
    var e := Exchange(0, [], Roots, l.zone, q.name, q.qtype, l.msg, q.cap);
    var kept := ScanOf(q, l).kept;
    assert kept == Scanned(e).kept;
    KeptProven(e);
    KeptFits(ReadReply(l.msg).value.answers, q.name, l.zone, q.cap);
    forall i | 0 <= i < |kept| ensures kept[i].Valid() {
      assert Proven([e], q.name, kept[i]);
      var t :| 0 <= t < |[e]| && Accepts([e][t], kept[i]) && Reachable([e], q.name, [e][t].qname);
      SuppliedIsValid([e][t], kept[i]);
    }
  }

  /** A name that is not cached: the client is told exactly what the last reply says, after as
      many attempts as there are delegations. */
  lemma ColdQueryIsResolved(w: World, c: Query, msgs: seq<seq<byte>>, m: Moment, now: int, later: int)
    requires Resolvable(c) && Delegated(w, Asks(c), msgs, m.asked)
    requires Got(m.view, Asks(c).name, c.qtype, 8, now).None?
    ensures ParseQuery(QueryBytes(c)) == Some(ReadQuery(c))
    ensures var s, kept := Serve(w, ReadQuery(c), m, now, later), Found(w, Asks(c), msgs, m.asked);
            && s.result == Resolution(kept, 0) && s.after.asked == m.asked + |msgs| && kept != []
            && s.after.view ==
               CacheSpec.Put(AfterGet(m.view, Asks(c).name, c.qtype, now), Asks(c).name, c.qtype, kept, 0, later)
  {
    hide QueryBytes, Got, AfterGet, CacheSpec.Put, Downward, ScanOf, SectionsOf, JustRefers, FirstSays, Resolve;
    hide WireName, ParseQuery, CString, Canonical;
    QueryReadsBack(c);
    ChainIsFollowed(w, Asks(c), msgs, m.asked, 0, 0);
  }

  /** ... and the response that leaves reads back as that: the same id and question, no error,
      and the answers found, all of them unless the response is marked truncated. */
  lemma ColdResponseReadsBack(w: World, c: Query, msgs: seq<seq<byte>>, k: nat, udp: bool, cap: nat)
    requires Resolvable(c) && Delegated(w, Asks(c), msgs, k) && cap >= 512
    ensures ParseQuery(QueryBytes(c)) == Some(ReadQuery(c))
    ensures var query, q := QueryBytes(c), ReadQuery(c);
            && HDR_LEN + q.rawLen <= |query| && HDR_LEN + q.rawLen <= AnswerLimit(q, udp, cap)
            && var kept := Found(w, Asks(c), msgs, k);
               var e := Section(q, kept, 0, AnswerLimit(q, udp, cap));
            && ReadsAs(Response(query, q, kept, 0, udp, cap), query, q, e, 0) && Says(e, kept, 0)
  {
    hide QueryBytes, ReadQuery, ParseQuery, OwnQuestion, Response, ReadsAs, Says, ScanOf, JustRefers, AnswerLimit;
    hide WireName, ReadReply, Section, Limit, SectionsOf, HasAnswer;
    var last := Downward(w, Asks(c), msgs, k, |msgs| - 1);
    assert FirstSays(w, Asks(c), msgs, k, |msgs| - 1);
    DownwardShape(w, Asks(c), msgs, k, |msgs| - 1);
    QueryReadsBack(c);
    QueryIsOwn(c);
    KeptIsValid(Asks(c), last);
    ResponseReadsBack(QueryBytes(c), ReadQuery(c), ScanOf(Asks(c), last).kept, 0, udp, cap);
  }

  lemma FreshHits(v: View, name: seq<byte>, qtype: nat, ans: seq<Answer>, rcode: int, put: int, life: nat, now: int)
    requires qtype < 65536 && |ans| <= 8 && Lives(ans, life) && put + life > now
    ensures Got(CacheSpec.Put(v, name, qtype, ans, rcode, put), name, qtype, 8, now) ==
            Some(Hit(WithTtl(ans, (put + life - now) % 0x1_0000_0000), rcode))
  {
    hide NameEq, Behind, Lives, Lifetime, WithTtl;
    KeptIsFirstEight(ans);
    LifetimeExactly(ans, life);
    SameName(name, name);
    assert (if |ans| < 8 then ans else ans[..8]) == ans;
    var e := CacheSpec.Put(v, name, qtype, ans, rcode, put)[0];
    assert HasKey(e, name, qtype) && e.answers == ans && e.expires == put + life;
  }

  /** The same question again, before the answer's time is up: it is served from the cache with
      the time that is left, and nobody is asked. */
  lemma WarmQueryIsServed(w: World, c: Query, msgs: seq<seq<byte>>, m: Moment, now: int, later: int,
                          life: nat, again: int, end: int)
    requires Resolvable(c) && Delegated(w, Asks(c), msgs, m.asked)
    requires Got(m.view, Asks(c).name, c.qtype, 8, now).None?
    requires Lives(Found(w, Asks(c), msgs, m.asked), life) && again < later + life
    ensures var first := Serve(w, ReadQuery(c), m, now, later);
            var second := Serve(w, ReadQuery(c), first.after, again, end);
            && second.result == Resolution(WithTtl(first.result.answers, (later + life - again) % 0x1_0000_0000), 0)
            && second.after.asked == first.after.asked
  {
    hide Downward, ScanOf, Got, AfterGet, CacheSpec.Put, SectionsOf, JustRefers, Resolve, Lives, WithTtl, WireName;
    hide QueryBytes, ParseQuery, CString, Canonical, ReadReply;
    var q, kept := Asks(c), Found(w, Asks(c), msgs, m.asked);
    ColdQueryIsResolved(w, c, msgs, m, now, later);
    assert FirstSays(w, q, msgs, m.asked, |msgs| - 1);
    DownwardShape(w, q, msgs, m.asked, |msgs| - 1);
    KeptIsValid(q, Downward(w, q, msgs, m.asked, |msgs| - 1));
    FreshHits(AfterGet(m.view, q.name, c.qtype, now), q.name, c.qtype, kept, 0, later, life, again);
  }

  /** What cannot be resolved is told as server failure (2), what is not supported as not
      implemented (4), and neither changes what is cached but for an expired entry. */
  lemma FailureIsTold(w: World, q: QueryInfo, m: Moment, now: int, later: int)
    requires q.qtype < 65536
    ensures q.qclass != 1 || q.qtype !in {1, 28} ==> Serve(w, q, m, now, later) == Service(Resolution([], 4), m)
    ensures q.qclass == 1 && q.qtype in {1, 28} && Got(m.view, q.name, q.qtype, 8, now).None?
            && Whole(w, Question(q.name, q.qtype, 8), m.asked, 0, 0).result.None? ==>
              && Serve(w, q, m, now, later).result == Resolution([], 2)
              && Serve(w, q, m, now, later).after.view == AfterGet(m.view, q.name, q.qtype, now)
  {
    hide Got, AfterGet, Resolve;
  }

  /** A denial (3) is remembered for a minute. */
  lemma DenialIsRemembered(w: World, q: QueryInfo, m: Moment, now: int, later: int, again: int, end: int)
    requires q.qclass == 1 && q.qtype in {1, 28} && Got(m.view, q.name, q.qtype, 8, now).None?
    requires var o := Whole(w, Question(q.name, q.qtype, 8), m.asked, 0, 0); o.result.Some? && o.result.value.rcode == 3
    requires again < later + 60
    ensures var first := Serve(w, q, m, now, later);
            var second := Serve(w, q, first.after, again, end);
            second.result == Resolution([], 3) && second.after.asked == first.after.asked
  {
    hide Got, AfterGet, Resolve, CacheSpec.Put, WithTtl;
    FreshHits(AfterGet(m.view, q.name, q.qtype, now), q.name, q.qtype, [], 3, later, 60, again);
    assert forall ttl: nat :: WithTtl([], ttl) == [];
  }
}
