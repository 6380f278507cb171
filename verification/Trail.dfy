/** What a resolution may rest on: the replies it accepted, each from servers reached for a
    zone, and the CNAMEs those replies carried. */
module Trail {
  import opened Names
  import opened NameCodec
  import opened Wire
  import opened Rescan
  import opened Dissect

  const MAX_NS_DEPTH := 3
  const RCODE_NXDOMAIN := 3

  /** An IPv4 address. */
  type Addr = seq<byte>

  /** Attempt number, server, name and type to the datagram query_server accepts, if any. */
  type Oracle = (nat, Addr, seq<byte>, nat) -> Option<seq<byte>>

  /** What upstream will say to each attempt, and the root servers' addresses. */
  datatype World = World(oracle: Oracle, roots: seq<Addr>)

  /** How the server of an exchange was found: it is a root server, or the reply before gave
      its address as glue, or the reply before named it and a nested resolution of that name
      found its address. */
  datatype Route = Roots | Glue | Nested(ns: seq<byte>, trail: seq<Exchange>)

  /** An accepted reply: which attempt at which server, reached how and for which zone, what
      was asked, the bytes that came back, and the room there was for answers. */
  datatype Exchange = Exchange(attempt: nat, server: Addr, route: Route, zone: seq<byte>, qname: seq<byte>, qtype: nat,
                               msg: seq<byte>, cap: nat)

  /** What is being resolved, with the room there is for answers. */
  datatype Question = Question(name: seq<byte>, qtype: nat, cap: nat)

  function QuestionOf(e: Exchange): Question {
    Question(e.qname, e.qtype, e.cap)
  }

  /** A CNAME's target is resolved with a room of its own. */
  function Chasing(q: Question, cname: seq<byte>): Question {
    Question(cname, q.qtype, MAX_ANSWERS)
  }

  /** A server's address is looked up as a question of its own. */
  function ServerQuestion(ns: seq<byte>): Question {
    Question(ns, TYPE_A, MAX_ANSWERS)
  }

  function FirstFew(servers: seq<Addr>): seq<Addr> {
    if |servers| < MAX_NS_CANDIDATES then servers else servers[..MAX_NS_CANDIDATES]
  }

  /** The reply's answer section holds the record of this answer, of class IN and owned inside
      the server's zone. */
  ghost predicate Supplies(e: Exchange, a: Answer) {
    && ReadReply(e.msg).Some? && InBailiwick(a.owner, e.zone)
    && exists rr :: rr in AnswerRecords(e.msg) && rr.rclass == 1 && Carries(e.msg, rr, a)
  }

  predicate RecOk(r: Rec) {
    0 !in r.name && r.ttl < 0x1_0000_0000 && (r.target.Some? ==> 0 !in r.target.value)
  }

  lemma {:induction false} SectionOk(msg: seq<byte>, off: nat, n: nat)
    requires ReadSection(msg, off, n).Some?
    ensures forall r :: r in ReadSection(msg, off, n).value.recs ==> RecOk(r)
    decreases n
  {
    hide ParseRR, ToRec, RecOk, ReadSection;
    if n == 0 {
      assert ReadSection(msg, off, 0) == Some(Read([], off)) by { NothingRead(msg, off); }
    } else {
      ReadStep(msg, off, n);
      ParsedOk(msg, off);
      SectionOk(msg, ParseRR(msg, off).value.next, n - 1);
    }
  }

  lemma ParsedOk(msg: seq<byte>, off: nat)
    requires ParseRR(msg, off).Some?
    ensures RecOk(ToRec(msg, ParseRR(msg, off).value.rr))
  {
    hide Decode;
    var p := ParseRR(msg, off).value.rr;
    CStringHasNoNul(Decode(msg, off, MAX_NAME + 1).value.text);
    var d := Decode(msg, p.rdata, MAX_NAME + 1);
    if d.Some? { CStringHasNoNul(d.value.text); }
  }

  lemma {:induction false} CStringHasNoNul(s: seq<byte>)
    ensures 0 !in CString(s)
  {
    if s != [] && s[0] != 0 { CStringHasNoNul(s[1..]); }
  }

  lemma CarriedIsValid(msg: seq<byte>, rr: RR, a: Answer)
    requires RecOk(ToRec(msg, rr)) && Carries(msg, rr, a)
    ensures a.Valid()
  {
    hide Decode, CString;
    if a.data.CNameData? { assert NameAt(msg, rr.rdata) == Some(a.data.target); }
  }

  /** What a reply supplies fits struct dns_answer. */
  lemma SuppliedIsValid(e: Exchange, a: Answer)
    requires Supplies(e, a)
    ensures a.Valid()
  {
    hide InBailiwick, ParseRRs, SkipQuestions, ReadWhileGood, Decode, CString;
    var rr :| rr in AnswerRecords(e.msg) && rr.rclass == 1 && Carries(e.msg, rr, a);
    var h := ParseHeader(e.msg).value;
    SectionOk(e.msg, SkipQuestions(e.msg, HDR_LEN, h.qdcount).value, h.ancount);
    var i :| 0 <= i < |AnswerRecords(e.msg)| && AnswerRecords(e.msg)[i] == rr;
    assert ToRec(e.msg, rr) == ReadReply(e.msg).value.answers[i];
    CarriedIsValid(e.msg, rr, a);
  }

  /** The name is the one this reply was asked about, or is reached from it by CNAMEs of this
      very reply that the server may speak for: it is in every set closed under those. */
  ghost predicate InReply(e: Exchange, x: seq<byte>) {
    && ReadReply(e.msg).Some?
    && forall names :: Closed(names, ReadReply(e.msg).value.answers, e.qname, e.zone) ==> Lower(x) in names
  }

  /** If the set holds the name this reply was asked about, it holds all names on its chain. */
  ghost predicate LinksInside(names: set<seq<byte>>, e: Exchange) {
    Lower(e.qname) in names ==> forall x :: InReply(e, x) ==> Lower(x) in names
  }

  /** The set contains the name and is closed under the chain of every reply of the trail. */
  ghost predicate TrailClosed(names: set<seq<byte>>, trail: seq<Exchange>, name: seq<byte>) {
    Lower(name) in names && forall t :: 0 <= t < |trail| ==> LinksInside(names, trail[t])
  }

  /** A name is reachable if it is in every closed set. */
  ghost predicate Reachable(trail: seq<Exchange>, name: seq<byte>, target: seq<byte>) {
    forall names :: TrailClosed(names, trail, name) ==> Lower(target) in names
  }

  /** The reply is one that dissect takes the answer from: it holds its record, and the owner
      is on the chain of this reply. */
  ghost predicate Accepts(e: Exchange, a: Answer) {
    Supplies(e, a) && InReply(e, a.owner)
  }

  /** The answer was accepted from a reply of the trail, and the name that reply was asked
      about is reachable from the name by the chains of the trail. */
  ghost predicate Proven(trail: seq<Exchange>, name: seq<byte>, a: Answer) {
    exists t :: 0 <= t < |trail| && Accepts(trail[t], a) && Reachable(trail, name, trail[t].qname)
  }

  ghost predicate AllProven(trail: seq<Exchange>, name: seq<byte>, ans: seq<Answer>) {
    forall j :: 0 <= j < |ans| ==> Proven(trail, name, ans[j])
  }

  lemma TrailClosedPart(names: set<seq<byte>>, a: seq<Exchange>, b: seq<Exchange>, name: seq<byte>)
    requires TrailClosed(names, a + b, name)
    ensures TrailClosed(names, a, name)
    ensures forall t :: 0 <= t < |b| ==> LinksInside(names, b[t])
  {
    hide LinksInside;
    assert forall t :: 0 <= t < |a| ==> a[t] == (a + b)[t];
    assert forall t :: 0 <= t < |b| ==> b[t] == (a + b)[|a| + t];
  }

  lemma ReachableGrows(a: seq<Exchange>, b: seq<Exchange>, name: seq<byte>, target: seq<byte>)
    requires Reachable(a, name, target)
    ensures Reachable(a + b, name, target)
  {
    hide TrailClosed;
    forall names | TrailClosed(names, a + b, name) ensures Lower(target) in names {
      TrailClosedPart(names, a, b, name);
    }
  }

  /** More replies take nothing away. */
  lemma ProvenGrows(a: seq<Exchange>, b: seq<Exchange>, name: seq<byte>, ans: seq<Answer>)
    requires AllProven(a, name, ans)
    ensures AllProven(a + b, name, ans)
  {
    hide Accepts, Reachable;
    forall j | 0 <= j < |ans| ensures Proven(a + b, name, ans[j]) {
      assert Proven(a, name, ans[j]);
      var t :| 0 <= t < |a| && Accepts(a[t], ans[j]) && Reachable(a, name, a[t].qname);
      ReachableGrows(a, b, name, a[t].qname);
      assert (a + b)[t] == a[t];
    }
  }

  /** Following a CNAME: what is proven from its target is proven from the name. */
  lemma ProvenThrough(a: seq<Exchange>, b: seq<Exchange>, name: seq<byte>, cname: seq<byte>, ans: seq<Answer>)
    requires Reachable(a, name, cname) && AllProven(b, cname, ans)
    ensures AllProven(a + b, name, ans)
  {
    hide Accepts, Reachable;
    forall j | 0 <= j < |ans| ensures Proven(a + b, name, ans[j]) {
      assert Proven(b, cname, ans[j]);
      var t :| 0 <= t < |b| && Accepts(b[t], ans[j]) && Reachable(b, cname, b[t].qname);
      ReachableThrough(a, b, name, cname, b[t].qname);
      assert (a + b)[|a| + t] == b[t];
    }
  }

  lemma ClosedThrough(names: set<seq<byte>>, a: seq<Exchange>, b: seq<Exchange>, name: seq<byte>, cname: seq<byte>)
    requires TrailClosed(names, a + b, name) && Reachable(a, name, cname)
    ensures TrailClosed(names, b, cname)
  {
    hide LinksInside;
    TrailClosedPart(names, a, b, name);
  }

  /** What dissect takes from the reply's answer section. */
  function Scanned(e: Exchange): Scan
    requires ReadReply(e.msg).Some?
  {
    Answers(ReadReply(e.msg).value.answers, e.qname, e.zone, e.cap)
  }

  /** The answers dissect keeps are proven by the reply they came from. */
  lemma KeptProven(e: Exchange)
    requires ReadReply(e.msg).Some?
    ensures AllProven([e], e.qname, Scanned(e).kept)
  {
    hide ReadReply, Answers, Eligible, Lower, InBailiwick, Closed, Reachable;
    var recs := ReadReply(e.msg).value.answers;
    var kept := Scanned(e).kept;
    ReachableItself([e], e.qname);
    forall j | 0 <= j < |kept| ensures Proven([e], e.qname, kept[j]) {
      KeptIsAccepted(recs, e.qname, e.zone, e.cap, j);
      var r :| r in recs && Eligible(r, e.zone) && ToAnswer(r) == Some(kept[j]);
      var _ := TakenIsCarried(e.msg, r, e.zone);
      assert Accepts([e][0], kept[j]);
    }
  }

  lemma CnameReachable(e: Exchange)
    requires ReadReply(e.msg).Some? && Scanned(e).cname != []
    ensures Reachable([e], e.qname, Scanned(e).cname)
  {
    hide ReadReply, Answers, Leads, TargetOf, ScanAll, Lower;
    var recs := ReadReply(e.msg).value.answers;
    var s := Scanned(e);
    CnameIsLast(recs, e.qname, e.zone, e.cap);
    assert InReply(e, s.cname);
    forall names | TrailClosed(names, [e], e.qname) ensures Lower(s.cname) in names {
      assert LinksInside(names, [e][0]);
    }
  }

  /** Earlier replies in front change nothing: closure only gets stronger. */
  lemma ReachableAfter(a: seq<Exchange>, e: Exchange, name: seq<byte>, target: seq<byte>)
    requires Reachable([e], name, target)
    ensures Reachable(a + [e], name, target)
  {
    hide LinksInside;
    forall names | TrailClosed(names, a + [e], name) ensures TrailClosed(names, [e], name) {
      TrailClosedPart(names, a, [e], name);
    }
  }

  lemma ProvenAfter(a: seq<Exchange>, e: Exchange, name: seq<byte>, ans: seq<Answer>)
    requires AllProven([e], name, ans)
    ensures AllProven(a + [e], name, ans)
  {
    hide Accepts, Reachable;
    forall j | 0 <= j < |ans| ensures Proven(a + [e], name, ans[j]) {
      assert Proven([e], name, ans[j]);
      ReachableAfter(a, e, name, e.qname);
      assert (a + [e])[|a|] == e;
    }
  }

  /** Answers of the hops so far, then of the CNAME's target, are proven together. */
  lemma ChasedProven(a: seq<Exchange>, b: seq<Exchange>, name: seq<byte>, cname: seq<byte>, ans: seq<Answer>,
                     tail: seq<Answer>, cap: nat)
    requires AllProven(a, name, ans) && Reachable(a, name, cname) && AllProven(b, cname, tail)
    ensures AllProven(a + b, name, Cut(ans + tail, cap)) && |Cut(ans + tail, cap)| <= cap
  {
    hide Proven, Reachable;
    ProvenGrows(a, b, name, ans);
    ProvenThrough(a, b, name, cname, tail);
    forall j | 0 <= j < |Cut(ans + tail, cap)| ensures Proven(a + b, name, Cut(ans + tail, cap)[j]) {
      assert Cut(ans + tail, cap)[j] == if j < |ans| then ans[j] else tail[j - |ans|];
    }
  }

  lemma ReachableThrough(a: seq<Exchange>, b: seq<Exchange>, name: seq<byte>, cname: seq<byte>, target: seq<byte>)
    requires Reachable(a, name, cname) && Reachable(b, cname, target)
    ensures Reachable(a + b, name, target)
  {
    hide TrailClosed;
    forall names | TrailClosed(names, a + b, name) ensures Lower(target) in names {
      ClosedThrough(names, a, b, name, cname);
    }
  }

  lemma ReachableItself(trail: seq<Exchange>, name: seq<byte>)
    ensures Reachable(trail, name, name)
  {
    hide LinksInside, Lower;
  }

  // ---------------------------------------------------------------- servers

  function ReferralIn(e: Exchange): Referral
    requires ReadReply(e.msg).Some?
  {
    ReferralOf(ReadReply(e.msg).value, e.qname, e.zone)
  }

  /** `zone` is where the referral in this reply leads. */
  ghost predicate LeadsTo(e: Exchange, zone: seq<byte>) {
    ReadReply(e.msg).Some? && ReferralIn(e).names != [] && ReferralIn(e).zone == zone
  }

  /** The reply's referral names this server. */
  ghost predicate NamesServer(e: Exchange, ns: seq<byte>) {
    ReadReply(e.msg).Some? && ns in ReferralIn(e).names
  }

  /** The reply carries this address for a server its referral names: an additional A record
      of that name, inside the zone the reply speaks for. */
  ghost predicate GivesAddress(e: Exchange, s: Addr) {
    && ReadReply(e.msg).Some?
    && exists ns :: NamesServer(e, ns) && Glues(ReadReply(e.msg).value.additional, ns, s, e.zone)
  }

  /** An address for a server name, proven by the replies of its own resolution. */
  ghost predicate AddressFor(trail: seq<Exchange>, ns: seq<byte>, s: Addr) {
    exists a :: Proven(trail, ns, a) && a.data == AData(s)
  }

  /** `s` is a server the reply `prev` refers to, found between attempts lo and hi. */
  ghost predicate Serves(w: World, prev: Exchange, s: Addr, route: Route, lo: nat, hi: nat, depth: nat)
    decreases MAX_NS_DEPTH - depth, 0
  {
    match route
    case Roots => false
    case Glue => GivesAddress(prev, s)
    case Nested(ns, sub) =>
      && depth < MAX_NS_DEPTH && NamesServer(prev, ns)
      && WellReached(w, sub, ServerQuestion(ns), lo, hi, depth + 1) && AddressFor(sub, ns, s)
  }

  /** The name to ask next is the target of the CNAME this reply gave for the name asked. */
  ghost predicate Chases(prev: Exchange, cname: seq<byte>) {
    ReadReply(prev.msg).Some? && cname != [] && cname == Scanned(prev).cname
  }

  /** Exchange t really took place, after the one before, and its server was the right one to
      ask: at the start, and after a CNAME, a root server for the root zone; otherwise a
      server that the reply before, to the same question, referred to for this zone. */
  ghost predicate ReachedAt(w: World, trail: seq<Exchange>, t: nat, q: Question, lo: nat, hi: nat, depth: nat)
    decreases MAX_NS_DEPTH - depth, 1
  {
    && t < |trail|
    && var e := trail[t];
       var from := if t == 0 then lo else trail[t - 1].attempt + 1;
    && from <= e.attempt < hi
    && w.oracle(e.attempt, e.server, e.qname, e.qtype) == Some(e.msg) && ReadReply(e.msg).Some?
    && if e.route.Roots? then
         && e.zone == [] && e.server in FirstFew(w.roots)
         && if t == 0 then QuestionOf(e) == q
            else Chases(trail[t - 1], e.qname) && QuestionOf(e) == Chasing(QuestionOf(trail[t - 1]), e.qname)
       else
         && t > 0 && QuestionOf(e) == QuestionOf(trail[t - 1]) && LeadsTo(trail[t - 1], e.zone)
         && Serves(w, trail[t - 1], e.server, e.route, from, e.attempt, depth)
  }

  /** The replies of one resolution of a question, in the order of their attempts, all of
      them between attempts lo and hi; `depth` counts nested resolutions around it. */
  ghost predicate WellReached(w: World, trail: seq<Exchange>, q: Question, lo: nat, hi: nat, depth: nat)
    decreases MAX_NS_DEPTH - depth, 2
  {
    forall t :: 0 <= t < |trail| ==> ReachedAt(w, trail, t, q, lo, hi, depth)
  }

  lemma WellReachedLater(w: World, trail: seq<Exchange>, q: Question, lo: nat, hi: nat, later: nat, depth: nat)
    requires WellReached(w, trail, q, lo, hi, depth) && hi <= later
    ensures WellReached(w, trail, q, lo, later, depth)
  {
    hide Serves, LeadsTo, Chases, ReadReply;
    forall t | 0 <= t < |trail| ensures ReachedAt(w, trail, t, q, lo, later, depth) {
      assert ReachedAt(w, trail, t, q, lo, hi, depth);
    }
  }

  lemma ServesLater(w: World, prev: Exchange, s: Addr, route: Route, lo: nat, hi: nat, from: nat, later: nat,
                    depth: nat)
    requires Serves(w, prev, s, route, lo, hi, depth) && from <= lo && hi <= later
    ensures Serves(w, prev, s, route, from, later, depth)
  {
    hide WellReached, GivesAddress, NamesServer, AddressFor;
    if route.Nested? {
      WellReachedLater(w, route.trail, ServerQuestion(route.ns), lo, hi, later, depth + 1);
      WellReachedEarlier(w, route.trail, ServerQuestion(route.ns), lo, from, later, depth + 1);
    }
  }

  lemma WellReachedEarlier(w: World, trail: seq<Exchange>, q: Question, lo: nat, from: nat, hi: nat, depth: nat)
    requires WellReached(w, trail, q, lo, hi, depth) && from <= lo
    ensures WellReached(w, trail, q, from, hi, depth)
  {
    hide Serves, LeadsTo, Chases, ReadReply;
    forall t | 0 <= t < |trail| ensures ReachedAt(w, trail, t, q, from, hi, depth) {
      assert ReachedAt(w, trail, t, q, lo, hi, depth);
    }
  }

  /** Following a CNAME starts again at the roots. */
  lemma WellReachedConcat(w: World, a: seq<Exchange>, b: seq<Exchange>, q: Question, cname: seq<byte>,
                          lo: nat, mid: nat, hi: nat, depth: nat)
    requires a != [] && WellReached(w, a, q, lo, mid, depth)
    requires WellReached(w, b, Chasing(QuestionOf(a[|a| - 1]), cname), mid, hi, depth)
    requires mid <= hi && Chases(a[|a| - 1], cname)
    ensures WellReached(w, a + b, q, lo, hi, depth)
  {
    hide Serves, LeadsTo, Chases, ReadReply;
    assert ReachedAt(w, a, |a| - 1, q, lo, mid, depth);
    forall t | 0 <= t < |a + b| ensures ReachedAt(w, a + b, t, q, lo, hi, depth) {
      if t < |a| {
        assert ReachedAt(w, a, t, q, lo, mid, depth);
      } else {
        assert ReachedAt(w, b, t - |a|, Chasing(QuestionOf(a[|a| - 1]), cname), mid, hi, depth);
      }
    }
  }

  lemma WellReachedSnoc(w: World, a: seq<Exchange>, e: Exchange, q: Question, lo: nat, hi: nat, depth: nat)
    requires WellReached(w, a, q, lo, hi, depth) && ReachedAt(w, a + [e], |a|, q, lo, hi, depth)
    ensures WellReached(w, a + [e], q, lo, hi, depth)
  {
    hide Serves, LeadsTo, Chases, ReadReply;
    forall t | 0 <= t < |a| + 1 ensures ReachedAt(w, a + [e], t, q, lo, hi, depth) {
      if t < |a| { assert ReachedAt(w, a, t, q, lo, hi, depth); }
    }
  }

  /** In every run the current zone contains the queried name, and each step below the
      root makes it at least two characters longer. */
  lemma ZoneHolds(w: World, trail: seq<Exchange>, t: nat, q: Question, lo: nat, hi: nat, depth: nat)
    requires WellReached(w, trail, q, lo, hi, depth) && t < |trail|
    ensures InBailiwick(trail[t].qname, trail[t].zone)
    ensures trail[t].zone != [] ==>
              && t > 0 && trail[t - 1].qname == trail[t].qname && InBailiwick(trail[t].zone, trail[t - 1].zone)
              && (trail[t - 1].zone != [] ==> |trail[t].zone| >= |trail[t - 1].zone| + 2)
  {
    hide ReadReply, ReferralOf, InBailiwick, Serves, Chases;
    assert ReachedAt(w, trail, t, q, lo, hi, depth);
    if trail[t].zone != [] {
      assert LeadsTo(trail[t - 1], trail[t].zone);
      ReferralDescends(ReadReply(trail[t - 1].msg).value, trail[t - 1].qname, trail[t - 1].zone);
    } else {
      RootContains(trail[t].qname);
    }
  }

  lemma RootContains(name: seq<byte>)
    ensures InBailiwick(name, [])
  {
  }

  /** The number of referrals taken below the root is bounded by the name's length. */
  lemma {:induction false} BelowRootIsBounded(w: World, trail: seq<Exchange>, a: nat, b: nat, q: Question, lo: nat,
                                              hi: nat, depth: nat)
    requires WellReached(w, trail, q, lo, hi, depth) && a <= b < |trail|
    requires forall t :: a <= t <= b ==> trail[t].zone != []
    ensures 1 + 2 * (b - a) <= |trail[b].zone| <= |trail[b].qname|
    decreases b - a
  {
    hide WellReached;
    ZoneHolds(w, trail, b, q, lo, hi, depth);
    InsideIsLonger(trail[b].qname, trail[b].zone);
    if a < b {
      BelowRootIsBounded(w, trail, a, b - 1, q, lo, hi, depth);
    }
  }

  lemma InsideIsLonger(name: seq<byte>, zone: seq<byte>)
    requires InBailiwick(name, zone)
    ensures |zone| <= |name|
  {
  }

  // ---------------------------------------------------------------- conclusions

  predicate Asked(a: Answer, qtype: nat, name: seq<byte>) {
    a.Type() == qtype && NameEq(a.owner, name)
  }

  predicate AnyAsked(ans: seq<Answer>, qtype: nat, name: seq<byte>) {
    exists i :: 0 <= i < |ans| && Asked(ans[i], qtype, name)
  }

  /** How often a trail starts at the roots: once, and once for every CNAME followed. */
  function Starts(trail: seq<Exchange>): nat {
    if trail == [] then 0 else Starts(trail[..|trail| - 1]) + if trail[|trail| - 1].route.Roots? then 1 else 0
  }

  lemma {:induction false} StartsConcat(a: seq<Exchange>, b: seq<Exchange>)
    ensures Starts(a + b) == Starts(a) + Starts(b)
    decreases |b|
  {
    if b == [] {
      assert a + b == a;
    } else {
      assert (a + b)[..|a + b| - 1] == a + b[..|b| - 1];
      StartsConcat(a, b[..|b| - 1]);
    }
  }

  /** The reply holds, among the answers kept, one of the type asked for. */
  ghost predicate Finds(e: Exchange) {
    ReadReply(e.msg).Some? && AnyAsked(Scanned(e).kept, e.qtype, e.qname)
  }

  /** The name exists but has nothing of the type asked for: no error, no such answer, no
      delegation, and no CNAME that could still be followed. */
  ghost predicate NoData(e: Exchange, chased: int) {
    && ReadReply(e.msg).Some? && ReadReply(e.msg).value.rcode == 0
    && !AnyAsked(Scanned(e).kept, e.qtype, e.qname) && ReferralIn(e).names == []
    && (Scanned(e).cname == [] || chased >= 8)
  }

  ghost predicate Denies(e: Exchange) {
    ReadReply(e.msg).Some? && ReadReply(e.msg).value.rcode == 3
  }

  /** The result code rests on the last reply, which was about a name reachable from the one
      asked for: that reply denies the name, or has the answer, or has no data. */
  ghost predicate Concluded(trail: seq<Exchange>, name: seq<byte>, rcode: int, hops: nat) {
    && trail != []
    && var e := trail[|trail| - 1];
    && Reachable(trail, name, e.qname)
    && if rcode == 3 then Denies(e)
       else rcode == 0 && (Finds(e) || NoData(e, hops + Starts(trail) - 1))
  }

  /** The conclusion about a CNAME's target is the conclusion about the name. */
  lemma ConcludedThrough(a: seq<Exchange>, b: seq<Exchange>, name: seq<byte>, cname: seq<byte>, rcode: int, hops: nat)
    requires Reachable(a, name, cname) && Concluded(b, cname, rcode, hops + 1) && Starts(a) == 1
    ensures Concluded(a + b, name, rcode, hops)
  {
    hide Reachable, Denies, Finds, NoData;
    var e := b[|b| - 1];
    assert (a + b)[|a + b| - 1] == e;
    ReachableThrough(a, b, name, cname, e.qname);
    StartsConcat(a, b);
  }
}
