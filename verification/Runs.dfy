/** Exactly what a resolution does: every run of resolve_from told level by level, with the
    attempt each server was asked in and the reason it ended. */
module Runs {
  import opened Names
  import opened Wire
  import opened Rescan
  import opened Dissect
  import opened Trail
  import opened Resolver

  /** One level that got a usable reply: the servers, the attempt the first was asked in,
      whose turn it was when the reply came, and the nested resolutions made afterwards to
      find an address for the next level. */
  datatype Level = Level(zone: seq<byte>, servers: seq<Addr>, start: nat, turn: nat, msg: seq<byte>, lookups: seq<Run>)

  /** Why a run ended: the last reply decides it, a CNAME was followed, sixteen replies had
      come, no server answered, or there was no server left to ask. */
  datatype End =
    | Replied
    | Followed(rest: Run)
    | OutOfLevels(servers: seq<Addr>)
    | Silent(servers: seq<Addr>, start: nat)
    | Stranded

  /** A resolution that began with attempt `lo` and made the attempts before `hi`. */
  datatype Run = Run(levels: seq<Level>, end: End, result: Option<Resolution>, lo: nat, hi: nat)

  function Nothing(): Sections {
    Sections(0, [], [], [])
  }

  function SectionsOf(l: Level): Sections {
    if ReadReply(l.msg).Some? then ReadReply(l.msg).value else Nothing()
  }

  function ScanOf(q: Question, l: Level): Scan {
    Answers(SectionsOf(l).answers, q.name, l.zone, q.cap)
  }

  function RefOf(q: Question, l: Level): Referral {
    ReferralOf(SectionsOf(l), q.name, l.zone)
  }

  /** The first attempt after the level's reply. */
  function After(l: Level): nat {
    l.start + l.turn + 1
  }

  /** The first attempt of the level's j-th nested resolution ... */
  function LookupStart(l: Level, j: nat): nat
    requires j <= |l.lookups|
  {
    if j == 0 then After(l) else l.lookups[j - 1].hi
  }

  /** ... and after all of them. */
  function Done(l: Level): nat {
    LookupStart(l, |l.lookups|)
  }

  // ---------------------------------------------------------------- replies

  predicate Unusable(m: Option<seq<byte>>) {
    m.None? || ReadReply(m.value).None?
  }

  /** The first n servers, asked in turn from attempt `start` on, gave nothing usable. */
  ghost predicate Unanswered(w: World, q: Question, servers: seq<Addr>, start: nat, n: nat) {
    && n <= |servers|
    && forall j :: 0 <= j < n ==> Unusable(w.oracle(start + j, servers[j], q.name, q.qtype))
  }

  ghost predicate HasReply(w: World, q: Question, l: Level) {
    && l.turn < |l.servers| && Unanswered(w, q, l.servers, l.start, l.turn)
    && w.oracle(l.start + l.turn, l.servers[l.turn], q.name, q.qtype) == Some(l.msg) && ReadReply(l.msg).Some?
  }

  /** An answer of the type asked for, owned by the name asked for, is among those kept. */
  predicate HasAnswer(q: Question, l: Level) {
    exists i :: 0 <= i < |ScanOf(q, l).kept| && ScanOf(q, l).kept[i].Type() == q.qtype
                && NameEq(ScanOf(q, l).kept[i].owner, q.name)
  }

  /** The reply denies the name (rcode 3) or answers it. */
  predicate Decides(q: Question, l: Level) {
    SectionsOf(l).rcode == 3 || HasAnswer(q, l)
  }

  /** The reply gives a CNAME instead, and fewer than eight have been followed. */
  predicate Redirects(q: Question, l: Level, hops: nat) {
    !Decides(q, l) && ScanOf(q, l).cname != [] && hops < 8
  }

  /** The reply refers to other servers instead. */
  predicate Refers(q: Question, l: Level, hops: nat) {
    !Decides(q, l) && !Redirects(q, l, hops) && RefOf(q, l).names != []
  }

  // ---------------------------------------------------------------- the next servers

  /** The addresses given, in order. */
  function Given(addrs: seq<Option<Addr>>): seq<Addr> {
    if addrs == [] then []
    else if addrs[0].Some? then [addrs[0].value] + Given(addrs[1..])
    else Given(addrs[1..])
  }

  predicate NoAddress(r: Option<Resolution>) {
    r.None? || forall i :: 0 <= i < |r.value.answers| ==> !r.value.answers[i].data.AData?
  }

  /** `s` is the first address among the answers. */
  predicate HasAddress(r: Option<Resolution>, s: Addr) {
    && r.Some?
    && exists i :: 0 <= i < |r.value.answers| && r.value.answers[i].data == AData(s)
                   && forall j :: 0 <= j < i ==> !r.value.answers[j].data.AData?
  }

  /** The server names of the referral were resolved in turn, at most three deep. */
  ghost predicate Looked(w: World, q: Question, l: Level, depth: nat)
    decreases l, 1
  {
    && |l.lookups| <= |RefOf(q, l).names| && (depth >= 3 ==> l.lookups == [])
    && forall j :: 0 <= j < |l.lookups| ==> LookupFits(w, q, l, j, depth)
  }

  /** The j-th one asked for the A records of the j-th name, right after the one before. */
  ghost predicate LookupFits(w: World, q: Question, l: Level, j: nat, depth: nat)
    requires j < |l.lookups| <= |RefOf(q, l).names|
    decreases l, 0
  {
    && l.lookups[j].lo == LookupStart(l, j)
    && IsRun(w, Question(RefOf(q, l).names[j], 1, 8), l.lookups[j], depth + 1, 0)
  }

  /** The servers of the next level: all addresses given as glue, or else one address, of the
      first server name for which a nested resolution finds one. */
  ghost predicate Next(w: World, q: Question, l: Level, servers: seq<Addr>, start: nat, depth: nat)
    decreases l, 2
  {
    var glue := Given(RefOf(q, l).addrs);
    if glue != [] then servers == glue && start == After(l) && l.lookups == []
    else
      && l.lookups != [] && Looked(w, q, l, depth) && start == Done(l)
      && (forall j :: 0 <= j < |l.lookups| - 1 ==> NoAddress(l.lookups[j].result))
      && |servers| == 1 && HasAddress(l.lookups[|l.lookups| - 1].result, servers[0])
  }

  /** No address was given, and none was found for any server name. */
  ghost predicate NoServers(w: World, q: Question, l: Level, depth: nat)
    decreases l, 2
  {
    && Given(RefOf(q, l).addrs) == [] && Looked(w, q, l, depth)
    && (depth >= 3 || |l.lookups| == |RefOf(q, l).names|)
    && forall j :: 0 <= j < |l.lookups| ==> NoAddress(l.lookups[j].result)
  }

  // ---------------------------------------------------------------- runs

  function ZoneAt(q: Question, run: Run, t: nat): seq<byte>
    requires t <= |run.levels|
  {
    if t == 0 then [] else RefOf(q, run.levels[t - 1]).zone
  }

  /** The servers to ask at level t: the first eight roots, then those of the referral. */
  ghost predicate ServersAt(w: World, q: Question, run: Run, t: nat, servers: seq<Addr>, start: nat, depth: nat)
    requires t <= |run.levels|
    decreases run, 0
  {
    if t == 0 then servers == Cut(w.roots, 8) && start == run.lo
    else Next(w, q, run.levels[t - 1], servers, start, depth)
  }

  /** Level t asked those servers in turn, for the zone it was referred to. */
  ghost predicate LevelFits(w: World, q: Question, run: Run, t: nat, depth: nat)
    requires t < |run.levels|
    decreases run, 1
  {
    && HasReply(w, q, run.levels[t]) && run.levels[t].zone == ZoneAt(q, run, t)
    && ServersAt(w, q, run, t, run.levels[t].servers, run.levels[t].start, depth)
  }

  /** Each level did so, and each reply but the last referred on. */
  ghost predicate Path(w: World, q: Question, run: Run, depth: nat, hops: nat)
    decreases run, 2
  {
    && |run.levels| <= 16
    && (forall t :: 0 <= t < |run.levels| ==> LevelFits(w, q, run, t, depth))
    && forall t :: 0 <= t < |run.levels| - 1 ==> Refers(q, run.levels[t], hops)
  }

  /** The last reply decides: it denies the name, has the answer, or has no data; only an
      error code, with no CNAME to follow and no referral, is a failure. */
  ghost predicate EndsReplied(q: Question, run: Run, hops: nat) {
    && run.levels != []
    && var l := run.levels[|run.levels| - 1];
       var rcode, kept := SectionsOf(l).rcode, ScanOf(q, l).kept;
    && l.lookups == [] && run.hi == After(l)
    && if rcode == 3 then run.result == Some(Resolution(kept, 3))
       else if HasAnswer(q, l) then run.result == Some(Resolution(kept, 0))
       else
         && !Redirects(q, l, hops) && RefOf(q, l).names == []
         && run.result == if rcode == 0 then Some(Resolution(kept, 0)) else None
  }

  /** What the resolution of the CNAME's target gives is added to what was kept. */
  ghost predicate EndsFollowed(q: Question, run: Run, rest: Run, hops: nat) {
    && run.levels != []
    && var l := run.levels[|run.levels| - 1];
    && Redirects(q, l, hops) && l.lookups == [] && rest.lo == After(l) && run.hi == rest.hi
    && run.result ==
       if rest.result.None? then None
       else Some(Resolution(Cut(ScanOf(q, l).kept + rest.result.value.answers, q.cap), rest.result.value.rcode))
  }

  /** This is a whole run of resolve_from on the question, and ended for its reason. */
  ghost predicate IsRun(w: World, q: Question, run: Run, depth: nat, hops: nat)
    decreases run, 3
  {
    var n := |run.levels|;
    && Path(w, q, run, depth, hops)
    && match run.end
       case Replied => EndsReplied(q, run, hops)
       case Followed(rest) =>
         && EndsFollowed(q, run, rest, hops)
         && IsRun(w, Question(ScanOf(q, run.levels[n - 1]).cname, q.qtype, 8), rest, depth, hops + 1)
       case OutOfLevels(servers) =>
         && run.result.None? && n == 16 && Refers(q, run.levels[n - 1], hops)
         && Next(w, q, run.levels[n - 1], servers, run.hi, depth)
       case Silent(servers, start) =>
         && run.result.None? && n < 16 && (n > 0 ==> Refers(q, run.levels[n - 1], hops))
         && ServersAt(w, q, run, n, servers, start, depth)
         && Unanswered(w, q, servers, start, |servers|) && run.hi == start + |servers|
       case Stranded =>
         && run.result.None? && n > 0 && Refers(q, run.levels[n - 1], hops)
         && NoServers(w, q, run.levels[n - 1], depth) && run.hi == Done(run.levels[n - 1])
  }

  // ---------------------------------------------------------------- what a run says is what is computed

  lemma {:induction false} GivenIsGlue(addrs: seq<Option<Addr>>)
    ensures Given(addrs) == GlueOf(addrs)
    decreases |addrs|
  {
    if addrs == [] {
    } else if |addrs| == 1 {
      assert addrs[1..] == [] && addrs[..0] == [];
    } else {
      var mid := addrs[1..|addrs| - 1];
      assert addrs[1..][..|addrs| - 2] == mid && addrs[..|addrs| - 1][1..] == mid;
      GivenIsGlue(addrs[1..]);
      GivenIsGlue(addrs[..|addrs| - 1]);
      GivenIsGlue(mid);
    }
  }

  lemma {:induction false} AddressExactly(ans: seq<Answer>, rcode: int)
    ensures AddressIn(ans).None? ==> NoAddress(Some(Resolution(ans, rcode)))
    ensures AddressIn(ans).Some? ==> HasAddress(Some(Resolution(ans, rcode)), AddressIn(ans).value)
    decreases |ans|
  {
    if ans != [] && !ans[0].data.AData? {
      AddressExactly(ans[1..], rcode);
      assert forall i :: 0 <= i < |ans| - 1 ==> ans[1..][i] == ans[i + 1];
      if AddressIn(ans).Some? {
        var i :| 0 <= i < |ans[1..]| && ans[1..][i].data == AData(AddressIn(ans).value)
                 && forall j :: 0 <= j < i ==> !ans[1..][j].data.AData?;
        assert ans[i + 1].data == AData(AddressIn(ans).value);
        forall j | 0 <= j < i + 1 ensures !ans[j].data.AData? {
          if j > 0 { assert !ans[1..][j - 1].data.AData?; }
        }
      }
    }
  }

  /** At most one of the two, and only one address. */
  lemma AddressUnique(r: Resolution, s: Addr)
    ensures HasAddress(Some(r), s) ==> AddressIn(r.answers) == Some(s)
    ensures NoAddress(Some(r)) ==> AddressIn(r.answers).None?
  {
    AddressExactly(r.answers, r.rcode);
    assert r == Resolution(r.answers, r.rcode);
  }

  lemma {:induction false} InTurn(w: World, q: Question, servers: seq<Addr>, start: nat, n: nat, zone: seq<byte>,
                                  j: nat)
    requires j <= n && Unanswered(w, q, servers, start, n)
    ensures AskAny(w.oracle, start + j, servers[j..], q.name, q.qtype, zone, q.cap) ==
            AskAny(w.oracle, start + n, servers[n..], q.name, q.qtype, zone, q.cap)
    decreases n - j
  {
    hide ReadReply, Answers, ReferralOf;
    if j < n {
      assert servers[j..][0] == servers[j] && servers[j..][1..] == servers[j + 1..];
      assert Unusable(w.oracle(start + j, servers[j], q.name, q.qtype));
      InTurn(w, q, servers, start, n, zone, j + 1);
    }
  }

  lemma SilentLevel(w: World, q: Question, servers: seq<Addr>, start: nat, zone: seq<byte>)
    requires Unanswered(w, q, servers, start, |servers|)
    ensures AskAny(w.oracle, start, servers, q.name, q.qtype, zone, q.cap) == Outcome(None, start + |servers|)
  {
    InTurn(w, q, servers, start, |servers|, zone, 0);
    assert servers[0..] == servers && servers[|servers|..] == [];
  }

  lemma LevelReplies(w: World, q: Question, l: Level)
    requires HasReply(w, q, l)
    ensures AskAny(w.oracle, l.start, l.servers, q.name, q.qtype, l.zone, q.cap) ==
            Outcome(Some(Reply(SectionsOf(l).rcode, ScanOf(q, l), RefOf(q, l))), After(l))
  {
    hide ReadReply, Answers, ReferralOf;
    InTurn(w, q, l.servers, l.start, l.turn, l.zone, 0);
    assert l.servers[0..] == l.servers && l.servers[l.turn..][0] == l.servers[l.turn];
  }

  /** What resolve_from computes from servers at a level on. */
  function From(w: World, q: Question, servers: seq<Addr>, zone: seq<byte>, start: nat, depth: nat, hops: nat,
                level: nat): Outcome<Option<Resolution>>
    requires hops <= MAX_CNAME_HOPS
  {
    Resolve(w.oracle, w.roots, start, q.name, q.qtype, servers, zone, q.cap, depth, hops, level)
  }

  /** ... and from the roots. */
  function Whole(w: World, q: Question, start: nat, depth: nat, hops: nat): Outcome<Option<Resolution>>
    requires hops <= MAX_CNAME_HOPS
  {
    From(w, q, FirstFew(w.roots), [], start, depth, hops, 0)
  }

  lemma AnswerAmong(q: Question, l: Level)
    ensures AnyAsked(ScanOf(q, l).kept, q.qtype, q.name) <==> HasAnswer(q, l)
  {
    hide ScanOf, NameEq;
    if AnyAsked(ScanOf(q, l).kept, q.qtype, q.name) {
      var i :| 0 <= i < |ScanOf(q, l).kept| && Asked(ScanOf(q, l).kept[i], q.qtype, q.name);
    }
    if HasAnswer(q, l) {
      var i :| 0 <= i < |ScanOf(q, l).kept| && ScanOf(q, l).kept[i].Type() == q.qtype
               && NameEq(ScanOf(q, l).kept[i].owner, q.name);
      assert Asked(ScanOf(q, l).kept[i], q.qtype, q.name);
    }
  }

  /** One level of the computation, by what its reply is. */
  lemma LevelStep(w: World, q: Question, l: Level, depth: nat, hops: nat, t: nat)
    requires HasReply(w, q, l) && t < 16 && hops <= MAX_CNAME_HOPS
    ensures var r := From(w, q, l.servers, l.zone, l.start, depth, hops, t);
            var rcode, scan := SectionsOf(l).rcode, ScanOf(q, l);
            if rcode == 3 then r == Outcome(Some(Resolution(scan.kept, 3)), After(l))
            else if HasAnswer(q, l) then r == Outcome(Some(Resolution(scan.kept, 0)), After(l))
            else if Redirects(q, l, hops) then
              var sub := Whole(w, Question(scan.cname, q.qtype, 8), After(l), depth, hops + 1);
              r == if sub.result.None? then sub
                   else Outcome(Some(Resolution(Cut(scan.kept + sub.result.value.answers, q.cap),
                                                sub.result.value.rcode)), sub.asked)
            else if !Refers(q, l, hops) then
              r == Outcome(if rcode == 0 then Some(Resolution(scan.kept, 0)) else None, After(l))
            else
              var next := Servers(w.oracle, w.roots, After(l), RefOf(q, l), depth);
              r == if next.result == [] then Outcome(None, next.asked)
                   else From(w, q, next.result, RefOf(q, l).zone, next.asked, depth, hops, t + 1)
  {
    hide SectionsOf, ScanOf, RefOf, HasReply, AskAny, Servers, AnyAsked, HasAnswer, Cut;
    LevelReplies(w, q, l);
    AnswerAmong(q, l);
  }

  lemma TooDeep(w: World, q: Question, servers: seq<Addr>, zone: seq<byte>, start: nat, depth: nat, hops: nat)
    requires hops <= MAX_CNAME_HOPS
    ensures From(w, q, servers, zone, start, depth, hops, 16) == Outcome(None, start)
  {
  }

  lemma FirstEight(w: World)
    ensures FirstFew(w.roots) == Cut(w.roots, 8)
  {
  }

  /** A whole run says what resolve_from returns and how many attempts it makes. */
  lemma {:induction false} RunIsResolve(w: World, q: Question, run: Run, depth: nat, hops: nat)
    requires IsRun(w, q, run, depth, hops) && hops <= MAX_CNAME_HOPS
    ensures Whole(w, q, run.lo, depth, hops) == Outcome(run.result, run.hi)
    decreases run, 5, 0
  {
    hide From, Refers, Redirects, HasReply, Next, NoServers, FirstFew, Unanswered;
    FirstEight(w);
    if run.levels == [] {
      NobodyThere(w, q, run.end.servers, [], run.end.start, depth, hops, 0);
    } else {
      var l := run.levels[0];
      assert LevelFits(w, q, run, 0, depth);
      FromLevel(w, q, run, 0, depth, hops);
    }
  }

  lemma NobodyThere(w: World, q: Question, servers: seq<Addr>, zone: seq<byte>, start: nat, depth: nat, hops: nat,
                    t: nat)
    requires Unanswered(w, q, servers, start, |servers|) && t < 16 && hops <= MAX_CNAME_HOPS
    ensures From(w, q, servers, zone, start, depth, hops, t) == Outcome(None, start + |servers|)
  {
    hide AskAny, Unanswered;
    SilentLevel(w, q, servers, start, zone);
  }

  lemma {:induction false} FromLevel(w: World, q: Question, run: Run, t: nat, depth: nat, hops: nat)
    requires IsRun(w, q, run, depth, hops) && hops <= MAX_CNAME_HOPS && t < |run.levels|
    ensures From(w, q, run.levels[t].servers, run.levels[t].zone, run.levels[t].start, depth, hops, t) ==
            Outcome(run.result, run.hi)
    decreases run, 4, |run.levels| - t
  {
    hide From, HasReply, Next, NoServers, Unanswered, Servers, ScanOf, SectionsOf, RefOf, HasAnswer, FirstFew;
    var l := run.levels[t];
    assert LevelFits(w, q, run, t, depth);
    LevelStep(w, q, l, depth, hops, t);
    if t < |run.levels| - 1 {
      var m := run.levels[t + 1];
      assert LevelFits(w, q, run, t + 1, depth);
      assert ServersAt(w, q, run, t + 1, m.servers, m.start, depth);
      NextIsServers(w, q, l, m.servers, m.start, depth);
      FromLevel(w, q, run, t + 1, depth, hops);
    } else {
      match run.end
      case Replied =>
      case Followed(rest) => RunIsResolve(w, Question(ScanOf(q, l).cname, q.qtype, 8), rest, depth, hops + 1);
      case OutOfLevels(servers) =>
        NextIsServers(w, q, l, servers, run.hi, depth);
        TooDeep(w, q, servers, RefOf(q, l).zone, run.hi, depth, hops);
      case Silent(servers, start) =>
        NextIsServers(w, q, l, servers, start, depth);
        if servers != [] { NobodyThere(w, q, servers, RefOf(q, l).zone, start, depth, hops, t + 1); }
      case Stranded => NoServersLeft(w, q, l, depth);
    }
  }

  lemma {:induction false} NextIsServers(w: World, q: Question, l: Level, servers: seq<Addr>, start: nat, depth: nat)
    requires Next(w, q, l, servers, start, depth)
    ensures Servers(w.oracle, w.roots, After(l), RefOf(q, l), depth) == Outcome(servers, start) && servers != []
    decreases l, 5, 0
  {
    hide RefOf, IsRun, GlueOf, Given, AddrOf;
    GivenIsGlue(RefOf(q, l).addrs);
    if Given(RefOf(q, l).addrs) == [] {
      LookupsInTurn(w, q, l, 0, |l.lookups| - 1, depth);
      var n := |l.lookups| - 1;
      LookupIsAddr(w, q, l, n, depth);
      var names := RefOf(q, l).names;
      assert names[n..][0] == names[n] && names[0..] == names;
      assert servers == [servers[0]];
    }
  }

  lemma {:induction false} NoServersLeft(w: World, q: Question, l: Level, depth: nat)
    requires NoServers(w, q, l, depth)
    ensures Servers(w.oracle, w.roots, After(l), RefOf(q, l), depth) == Outcome([], Done(l))
    decreases l, 5, 0
  {
    hide RefOf, IsRun, GlueOf, Given, AddrOf;
    GivenIsGlue(RefOf(q, l).addrs);
    var names := RefOf(q, l).names;
    if depth >= 3 {
      TooDeepForNames(w, names, After(l), depth);
    } else {
      LookupsInTurn(w, q, l, 0, |names|, depth);
      assert names[0..] == names && names[|names|..] == [];
    }
  }

  lemma {:induction false} TooDeepForNames(w: World, names: seq<seq<byte>>, k: nat, depth: nat)
    requires depth >= 3
    ensures OneServer(w.oracle, w.roots, k, names, depth) == Outcome([], k)
    decreases |names|
  {
    if names != [] { TooDeepForNames(w, names[1..], k, depth); }
  }

  /** One nested resolution. */
  lemma {:induction false} LookupIsAddr(w: World, q: Question, l: Level, j: nat, depth: nat)
    requires Looked(w, q, l, depth) && j < |l.lookups|
    ensures var a := AddrOf(w.oracle, w.roots, LookupStart(l, j), RefOf(q, l).names[j], depth);
            && a.asked == l.lookups[j].hi
            && (NoAddress(l.lookups[j].result) ==> a.result.None?)
            && (forall s :: HasAddress(l.lookups[j].result, s) ==> a.result == Some(s))
    decreases l, 3
  {
    hide RefOf, IsRun, Resolve, NoAddress, HasAddress;
    var run := l.lookups[j];
    assert LookupFits(w, q, l, j, depth);
    RunIsResolve(w, Question(RefOf(q, l).names[j], 1, 8), run, depth + 1, 0);
    if run.result.Some? {
      forall s ensures HasAddress(run.result, s) ==> AddressIn(run.result.value.answers) == Some(s) {
        AddressUnique(run.result.value, s);
      }
      AddressUnique(run.result.value, []);
    } else {
      assert forall s :: !HasAddress(run.result, s) by { NothingHasAddress(); }
    }
  }

  lemma NothingHasAddress()
    ensures forall s :: !HasAddress(None, s)
  {
  }

  /** Nested resolutions that find no address are passed over. */
  lemma {:induction false} LookupsInTurn(w: World, q: Question, l: Level, j: nat, n: nat, depth: nat)
    requires Looked(w, q, l, depth) && j <= n <= |l.lookups|
    requires forall i :: 0 <= i < n ==> NoAddress(l.lookups[i].result)
    ensures OneServer(w.oracle, w.roots, LookupStart(l, j), RefOf(q, l).names[j..], depth) ==
            OneServer(w.oracle, w.roots, LookupStart(l, n), RefOf(q, l).names[n..], depth)
    decreases l, 4, n - j
  {
    hide RefOf, IsRun, AddrOf, NoAddress;
    if j < n {
      var names := RefOf(q, l).names;
      assert names[j..][0] == names[j] && names[j..][1..] == names[j + 1..];
      LookupIsAddr(w, q, l, j, depth);
      LookupsInTurn(w, q, l, j + 1, n, depth);
    }
  }

  // ---------------------------------------------------------------- every computation is a run

  lemma {:induction false} FirstReply(w: World, q: Question, servers: seq<Addr>, start: nat, zone: seq<byte>, j: nat)
    returns (turn: nat)
    requires j <= |servers| && Unanswered(w, q, servers, start, j)
    ensures j <= turn <= |servers| && Unanswered(w, q, servers, start, turn)
    ensures turn < |servers| ==> !Unusable(w.oracle(start + turn, servers[turn], q.name, q.qtype))
    decreases |servers| - j
  {
    hide ReadReply;
    if j == |servers| || !Unusable(w.oracle(start + j, servers[j], q.name, q.qtype)) {
      turn := j;
    } else {
      turn := FirstReply(w, q, servers, start, zone, j + 1);
    }
  }

  /** The levels so far, as the run they would be if it stopped there. */
  function SoFar(levels: seq<Level>, lo: nat): Run {
    Run(levels, OutOfLevels([]), None, lo, lo)
  }

  /** The state of the loop: a path, and the servers to ask next. */
  ghost predicate Going(w: World, q: Question, levels: seq<Level>, lo: nat, servers: seq<Addr>, start: nat,
                        depth: nat, hops: nat) {
    && Path(w, q, SoFar(levels, lo), depth, hops) && ServersAt(w, q, SoFar(levels, lo), |levels|, servers, start, depth)
    && (levels != [] ==> Refers(q, levels[|levels| - 1], hops))
  }

  /** Whether a level fits depends on it and the one before alone. */
  lemma SameFit(w: World, q: Question, a: Run, b: Run, t: nat, depth: nat)
    requires a.lo == b.lo && t < |a.levels| && t < |b.levels| && a.levels[t] == b.levels[t]
    requires t > 0 ==> a.levels[t - 1] == b.levels[t - 1]
    ensures LevelFits(w, q, a, t, depth) <==> LevelFits(w, q, b, t, depth)
  {
    hide HasReply, Next, RefOf;
  }

  /** One more level. */
  lemma {:induction false} PathSnoc(w: World, q: Question, levels: seq<Level>, lo: nat, servers: seq<Addr>, start: nat,
                                    depth: nat, hops: nat, l: Level)
    requires Going(w, q, levels, lo, servers, start, depth, hops) && |levels| < 16 && HasReply(w, q, l)
    requires l.servers == servers && l.start == start && l.zone == ZoneAt(q, SoFar(levels, lo), |levels|)
    ensures Path(w, q, SoFar(levels + [l], lo), depth, hops)
  {
    hide HasReply, Next, Refers, RefOf, LevelFits;
    var a, b := SoFar(levels, lo), SoFar(levels + [l], lo);
    forall t | 0 <= t < |b.levels| ensures LevelFits(w, q, b, t, depth) {
      if t < |levels| { SameFit(w, q, a, b, t, depth); } else { LastFits(w, q, levels, lo, depth, l); }
    }
  }

  lemma LastFits(w: World, q: Question, levels: seq<Level>, lo: nat, depth: nat, l: Level)
    requires HasReply(w, q, l) && ServersAt(w, q, SoFar(levels, lo), |levels|, l.servers, l.start, depth)
    requires l.zone == ZoneAt(q, SoFar(levels, lo), |levels|)
    ensures LevelFits(w, q, SoFar(levels + [l], lo), |levels|, depth)
  {
    hide HasReply, Next, RefOf;
  }

  lemma {:induction false} PathAgain(w: World, q: Question, a: Run, b: Run, depth: nat, hops: nat)
    requires Path(w, q, a, depth, hops) && a.levels == b.levels && a.lo == b.lo
    ensures Path(w, q, b, depth, hops)
  {
    hide Refers, LevelFits;
    forall t | 0 <= t < |b.levels| ensures LevelFits(w, q, b, t, depth) {
      SameFit(w, q, a, b, t, depth);
    }
  }

  /** A run that ends with the last of these levels. */
  lemma {:induction false} Ending(w: World, q: Question, levels: seq<Level>, lo: nat, end: End,
                                  result: Option<Resolution>, hi: nat, depth: nat, hops: nat) returns (run: Run)
    requires Path(w, q, SoFar(levels, lo), depth, hops)
    ensures run == Run(levels, end, result, lo, hi) && Path(w, q, run, depth, hops)
  {
    hide Path;
    run := Run(levels, end, result, lo, hi);
    PathAgain(w, q, SoFar(levels, lo), run, depth, hops);
  }

  /** Every computation of resolve_from from a level on is the rest of a run. */
  lemma {:induction false} Extend(w: World, q: Question, levels: seq<Level>, lo: nat, servers: seq<Addr>, start: nat,
                                  depth: nat, hops: nat) returns (run: Run)
    requires hops <= MAX_CNAME_HOPS && |levels| <= 16 && Going(w, q, levels, lo, servers, start, depth, hops)
    ensures IsRun(w, q, run, depth, hops) && run.lo == lo
    ensures From(w, q, servers, ZoneAt(q, SoFar(levels, lo), |levels|), start, depth, hops, |levels|) ==
            Outcome(run.result, run.hi)
    decreases if depth < 3 then 3 - depth else 0, MAX_CNAME_HOPS - hops, 1, 17 - |levels|
  {
    hide From, Refers, Redirects, HasReply, Next, NoServers, Unanswered, Path, HasAnswer, ScanOf, RefOf, SectionsOf;
    var zone := ZoneAt(q, SoFar(levels, lo), |levels|);
    if |levels| == 16 {
      run := Ending(w, q, levels, lo, OutOfLevels(servers), None, start, depth, hops);
      TooDeep(w, q, servers, zone, start, depth, hops);
      return;
    }
    assert Unanswered(w, q, servers, start, 0) by { NobodyYet(w, q, servers, start); }
    var turn := FirstReply(w, q, servers, start, zone, 0);
    if turn == |servers| {
      run := Ending(w, q, levels, lo, Silent(servers, start), None, start + |servers|, depth, hops);
      NobodyThere(w, q, servers, zone, start, depth, hops, |levels|);
      return;
    }
    var msg := w.oracle(start + turn, servers[turn], q.name, q.qtype).value;
    var l := Level(zone, servers, start, turn, msg, []);
    assert HasReply(w, q, l) by { ReplyThere(w, q, l); }
    PathSnoc(w, q, levels, lo, servers, start, depth, hops, l);
    LevelStep(w, q, l, depth, hops, |levels|);
    assert (levels + [l])[|levels|] == l;
    if Refers(q, l, hops) {
      run := Descend(w, q, levels, lo, servers, start, depth, hops, l);
    } else if Redirects(q, l, hops) {
      var cname := ScanOf(q, l).cname;
      FewHops(q, l, hops);
      var rest := Begin(w, Question(cname, q.qtype, 8), After(l), depth, hops + 1);
      var result := if rest.result.None? then None
                    else Some(Resolution(Cut(ScanOf(q, l).kept + rest.result.value.answers, q.cap),
                                         rest.result.value.rcode));
      run := Ending(w, q, levels + [l], lo, Followed(rest), result, rest.hi, depth, hops);
    } else {
      var r := From(w, q, servers, zone, start, depth, hops, |levels|);
      run := Ending(w, q, levels + [l], lo, Replied, r.result, r.asked, depth, hops);
      assert EndsReplied(q, run, hops) by { NotReferring(q, l, hops); }
    }
  }

  lemma NobodyYet(w: World, q: Question, servers: seq<Addr>, start: nat)
    ensures Unanswered(w, q, servers, start, 0)
  {
  }

  lemma ReplyThere(w: World, q: Question, l: Level)
    requires l.turn < |l.servers| && Unanswered(w, q, l.servers, l.start, l.turn)
    requires var m := w.oracle(l.start + l.turn, l.servers[l.turn], q.name, q.qtype); !Unusable(m) && m.value == l.msg
    ensures HasReply(w, q, l)
  {
    hide ReadReply, Unanswered;
  }

  lemma FewHops(q: Question, l: Level, hops: nat)
    requires Redirects(q, l, hops)
    ensures hops < 8 && SectionsOf(l).rcode != 3 && !HasAnswer(q, l)
  {
  }

  lemma ReferringOnly(q: Question, l: Level, hops: nat)
    requires Refers(q, l, hops)
    ensures SectionsOf(l).rcode != 3 && !HasAnswer(q, l) && !Redirects(q, l, hops)
  {
  }

  lemma NotReferring(q: Question, l: Level, hops: nat)
    requires !Refers(q, l, hops) && !Redirects(q, l, hops)
    ensures SectionsOf(l).rcode == 3 || HasAnswer(q, l) || RefOf(q, l).names == []
  {
  }

  lemma {:induction false} Begin(w: World, q: Question, lo: nat, depth: nat, hops: nat) returns (run: Run)
    requires hops <= MAX_CNAME_HOPS
    ensures IsRun(w, q, run, depth, hops) && run.lo == lo && Whole(w, q, lo, depth, hops) == Outcome(run.result, run.hi)
    decreases if depth < 3 then 3 - depth else 0, MAX_CNAME_HOPS - hops, 2
  {
    hide From, IsRun;
    FirstEight(w);
    run := Extend(w, q, [], lo, Cut(w.roots, 8), lo, depth, hops);
  }

  /** A referral: glue, or nested resolutions until one finds an address. */
  lemma {:induction false} Descend(w: World, q: Question, levels: seq<Level>, lo: nat, servers: seq<Addr>, start: nat,
                                   depth: nat, hops: nat, l: Level) returns (run: Run)
    requires hops <= MAX_CNAME_HOPS && |levels| < 16 && Going(w, q, levels, lo, servers, start, depth, hops)
    requires HasReply(w, q, l) && Refers(q, l, hops) && l.lookups == []
    requires l.servers == servers && l.start == start && l.zone == ZoneAt(q, SoFar(levels, lo), |levels|)
    ensures IsRun(w, q, run, depth, hops) && run.lo == lo
    ensures From(w, q, servers, l.zone, start, depth, hops, |levels|) == Outcome(run.result, run.hi)
    decreases if depth < 3 then 3 - depth else 0, MAX_CNAME_HOPS - hops, 1, 17 - |levels|, 0
  {
    hide From, Refers, Redirects, HasReply, Next, NoServers, Unanswered, Path, HasAnswer, ScanOf, RefOf, SectionsOf;
    var m, found, next, from := l, true, Given(RefOf(q, l).addrs), After(l);
    if next == [] {
      m, found, next := LookUp(w, q, l, depth, hops);
      from := Done(m);
      assert found ==> Next(w, q, m, next, from, depth);
    } else {
      assert Next(w, q, m, next, from, depth) by { GlueIsNext(w, q, l, depth); }
    }
    SameReply(w, q, l, m, hops);
    PathSnoc(w, q, levels, lo, servers, start, depth, hops, m);
    LevelStep(w, q, m, depth, hops, |levels|);
    ReferringOnly(q, m, hops);
    assert (levels + [m])[|levels|] == m;
    if found {
      NextIsServers(w, q, m, next, from, depth);
      run := Extend(w, q, levels + [m], lo, next, from, depth, hops);
    } else {
      NoServersLeft(w, q, m, depth);
      run := Ending(w, q, levels + [m], lo, Stranded, None, Done(m), depth, hops);
    }
  }

  lemma GlueIsNext(w: World, q: Question, l: Level, depth: nat)
    requires Given(RefOf(q, l).addrs) != [] && l.lookups == []
    ensures Next(w, q, l, Given(RefOf(q, l).addrs), After(l), depth)
  {
    hide RefOf;
  }

  /** The nested resolutions of a level change nothing about its reply. */
  lemma SameReply(w: World, q: Question, l: Level, m: Level, hops: nat)
    requires m == l.(lookups := m.lookups)
    ensures HasReply(w, q, l) <==> HasReply(w, q, m)
    ensures Refers(q, l, hops) <==> Refers(q, m, hops)
    ensures RefOf(q, l) == RefOf(q, m) && After(l) == After(m)
  {
    hide ReadReply, Answers, ReferralOf, Unanswered;
    assert SectionsOf(l) == SectionsOf(m) && ScanOf(q, l) == ScanOf(q, m);
  }

  /** Resolve the server names in turn. */
  lemma {:induction false} LookUp(w: World, q: Question, l: Level, depth: nat, hops: nat)
    returns (m: Level, found: bool, next: seq<Addr>)
    requires l.lookups == [] && Given(RefOf(q, l).addrs) == [] && hops <= MAX_CNAME_HOPS
    ensures m == l.(lookups := m.lookups)
    ensures if found then Next(w, q, m, next, Done(m), depth) else NoServers(w, q, m, depth)
    decreases if depth < 3 then 3 - depth else 0, MAX_CNAME_HOPS - hops, 0
  {
    hide RefOf, IsRun, Given, NoAddress, HasAddress;
    m, found, next := l, false, [];
    var names := RefOf(q, l).names;
    if depth >= 3 {
      SameReply(w, q, l, m, hops);
      return;
    }
    while |m.lookups| < |names|
      invariant m == l.(lookups := m.lookups) && |m.lookups| <= |names| && RefOf(q, m) == RefOf(q, l)
      invariant Looked(w, q, m, depth)
      invariant forall j :: 0 <= j < |m.lookups| ==> NoAddress(m.lookups[j].result)
      decreases |names| - |m.lookups|
    {
      var sub := Begin(w, Question(names[|m.lookups|], 1, 8), Done(m), depth + 1, 0);
      var more := m.(lookups := m.lookups + [sub]);
      SameReply(w, q, l, more, hops);
      LookedSnoc(w, q, m, sub, depth);
      if sub.result.Some? {
        AddressExactly(sub.result.value.answers, sub.result.value.rcode);
        var a := AddressIn(sub.result.value.answers);
        if a.Some? { return more, true, [a.value]; }
      } else {
        assert NoAddress(sub.result) by { NothingIsNoAddress(); }
      }
      m := more;
    }
  }

  lemma NothingIsNoAddress()
    ensures NoAddress(None)
  {
  }

  lemma LookedSnoc(w: World, q: Question, m: Level, sub: Run, depth: nat)
    requires Looked(w, q, m, depth) && depth < 3 && |m.lookups| < |RefOf(q, m).names| && sub.lo == Done(m)
    requires IsRun(w, Question(RefOf(q, m).names[|m.lookups|], 1, 8), sub, depth + 1, 0)
    ensures Looked(w, q, m.(lookups := m.lookups + [sub]), depth)
  {
    hide IsRun, RefOf, LookupFits, HasReply, Refers;
    var more := m.(lookups := m.lookups + [sub]);
    SameReply(w, q, m, more, 0);
    forall j | 0 <= j < |more.lookups| ensures LookupFits(w, q, more, j, depth) {
      if j < |m.lookups| { EarlierLookup(w, q, m, sub, j, depth); } else { LastLookup(w, q, m, sub, depth); }
    }
  }

  lemma EarlierLookup(w: World, q: Question, m: Level, sub: Run, j: nat, depth: nat)
    requires j < |m.lookups| < |RefOf(q, m).names| && LookupFits(w, q, m, j, depth)
    requires RefOf(q, m.(lookups := m.lookups + [sub])) == RefOf(q, m)
    ensures LookupFits(w, q, m.(lookups := m.lookups + [sub]), j, depth)
  {
    hide IsRun, RefOf;
  }

  lemma LastLookup(w: World, q: Question, m: Level, sub: Run, depth: nat)
    requires |m.lookups| < |RefOf(q, m).names| && sub.lo == Done(m)
    requires IsRun(w, Question(RefOf(q, m).names[|m.lookups|], 1, 8), sub, depth + 1, 0)
    requires RefOf(q, m.(lookups := m.lookups + [sub])) == RefOf(q, m)
    ensures LookupFits(w, q, m.(lookups := m.lookups + [sub]), |m.lookups|, depth)
  {
    hide IsRun, RefOf;
  }

  // ---------------------------------------------------------------- main results

  /** resolve_from returns `r` after the attempts from lo to hi if and only if there is a run
      that does: sixteen levels, eight servers and eight CNAMEs at most, nested three deep. */
  lemma ResolvesExactly(w: World, q: Question, lo: nat, depth: nat, hops: nat, r: Option<Resolution>, hi: nat)
    requires hops <= 8
    ensures Whole(w, q, lo, depth, hops) == Outcome(r, hi) <==>
            exists run :: IsRun(w, q, run, depth, hops) && run.lo == lo && run.result == r && run.hi == hi
  {
    hide IsRun, Whole;
    if Whole(w, q, lo, depth, hops) == Outcome(r, hi) {
      var run := Begin(w, q, lo, depth, hops);
    }
    if run :| IsRun(w, q, run, depth, hops) && run.lo == lo && run.result == r && run.hi == hi {
      RunIsResolve(w, q, run, depth, hops);
    }
  }

  /** Why a run failed: the code of the last reply, which has no answer, no CNAME to follow
      and no referral; a followed CNAME whose target failed; sixteen replies since the roots;
      no usable reply from any server of the level; no address for any server named. */
  ghost predicate HasReason(w: World, q: Question, run: Run, depth: nat, hops: nat) {
    var n := |run.levels|;
    match run.end
    case Replied =>
      && n > 0 && !HasAnswer(q, run.levels[n - 1]) && SectionsOf(run.levels[n - 1]).rcode !in {0, 3}
      && !Redirects(q, run.levels[n - 1], hops) && RefOf(q, run.levels[n - 1]).names == []
    case Followed(rest) => n > 0 && Redirects(q, run.levels[n - 1], hops) && rest.result.None?
    case OutOfLevels(_) => n == 16
    case Silent(servers, start) =>
      && ServersAt(w, q, run, n, servers, start, depth)
      && forall j :: 0 <= j < |servers| ==> Unusable(w.oracle(start + j, servers[j], q.name, q.qtype))
    case Stranded => n > 0 && RefOf(q, run.levels[n - 1]).names != [] && NoServers(w, q, run.levels[n - 1], depth)
  }

  /** Every failure has one of these reasons. */
  lemma FailureHasReason(w: World, q: Question, lo: nat, depth: nat, hops: nat) returns (run: Run)
    requires hops <= 8 && Whole(w, q, lo, depth, hops).result.None?
    ensures IsRun(w, q, run, depth, hops) && run.lo == lo && run.hi == Whole(w, q, lo, depth, hops).asked
    ensures run.result.None? && HasReason(w, q, run, depth, hops)
  {
    hide Whole, Path, Next, NoServers, ScanOf, RefOf, SectionsOf, HasAnswer, ServersAt;
    run := Begin(w, q, lo, depth, hops);
  }

  /** Level t of a resolution that is answered at once at every level and given glue. */
  function Downward(w: World, q: Question, msgs: seq<seq<byte>>, k: nat, t: nat): Level
    requires t < |msgs|
  {
    if t == 0 then Level([], Cut(w.roots, 8), k, 0, msgs[0], [])
    else
      var ref := RefOf(q, Downward(w, q, msgs, k, t - 1));
      Level(ref.zone, Given(ref.addrs), k + t, 0, msgs[t], [])
  }

  /** Reply t came from the first server given for its level. */
  ghost predicate FirstSays(w: World, q: Question, msgs: seq<seq<byte>>, k: nat, t: nat)
    requires t < |msgs|
  {
    var l := Downward(w, q, msgs, k, t);
    && l.servers != [] && w.oracle(k + t, l.servers[0], q.name, q.qtype) == Some(msgs[t]) && ReadReply(msgs[t]).Some?
  }

  /** A reply that only refers on, with glue. */
  predicate JustRefers(q: Question, l: Level) {
    && SectionsOf(l).rcode != 3 && !HasAnswer(q, l) && ScanOf(q, l).cname == [] && Given(RefOf(q, l).addrs) != []
  }

  lemma {:induction false} GivenHasNames(addrs: seq<Option<Addr>>)
    ensures Given(addrs) != [] ==> addrs != []
  {
  }

  lemma DownwardShape(w: World, q: Question, msgs: seq<seq<byte>>, k: nat, t: nat)
    requires t < |msgs|
    ensures var l := Downward(w, q, msgs, k, t); l.start == k + t && l.turn == 0 && l.msg == msgs[t] && l.lookups == []
  {
    hide RefOf;
  }

  lemma DownwardFits(w: World, q: Question, msgs: seq<seq<byte>>, k: nat, t: nat, run: Run, depth: nat)
    requires t < |msgs| == |run.levels| && run.lo == k && FirstSays(w, q, msgs, k, t)
    requires run.levels[t] == Downward(w, q, msgs, k, t)
    requires t > 0 ==> run.levels[t - 1] == Downward(w, q, msgs, k, t - 1) && JustRefers(q, run.levels[t - 1])
    ensures LevelFits(w, q, run, t, depth)
  {
    hide ReadReply, RefOf, ScanOf, SectionsOf, HasAnswer, Given;
    DownwardShape(w, q, msgs, k, t);
    var l := run.levels[t];
    assert HasReply(w, q, l);
    if t > 0 {
      DownwardShape(w, q, msgs, k, t - 1);
      var prev := run.levels[t - 1];
      assert l.zone == RefOf(q, prev).zone && l.servers == Given(RefOf(q, prev).addrs);
      assert Next(w, q, prev, l.servers, l.start, depth);
      assert ServersAt(w, q, run, t, l.servers, l.start, depth);
    }
  }

  /** Delegations are followed: for every chain of at most sixteen replies, each from the first
      glue address of the one before, the last of which has the answer, resolve_from returns
      what was kept of that last reply, after as many attempts. */
  lemma {:induction false} ChainIsFollowed(w: World, q: Question, msgs: seq<seq<byte>>, k: nat, depth: nat, hops: nat)
    requires 1 <= |msgs| <= 16 && hops <= 8
    requires forall t :: 0 <= t < |msgs| ==> FirstSays(w, q, msgs, k, t)
    requires forall t :: 0 <= t < |msgs| - 1 ==> JustRefers(q, Downward(w, q, msgs, k, t))
    requires var last := Downward(w, q, msgs, k, |msgs| - 1); SectionsOf(last).rcode != 3 && HasAnswer(q, last)
    ensures Whole(w, q, k, depth, hops) ==
            Outcome(Some(Resolution(ScanOf(q, Downward(w, q, msgs, k, |msgs| - 1)).kept, 0)), k + |msgs|)
  {
    hide Whole, LevelFits, FirstSays, ScanOf, RefOf, SectionsOf, HasAnswer, Given;
    var levels := seq(|msgs|, t requires 0 <= t < |msgs| => Downward(w, q, msgs, k, t));
    var last := levels[|msgs| - 1];
    var run := Run(levels, Replied, Some(Resolution(ScanOf(q, last).kept, 0)), k, k + |msgs|);
    forall t | 0 <= t < |levels| ensures LevelFits(w, q, run, t, depth) {
      DownwardFits(w, q, msgs, k, t, run, depth);
    }
    forall t | 0 <= t < |levels| - 1 ensures Refers(q, levels[t], hops) {
      assert JustRefers(q, levels[t]);
      RefersWithGlue(q, levels[t], hops);
    }
    DownwardShape(w, q, msgs, k, |msgs| - 1);
    assert Path(w, q, run, depth, hops);
    RunIsResolve(w, q, run, depth, hops);
  }

  lemma RefersWithGlue(q: Question, l: Level, hops: nat)
    requires JustRefers(q, l)
    ensures Refers(q, l, hops)
  {
    hide ScanOf, SectionsOf, HasAnswer, ReferralOf;
    GivenHasNames(RefOf(q, l).addrs);
  }
}
