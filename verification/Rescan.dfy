/** The answer section of dissect() in resolver.c: records are accepted only for names on
    the CNAME chain that starts at the name asked for, and the section is rescanned until
    the chain stops growing. */
module Rescan {
  import opened Names
  import opened NameCodec
  import opened Wire

  const MAX_CNAME_HOPS := 8

  /** A record as dissect sees it: the target is what its data decodes to as a name. */
  datatype Rec = Rec(name: seq<byte>, rtype: nat, rclass: nat, ttl: nat, rdata: seq<byte>, target: Option<seq<byte>>)

  /** The answer a record turns into, if it is of a kind that is kept. */
  function ToAnswer(r: Rec): Option<Answer> {
    if r.rtype == TYPE_A && |r.rdata| == 4 then Some(Answer(r.name, r.ttl, AData(r.rdata)))
    else if r.rtype == TYPE_AAAA && |r.rdata| == 16 then Some(Answer(r.name, r.ttl, AaaaData(r.rdata)))
    else if r.rtype == TYPE_CNAME && r.target.Some? then Some(Answer(r.name, r.ttl, CNameData(r.target.value)))
    else None
  }

  /** Records this server may speak for at all: class IN, at or below its zone, usable. */
  predicate Eligible(r: Rec, zone: seq<byte>) {
    r.rclass == CLASS_IN && InBailiwick(r.name, zone) && ToAnswer(r).Some?
  }

  predicate OnChain(chain: seq<seq<byte>>, n: seq<byte>) {
    exists i :: 0 <= i < |chain| && NameEq(chain[i], n)
  }

  /** The state of one pass: the chain, the answers kept, the CNAME to chase. */
  datatype Scan = Scan(chain: seq<seq<byte>>, kept: seq<Answer>, cname: seq<byte>)

  function Push(kept: seq<Answer>, a: Answer, cap: nat): seq<Answer> {
    if |kept| < cap then kept + [a] else kept
  }

  function Grow(chain: seq<seq<byte>>, target: seq<byte>): seq<seq<byte>> {
    if !OnChain(chain, target) && |chain| <= MAX_CNAME_HOPS then chain + [target] else chain
  }

  /** One record of one pass. */
  function ScanOne(s: Scan, r: Rec, qname: seq<byte>, zone: seq<byte>, cap: nat): Scan {
    if !Eligible(r, zone) || !OnChain(s.chain, r.name) then s
    else
      var a := ToAnswer(r).value;
      if a.data.CNameData? then
        var cname := if NameEq(r.name, qname) then a.data.target else s.cname;
        Scan(Grow(s.chain, a.data.target), Push(s.kept, a, cap), cname)
      else s.(kept := Push(s.kept, a, cap))
  }

  function ScanAll(s: Scan, recs: seq<Rec>, qname: seq<byte>, zone: seq<byte>, cap: nat): Scan
    decreases |recs|
  {
    if recs == [] then s else ScanAll(ScanOne(s, recs[0], qname, zone, cap), recs[1..], qname, zone, cap)
  }

  /** A pass over the whole section from a given chain. */
  function Pass(chain: seq<seq<byte>>, recs: seq<Rec>, qname: seq<byte>, zone: seq<byte>, cap: nat): Scan {
    ScanAll(Scan(chain, [], []), recs, qname, zone, cap)
  }

  /** Passes from number `pass` on: another one while the chain has grown, nine in all. */
  function Passes(chain: seq<seq<byte>>, recs: seq<Rec>, qname: seq<byte>, zone: seq<byte>, cap: nat, pass: nat): Scan
    decreases MAX_CNAME_HOPS - pass
  {
    var r := Pass(chain, recs, qname, zone, cap);
    if |r.chain| == |chain| || pass >= MAX_CNAME_HOPS then r
    else Passes(r.chain, recs, qname, zone, cap, pass + 1)
  }

  function Answers(recs: seq<Rec>, qname: seq<byte>, zone: seq<byte>, cap: nat): Scan {
    Passes([qname], recs, qname, zone, cap, 0)
  }

  // ---------------------------------------------------------------- the loops

  /** The chain lookup loops. */
  method FindOnChain(chain: seq<seq<byte>>, n: seq<byte>) returns (found: bool)
    ensures found <==> OnChain(chain, n)
  {
    hide NameEq;
    found := false;
    var c := 0;
    while c < |chain| && !found
      invariant c <= |chain| && (found ==> OnChain(chain, n))
      invariant !found ==> forall i :: 0 <= i < c ==> !NameEq(chain[i], n)
    {
      found := EqualNames(chain[c], n);
      c := c + 1;
    }
  }

  /** The loop over the records within one pass. */
  method ScanSection(recs: seq<Rec>, from: seq<seq<byte>>, qname: seq<byte>, zone: seq<byte>, cap: nat)
    returns (s: Scan)
    ensures s == Pass(from, recs, qname, zone, cap)
  {
    hide NameEq, OnChain, InBailiwick;
    var chain, kept, cname := from, [], [];
    var i := 0;
    assert recs[0..] == recs;
    while i < |recs|
      invariant i <= |recs|
      invariant Pass(from, recs, qname, zone, cap) == ScanAll(Scan(chain, kept, cname), recs[i..], qname, zone, cap)
    {
      var r := recs[i];
      assert recs[i..][0] == r && recs[i..][1..] == recs[i + 1..];
      i := i + 1;
      if r.rclass != CLASS_IN || !InBailiwick(r.name, zone) { continue; }
      var on := FindOnChain(chain, r.name);
      if !on { continue; }
      var a := ToAnswer(r);
      if a.None? { continue; }
      if |kept| < cap { kept := kept + [a.value]; }
      if a.value.data.CNameData? {
        var same := EqualNames(r.name, qname);
        if same { cname := a.value.data.target; }
        var known := FindOnChain(chain, a.value.data.target);
        if !known && |chain| <= MAX_CNAME_HOPS { chain := chain + [a.value.data.target]; }
      }
    }
    assert recs[i..] == [];
    return Scan(chain, kept, cname);
  }

  /** The pass loop of dissect. */
  method CollectAnswers(recs: seq<Rec>, qname: seq<byte>, zone: seq<byte>, cap: nat) returns (s: Scan)
    ensures s == Answers(recs, qname, zone, cap)
  {
    hide Pass;
    var pass, chain := 0, [qname];
    s := ScanSection(recs, chain, qname, zone, cap);
    while |s.chain| != |chain| && pass < MAX_CNAME_HOPS
      invariant 0 <= pass <= MAX_CNAME_HOPS && s == Pass(chain, recs, qname, zone, cap)
      invariant Answers(recs, qname, zone, cap) == Passes(chain, recs, qname, zone, cap, pass)
      decreases MAX_CNAME_HOPS - pass
    {
      chain := s.chain;
      pass := pass + 1;
      s := ScanSection(recs, chain, qname, zone, cap);
    }
  }

  // ---------------------------------------------------------------- chains as sets

  /** The names on a chain, up to case. */
  function NameSet(chain: seq<seq<byte>>): set<seq<byte>> {
    set i | 0 <= i < |chain| :: Lower(chain[i])
  }

  lemma OnChainIsMember(chain: seq<seq<byte>>, n: seq<byte>)
    ensures OnChain(chain, n) <==> Lower(n) in NameSet(chain)
  {
    hide Lower;
    if Lower(n) in NameSet(chain) {
      var i :| 0 <= i < |chain| && Lower(chain[i]) == Lower(n);
      assert NameEq(chain[i], n);
    }
  }

  /** A chain never repeats a name and never exceeds nine. */
  predicate ProperChain(chain: seq<seq<byte>>) {
    && 1 <= |chain| <= MAX_CNAME_HOPS + 1
    && forall i, j :: 0 <= i < j < |chain| ==> Lower(chain[i]) != Lower(chain[j])
  }

  lemma {:induction false} ProperChainSize(chain: seq<seq<byte>>)
    requires forall i, j :: 0 <= i < j < |chain| ==> Lower(chain[i]) != Lower(chain[j])
    ensures |NameSet(chain)| == |chain|
  {
    hide Lower;
    if chain != [] {
      var front, last := chain[..|chain| - 1], chain[|chain| - 1];
      ProperChainSize(front);
      assert NameSet(chain) == NameSet(front) + {Lower(last)} by {
        assert forall i :: 0 <= i < |front| ==> chain[i] == front[i];
      }
      assert Lower(last) !in NameSet(front);
    } else {
      assert NameSet(chain) == {};
    }
  }

  /** An accepted CNAME leads from its owner to its target. */
  predicate Leads(recs: seq<Rec>, zone: seq<byte>, i: nat) {
    i < |recs| && Eligible(recs[i], zone) && ToAnswer(recs[i]).value.data.CNameData?
  }

  function TargetOf(r: Rec): seq<byte>
    requires ToAnswer(r).Some? && ToAnswer(r).value.data.CNameData?
  {
    ToAnswer(r).value.data.target
  }

  /** A set of names that contains the name asked for and is closed under the CNAMEs. */
  predicate Closed(names: set<seq<byte>>, recs: seq<Rec>, qname: seq<byte>, zone: seq<byte>) {
    && Lower(qname) in names
    && forall i :: 0 <= i < |recs| && Leads(recs, zone, i) && Lower(recs[i].name) in names ==>
         Lower(TargetOf(recs[i])) in names
  }

  /** The least such set, if `names` is one. */
  ghost predicate LeastClosed(names: set<seq<byte>>, recs: seq<Rec>, qname: seq<byte>, zone: seq<byte>) {
    && Closed(names, recs, qname, zone)
    && forall other :: Closed(other, recs, qname, zone) ==> names <= other
  }

  // ---------------------------------------------------------------- one record

  lemma GrowKeepsProper(chain: seq<seq<byte>>, target: seq<byte>)
    requires ProperChain(chain)
    ensures ProperChain(Grow(chain, target)) && chain <= Grow(chain, target)
    ensures |Grow(chain, target)| <= |chain| + 1
  {
    hide Lower;
    OnChainIsMember(chain, target);
    if !OnChain(chain, target) && |chain| <= MAX_CNAME_HOPS {
      assert forall i :: 0 <= i < |chain| ==> Lower(chain[i]) in NameSet(chain);
    }
  }

  lemma StepKeepsProper(s: Scan, r: Rec, qname: seq<byte>, zone: seq<byte>, cap: nat)
    requires ProperChain(s.chain)
    ensures ProperChain(ScanOne(s, r, qname, zone, cap).chain)
    ensures s.chain <= ScanOne(s, r, qname, zone, cap).chain
  {
    hide ProperChain, OnChain, InBailiwick, NameEq, Grow;
    if Eligible(r, zone) && OnChain(s.chain, r.name) && ToAnswer(r).value.data.CNameData? {
      GrowKeepsProper(s.chain, TargetOf(r));
    }
  }

  /** Every pass keeps the chain proper and only adds to its end. */
  lemma {:induction false} ScanKeepsProper(s: Scan, recs: seq<Rec>, qname: seq<byte>, zone: seq<byte>, cap: nat)
    requires ProperChain(s.chain)
    ensures ProperChain(ScanAll(s, recs, qname, zone, cap).chain)
    ensures s.chain <= ScanAll(s, recs, qname, zone, cap).chain
    decreases |recs|
  {
    hide ProperChain, ScanOne;
    if recs != [] {
      StepKeepsProper(s, recs[0], qname, zone, cap);
      ScanKeepsProper(ScanOne(s, recs[0], qname, zone, cap), recs[1..], qname, zone, cap);
    }
  }

  // ---------------------------------------------------------------- convergence

  /** The rescan always ends by convergence: the last of the at most nine passes, over the
      final chain, does not grow it. */
  lemma {:induction false} PassesConverge(chain: seq<seq<byte>>, recs: seq<Rec>, qname: seq<byte>, zone: seq<byte>,
                                          cap: nat, pass: nat)
    requires ProperChain(chain) && pass <= MAX_CNAME_HOPS && |chain| > pass
    ensures var s := Passes(chain, recs, qname, zone, cap, pass);
            ProperChain(s.chain) && chain <= s.chain && s == Pass(s.chain, recs, qname, zone, cap)
    decreases MAX_CNAME_HOPS - pass
  {
    hide ScanAll;
    var r := Pass(chain, recs, qname, zone, cap);
    ScanKeepsProper(Scan(chain, [], []), recs, qname, zone, cap);
    if |r.chain| == |chain| {
      assert r.chain == chain;
    } else if pass < MAX_CNAME_HOPS {
      PassesConverge(r.chain, recs, qname, zone, cap, pass + 1);
    }
  }

  lemma AnswersConverge(recs: seq<Rec>, qname: seq<byte>, zone: seq<byte>, cap: nat)
    ensures var s := Answers(recs, qname, zone, cap);
            ProperChain(s.chain) && s.chain[0] == qname && s == Pass(s.chain, recs, qname, zone, cap)
  {
    PassesConverge([qname], recs, qname, zone, cap, 0);
  }

  // ---------------------------------------------------------------- soundness

  /** Nothing gets on the chain that is not in every closed set. */
  lemma {:induction false} ScanStaysInside(s: Scan, recs: seq<Rec>, i: nat, qname: seq<byte>, zone: seq<byte>, cap: nat,
                                           names: set<seq<byte>>)
    requires i <= |recs| && Closed(names, recs, qname, zone) && NameSet(s.chain) <= names
    ensures NameSet(ScanAll(s, recs[i..], qname, zone, cap).chain) <= names
    decreases |recs| - i
  {
    hide Lower, InBailiwick, NameEq, NameSet, OnChain, Closed;
    if i < |recs| {
      var r := recs[i];
      assert recs[i..][0] == r && recs[i..][1..] == recs[i + 1..];
      var s' := ScanOne(s, r, qname, zone, cap);
      assert NameSet(s'.chain) <= names by { StepStaysInside(s, recs, i, qname, zone, cap, names); }
      ScanStaysInside(s', recs, i + 1, qname, zone, cap, names);
    }
  }

  lemma StepStaysInside(s: Scan, recs: seq<Rec>, i: nat, qname: seq<byte>, zone: seq<byte>, cap: nat,
                        names: set<seq<byte>>)
    requires i < |recs| && Closed(names, recs, qname, zone) && NameSet(s.chain) <= names
    ensures NameSet(ScanOne(s, recs[i], qname, zone, cap).chain) <= names
  {
    hide Lower, InBailiwick, NameEq, OnChain;
    var r := recs[i];
    OnChainIsMember(s.chain, r.name);
    if Eligible(r, zone) && OnChain(s.chain, r.name) && ToAnswer(r).value.data.CNameData? {
      assert Leads(recs, zone, i);
      NameSetGrow(s.chain, TargetOf(r));
    }
  }

  lemma NameSetGrow(chain: seq<seq<byte>>, target: seq<byte>)
    ensures NameSet(chain) <= NameSet(Grow(chain, target)) <= NameSet(chain) + {Lower(target)}
  {
    hide Lower, OnChain;
    var g := Grow(chain, target);
    assert forall i :: 0 <= i < |chain| ==> g[i] == chain[i];
  }

  lemma {:induction false} PassesStayInside(chain: seq<seq<byte>>, recs: seq<Rec>, qname: seq<byte>, zone: seq<byte>,
                                            cap: nat, pass: nat, names: set<seq<byte>>)
    requires Closed(names, recs, qname, zone) && NameSet(chain) <= names
    ensures NameSet(Passes(chain, recs, qname, zone, cap, pass).chain) <= names
    decreases MAX_CNAME_HOPS - pass
  {
    hide Closed, NameSet, ScanAll;
    var r := Pass(chain, recs, qname, zone, cap);
    ScanStaysInside(Scan(chain, [], []), recs, 0, qname, zone, cap, names);
    assert recs[0..] == recs;
    if |r.chain| != |chain| && pass < MAX_CNAME_HOPS {
      PassesStayInside(r.chain, recs, qname, zone, cap, pass + 1, names);
    }
  }

  // ---------------------------------------------------------------- completeness

  /** A pass that did not grow its chain changed it nowhere. */
  lemma {:induction false} SteadyThroughout(s: Scan, recs: seq<Rec>, qname: seq<byte>, zone: seq<byte>, cap: nat)
    requires ProperChain(s.chain) && recs != [] && ScanAll(s, recs, qname, zone, cap).chain == s.chain
    ensures ScanOne(s, recs[0], qname, zone, cap).chain == s.chain
    ensures ScanAll(ScanOne(s, recs[0], qname, zone, cap), recs[1..], qname, zone, cap).chain == s.chain
  {
    hide ProperChain, ScanOne;
    StepKeepsProper(s, recs[0], qname, zone, cap);
    ScanKeepsProper(ScanOne(s, recs[0], qname, zone, cap), recs[1..], qname, zone, cap);
  }

  /** A steady pass over a chain shorter than nine has followed every CNAME. */
  lemma {:induction false} SteadyIsClosed(s: Scan, recs: seq<Rec>, i: nat, k: nat, qname: seq<byte>, zone: seq<byte>,
                                          cap: nat)
    requires ProperChain(s.chain) && |s.chain| <= MAX_CNAME_HOPS && i <= k < |recs|
    requires ScanAll(s, recs[i..], qname, zone, cap).chain == s.chain
    requires Leads(recs, zone, k) && OnChain(s.chain, recs[k].name)
    ensures OnChain(s.chain, TargetOf(recs[k]))
    decreases k - i
  {
    hide ProperChain, OnChain, InBailiwick, NameEq;
    assert recs[i..][0] == recs[i] && recs[i..][1..] == recs[i + 1..];
    SteadyThroughout(s, recs[i..], qname, zone, cap);
    var s' := ScanOne(s, recs[i], qname, zone, cap);
    if i < k {
      SteadyIsClosed(s', recs, i + 1, k, qname, zone, cap);
    } else {
      assert s'.chain == Grow(s.chain, TargetOf(recs[k]));
    }
  }

  lemma ShortChainIsClosed(recs: seq<Rec>, qname: seq<byte>, zone: seq<byte>, cap: nat)
    requires |Answers(recs, qname, zone, cap).chain| <= MAX_CNAME_HOPS
    ensures Closed(NameSet(Answers(recs, qname, zone, cap).chain), recs, qname, zone)
  {
    hide Lower, Answers, NameSet, InBailiwick, OnChain, ScanAll;
    var s := Answers(recs, qname, zone, cap);
    AnswersConverge(recs, qname, zone, cap);
    assert recs[0..] == recs;
    OnChainIsMember(s.chain, qname);
    SelfOnChain(s.chain);
    forall i | 0 <= i < |recs| && Leads(recs, zone, i) && Lower(recs[i].name) in NameSet(s.chain)
      ensures Lower(TargetOf(recs[i])) in NameSet(s.chain)
    {
      OnChainIsMember(s.chain, recs[i].name);
      OnChainIsMember(s.chain, TargetOf(recs[i]));
      SteadyIsClosed(Scan(s.chain, [], []), recs, 0, i, qname, zone, cap);
    }
  }

  lemma SelfOnChain(chain: seq<seq<byte>>)
    requires chain != []
    ensures OnChain(chain, chain[0])
  {
    assert NameEq(chain[0], chain[0]);
  }

  /** If at most nine names can be reached at all, the final chain is exactly the least
      closed set: every name reachable from the question, and nothing else. */
  lemma ChainIsLeastFixpoint(recs: seq<Rec>, qname: seq<byte>, zone: seq<byte>, cap: nat, bound: set<seq<byte>>)
    requires Closed(bound, recs, qname, zone) && |bound| <= 9
    ensures LeastClosed(NameSet(Answers(recs, qname, zone, cap).chain), recs, qname, zone)
  {
    hide Lower, Closed, NameSet, Answers;
    var chain := Answers(recs, qname, zone, cap).chain;
    var names := NameSet(chain);
    AnswersConverge(recs, qname, zone, cap);
    ProperChainSize(chain);
    forall other | Closed(other, recs, qname, zone) ensures names <= other {
      ChainInside(recs, qname, zone, cap, other);
    }
    if |chain| <= MAX_CNAME_HOPS {
      ShortChainIsClosed(recs, qname, zone, cap);
    } else {
      SubsetOfSameSize(names, bound);
    }
  }

  /** And exactly then: a chain that is the least closed set is itself a closed set of at
      most nine names.  With more, which nine are kept
      may depend on record order (OrderMattersBeyondNine). */
  lemma LeastFixpointExactly(recs: seq<Rec>, qname: seq<byte>, zone: seq<byte>, cap: nat)
    ensures LeastClosed(NameSet(Answers(recs, qname, zone, cap).chain), recs, qname, zone) <==>
            exists bound :: Closed(bound, recs, qname, zone) && |bound| <= 9
  {
    hide Lower, Closed, NameSet, Answers;
    var chain := Answers(recs, qname, zone, cap).chain;
    AnswersConverge(recs, qname, zone, cap);
    ProperChainSize(chain);
    if exists bound :: Closed(bound, recs, qname, zone) && |bound| <= 9 {
      var bound :| Closed(bound, recs, qname, zone) && |bound| <= 9;
      ChainIsLeastFixpoint(recs, qname, zone, cap, bound);
    }
  }

  lemma ChainInside(recs: seq<Rec>, qname: seq<byte>, zone: seq<byte>, cap: nat, names: set<seq<byte>>)
    requires Closed(names, recs, qname, zone)
    ensures NameSet(Answers(recs, qname, zone, cap).chain) <= names
  {
    hide Lower, Passes;
    assert NameSet([qname]) == {Lower(qname)} by { assert [qname][0] == qname; }
    PassesStayInside([qname], recs, qname, zone, cap, 0, names);
  }

  lemma SubsetOfSameSize<T>(a: set<T>, b: set<T>)
    requires a <= b && |a| >= |b|
    ensures a == b
  {
    assert |b - a| == |b| - |a|;
    assert b - a == {};
  }

  // ---------------------------------------------------------------- what is kept

  /** The eligible answers owned by names of a set, in section order. */
  function Owned(recs: seq<Rec>, names: set<seq<byte>>, zone: seq<byte>): seq<Answer> {
    if recs == [] then []
    else if Eligible(recs[0], zone) && Lower(recs[0].name) in names then
      [ToAnswer(recs[0]).value] + Owned(recs[1..], names, zone)
    else Owned(recs[1..], names, zone)
  }

  /** Record i is an accepted CNAME of the name asked for. */
  predicate Renames(recs: seq<Rec>, qname: seq<byte>, zone: seq<byte>, i: nat) {
    Leads(recs, zone, i) && NameEq(recs[i].name, qname)
  }

  /** What the last such record from i on says; otherwise nothing changes. */
  predicate LastSays(cname: seq<byte>, before: seq<byte>, recs: seq<Rec>, qname: seq<byte>, zone: seq<byte>, i: nat) {
    || (cname == before && forall k :: i <= k < |recs| ==> !Renames(recs, qname, zone, k))
    || exists k :: i <= k < |recs| && Renames(recs, qname, zone, k) && cname == TargetOf(recs[k])
                   && forall j :: k < j < |recs| ==> !Renames(recs, qname, zone, j)
  }

  lemma {:induction false} CnameFrom(s: Scan, recs: seq<Rec>, i: nat, qname: seq<byte>, zone: seq<byte>, cap: nat)
    requires i <= |recs| && s.chain != [] && s.chain[0] == qname
    ensures LastSays(ScanAll(s, recs[i..], qname, zone, cap).cname, s.cname, recs, qname, zone, i)
    decreases |recs| - i
  {
    hide NameEq, InBailiwick, Push, LastSays;
    if i == |recs| {
      assert recs[i..] == [];
      assert LastSays(s.cname, s.cname, recs, qname, zone, i) by { NothingSaid(s.cname, recs, qname, zone); }
    } else {
      assert recs[i..][0] == recs[i] && recs[i..][1..] == recs[i + 1..];
      var t := ScanOne(s, recs[i], qname, zone, cap);
      CnameFrom(t, recs, i + 1, qname, zone, cap);
      SaidOne(s, recs, i, qname, zone, cap);
      SaidBefore(ScanAll(s, recs[i..], qname, zone, cap).cname, s.cname, t.cname, recs, qname, zone, i);
    }
  }

  lemma NothingSaid(cname: seq<byte>, recs: seq<Rec>, qname: seq<byte>, zone: seq<byte>)
    ensures LastSays(cname, cname, recs, qname, zone, |recs|)
  {
  }

  lemma SaidOne(s: Scan, recs: seq<Rec>, i: nat, qname: seq<byte>, zone: seq<byte>, cap: nat)
    requires i < |recs| && s.chain != [] && s.chain[0] == qname
    ensures var t := ScanOne(s, recs[i], qname, zone, cap);
            && t.chain != [] && t.chain[0] == qname
            && t.cname == if Renames(recs, qname, zone, i) then TargetOf(recs[i]) else s.cname
  {
    hide InBailiwick, Push;
    if NameEq(recs[i].name, qname) { assert OnChain(s.chain, recs[i].name); }
  }

  lemma SaidBefore(cname: seq<byte>, before: seq<byte>, now: seq<byte>, recs: seq<Rec>, qname: seq<byte>,
                   zone: seq<byte>, i: nat)
    requires i < |recs| && now == (if Renames(recs, qname, zone, i) then TargetOf(recs[i]) else before)
    requires LastSays(cname, now, recs, qname, zone, i + 1)
    ensures LastSays(cname, before, recs, qname, zone, i)
  {
    hide Leads, NameEq;
  }

  /** The CNAME to chase is the target of the last accepted CNAME of the name asked for, and
      there is none exactly if no such record names one. */
  lemma CnameIsLast(recs: seq<Rec>, qname: seq<byte>, zone: seq<byte>, cap: nat)
    ensures LastSays(Answers(recs, qname, zone, cap).cname, [], recs, qname, zone, 0)
  {
    hide ScanAll, Answers, LastSays;
    var s := Answers(recs, qname, zone, cap);
    AnswersConverge(recs, qname, zone, cap);
    assert recs[0..] == recs;
    CnameFrom(Scan(s.chain, [], []), recs, 0, qname, zone, cap);
  }

  lemma PushIsCut(kept: seq<Answer>, a: Answer, rest: seq<Answer>, cap: nat)
    requires |kept| <= cap
    ensures Cut(Push(kept, a, cap) + rest, cap) == Cut(kept + ([a] + rest), cap)
    ensures |Push(kept, a, cap)| <= cap
  {
  }

  /** A steady pass keeps the answers owned by its chain, up to the capacity. */
  lemma {:induction false} SteadyKeepsOwned(s: Scan, recs: seq<Rec>, qname: seq<byte>, zone: seq<byte>, cap: nat)
    requires ProperChain(s.chain) && |s.kept| <= cap && ScanAll(s, recs, qname, zone, cap).chain == s.chain
    ensures ScanAll(s, recs, qname, zone, cap).kept == Cut(s.kept + Owned(recs, NameSet(s.chain), zone), cap)
    decreases |recs|
  {
    hide ProperChain, NameSet, OnChain, InBailiwick, Lower, NameEq, Cut, Grow, Push;
    if recs == [] {
      CutNothing(s.kept, cap);
    } else {
      var r := recs[0];
      SteadyThroughout(s, recs, qname, zone, cap);
      OnChainIsMember(s.chain, r.name);
      var s' := ScanOne(s, r, qname, zone, cap);
      if Eligible(r, zone) && OnChain(s.chain, r.name) {
        PushIsCut(s.kept, ToAnswer(r).value, Owned(recs[1..], NameSet(s.chain), zone), cap);
      }
      SteadyKeepsOwned(s', recs[1..], qname, zone, cap);
    }
  }

  lemma CutNothing(kept: seq<Answer>, cap: nat)
    requires |kept| <= cap
    ensures Cut(kept + [], cap) == kept
  {
    assert kept + [] == kept;
  }

  /** The result: the answers owned by the names of the final chain, in section order,
      cut to the capacity. */
  lemma KeptIsOwned(recs: seq<Rec>, qname: seq<byte>, zone: seq<byte>, cap: nat)
    ensures var s := Answers(recs, qname, zone, cap);
            s.kept == Cut(Owned(recs, NameSet(s.chain), zone), cap)
  {
    hide Answers, Cut, Owned, NameSet, ScanAll;
    var s := Answers(recs, qname, zone, cap);
    AnswersConverge(recs, qname, zone, cap);
    SteadyKeepsOwned(Scan(s.chain, [], []), recs, qname, zone, cap);
    assert [] + Owned(recs, NameSet(s.chain), zone) == Owned(recs, NameSet(s.chain), zone);
  }

  // ---------------------------------------------------------------- order

  lemma {:induction false} OwnedConcat(a: seq<Rec>, b: seq<Rec>, names: set<seq<byte>>, zone: seq<byte>)
    ensures Owned(a + b, names, zone) == Owned(a, names, zone) + Owned(b, names, zone)
  {
    hide Eligible, Lower;
    if a == [] {
      assert a + b == b;
    } else {
      assert (a + b)[1..] == a[1..] + b;
      OwnedConcat(a[1..], b, names, zone);
    }
  }

  lemma {:induction false} OwnedWithout(b: seq<Rec>, k: nat, names: set<seq<byte>>, zone: seq<byte>)
    requires k < |b|
    ensures multiset(Owned(b, names, zone)) ==
              multiset(Owned([b[k]], names, zone)) + multiset(Owned(b[..k] + b[k + 1..], names, zone))
  {
    hide Owned;
    OwnedConcat(b[..k], [b[k]] + b[k + 1..], names, zone);
    OwnedConcat([b[k]], b[k + 1..], names, zone);
    OwnedConcat(b[..k], b[k + 1..], names, zone);
    assert b == b[..k] + ([b[k]] + b[k + 1..]);
  }

  lemma RemoveBoth<T>(a: seq<T>, b: seq<T>, k: nat)
    requires multiset(a) == multiset(b) && a != [] && k < |b| && b[k] == a[0]
    ensures multiset(a[1..]) == multiset(b[..k] + b[k + 1..])
  {
    assert a == [a[0]] + a[1..] && b == b[..k] + ([b[k]] + b[k + 1..]);
    assert multiset(a) == multiset{a[0]} + multiset(a[1..]);
    assert multiset(b) == multiset(b[..k]) + (multiset{b[k]} + multiset(b[k + 1..]));
    assert multiset(b[..k] + b[k + 1..]) == multiset(b[..k]) + multiset(b[k + 1..]);
    assert multiset(a[1..]) == multiset(a) - multiset{a[0]};
    assert multiset(b[..k]) + multiset(b[k + 1..]) == multiset(b) - multiset{a[0]};
  }

  /** A reordered section owns the same answers, as a multiset. */
  lemma {:induction false} OwnedIgnoresOrder(a: seq<Rec>, b: seq<Rec>, names: set<seq<byte>>, zone: seq<byte>)
    requires multiset(a) == multiset(b)
    ensures multiset(Owned(a, names, zone)) == multiset(Owned(b, names, zone))
    decreases |a|
  {
    hide Owned;
    if a == [] {
      assert |multiset(b)| == 0;
      assert b == [];
    } else {
      var x := a[0];
      assert x in multiset(b);
      var k :| 0 <= k < |b| && b[k] == x;
      var b' := b[..k] + b[k + 1..];
      RemoveBoth(a, b, k);
      OwnedIgnoresOrder(a[1..], b', names, zone);
      OwnedWithout(b, k, names, zone);
      OwnedConcat([x], a[1..], names, zone);
      assert [x] + a[1..] == a;
    }
  }

  /** Closure does not depend on the order of the section. */
  lemma ClosedIgnoresOrder(names: set<seq<byte>>, a: seq<Rec>, b: seq<Rec>, qname: seq<byte>, zone: seq<byte>)
    requires multiset(a) == multiset(b) && Closed(names, a, qname, zone)
    ensures Closed(names, b, qname, zone)
  {
    hide Lower, InBailiwick;
    forall i | 0 <= i < |b| && Leads(b, zone, i) && Lower(b[i].name) in names ensures Lower(TargetOf(b[i])) in names {
      assert b[i] in multiset(b);
      var k :| 0 <= k < |a| && a[k] == b[i];
      assert Leads(a, zone, k);
    }
  }

  /** Order independence: if at most nine names are reachable and the result is not cut,
      reordering the answer section yields the same answers. */
  lemma OrderDoesNotMatter(a: seq<Rec>, b: seq<Rec>, qname: seq<byte>, zone: seq<byte>, cap: nat, bound: set<seq<byte>>)
    requires multiset(a) == multiset(b)
    requires Closed(bound, a, qname, zone) && |bound| <= 9
    requires |Answers(a, qname, zone, cap).kept| < cap
    ensures multiset(Answers(a, qname, zone, cap).kept) == multiset(Answers(b, qname, zone, cap).kept)
    ensures NameSet(Answers(a, qname, zone, cap).chain) == NameSet(Answers(b, qname, zone, cap).chain)
  {
    hide Answers, NameSet, Closed, Owned;
    var x, y := NameSet(Answers(a, qname, zone, cap).chain), NameSet(Answers(b, qname, zone, cap).chain);
    ClosedIgnoresOrder(bound, a, b, qname, zone);
    ChainIsLeastFixpoint(a, qname, zone, cap, bound);
    ChainIsLeastFixpoint(b, qname, zone, cap, bound);
    ClosedIgnoresOrder(x, a, b, qname, zone);
    ClosedIgnoresOrder(y, b, a, qname, zone);
    assert x == y;
    KeptIsOwned(a, qname, zone, cap);
    KeptIsOwned(b, qname, zone, cap);
    OwnedIgnoresOrder(a, b, x, zone);
    assert |multiset(Owned(a, x, zone))| == |multiset(Owned(b, x, zone))|;
  }

  // ---------------------------------------------------------------- acceptance

  lemma {:induction false} OwnedFrom(recs: seq<Rec>, names: set<seq<byte>>, zone: seq<byte>, j: nat)
    requires j < |Owned(recs, names, zone)|
    ensures var a := Owned(recs, names, zone)[j];
            && InBailiwick(a.owner, zone) && Lower(a.owner) in names
            && exists r :: r in recs && Eligible(r, zone) && ToAnswer(r) == Some(a)
    decreases |recs|
  {
    hide InBailiwick, Lower;
    if Eligible(recs[0], zone) && Lower(recs[0].name) in names {
      if j > 0 { OwnedFrom(recs[1..], names, zone, j - 1); }
    } else {
      OwnedFrom(recs[1..], names, zone, j);
    }
  }

  /** Every kept answer is a record of the section, owned by a name of the zone that is in
      every closed set, that is, reachable from the question by accepted CNAMEs. */
  lemma KeptIsAccepted(recs: seq<Rec>, qname: seq<byte>, zone: seq<byte>, cap: nat, j: nat)
    requires j < |Answers(recs, qname, zone, cap).kept|
    ensures var a := Answers(recs, qname, zone, cap).kept[j];
            && InBailiwick(a.owner, zone)
            && (exists r :: r in recs && Eligible(r, zone) && ToAnswer(r) == Some(a))
            && forall names :: Closed(names, recs, qname, zone) ==> Lower(a.owner) in names
  {
    hide InBailiwick, Lower, Answers, Closed, Owned, NameSet;
    var s := Answers(recs, qname, zone, cap);
    KeptIsOwned(recs, qname, zone, cap);
    OwnedFrom(recs, NameSet(s.chain), zone, j);
    forall names | Closed(names, recs, qname, zone) ensures Lower(s.kept[j].owner) in names {
      ChainInside(recs, qname, zone, cap, names);
    }
  }

  // ---------------------------------------------------------------- more than nine names

  /** A section of CNAMEs that all start at one name. */
  function Fan(q: seq<byte>, ts: seq<seq<byte>>): (r: seq<Rec>)
    ensures |r| == |ts|
  {
    seq(|ts|, i requires 0 <= i < |ts| => FanRec(q, ts[i]))
  }

  function FanRec(q: seq<byte>, t: seq<byte>): Rec {
    Rec(q, TYPE_CNAME, CLASS_IN, 0, if WireName(t).Some? then WireName(t).value else [], Some(t))
  }

  predicate AllDifferent(q: seq<byte>, ts: seq<seq<byte>>) {
    forall i, j :: 0 <= i < j < |[q] + ts| ==> !NameEq(([q] + ts)[i], ([q] + ts)[j])
  }

  /** The chain a fan leads to: its start and the first eight targets. */
  function FanChain(q: seq<byte>, ts: seq<seq<byte>>): seq<seq<byte>> {
    [q] + Cut(ts, MAX_CNAME_HOPS)
  }

  lemma FanStep(s: Scan, q: seq<byte>, t: seq<byte>, cap: nat)
    requires s.chain != [] && s.chain[0] == q
    ensures ScanOne(s, FanRec(q, t), q, [], cap).chain == Grow(s.chain, t)
  {
    hide NameEq, Push;
    SameSpelling(q);
    assert OnChain(s.chain, q);
    assert Eligible(FanRec(q, t), []);
  }

  lemma SameSpelling(q: seq<byte>)
    ensures NameEq(q, q)
  {
  }

  lemma {:induction false} FanScan(s: Scan, q: seq<byte>, ts: seq<seq<byte>>, i: nat, cap: nat)
    requires i <= |ts| && AllDifferent(q, ts) && (s.chain == FanChain(q, ts[..i]) || s.chain == FanChain(q, ts))
    ensures ScanAll(s, Fan(q, ts)[i..], q, [], cap).chain == FanChain(q, ts)
    decreases |ts| - i
  {
    hide ScanOne, Grow;
    if i == |ts| {
      assert ts[..i] == ts && Fan(q, ts)[i..] == [];
    } else {
      var recs := Fan(q, ts);
      assert recs[i..][0] == FanRec(q, ts[i]) && recs[i..][1..] == recs[i + 1..];
      FanStep(s, q, ts[i], cap);
      FanGrows(q, ts, i, s.chain);
      FanScan(ScanOne(s, FanRec(q, ts[i]), q, [], cap), q, ts, i + 1, cap);
    }
  }

  lemma FanGrows(q: seq<byte>, ts: seq<seq<byte>>, i: nat, chain: seq<seq<byte>>)
    requires i < |ts| && AllDifferent(q, ts)
    ensures chain == FanChain(q, ts[..i]) ==> Grow(chain, ts[i]) == FanChain(q, ts[..i + 1])
    ensures chain == FanChain(q, ts) ==> Grow(chain, ts[i]) == chain
  {
    hide NameEq;
    SameSpelling(ts[i]);
    if chain == FanChain(q, ts[..i]) {
      forall k | 0 <= k < |chain| ensures !NameEq(chain[k], ts[i]) {
        assert chain[k] == ([q] + ts)[k] && ts[i] == ([q] + ts)[i + 1];
      }
    }
    if chain == FanChain(q, ts) && i < MAX_CNAME_HOPS {
      assert chain[i + 1] == ts[i];
    }
  }

  lemma FanAnswers(q: seq<byte>, ts: seq<seq<byte>>, cap: nat)
    requires AllDifferent(q, ts)
    ensures Answers(Fan(q, ts), q, [], cap).chain == FanChain(q, ts)
  {
    hide ScanAll, AllDifferent;
    var recs := Fan(q, ts);
    assert recs[0..] == recs && ts[..0] == [];
    FanScan(Scan([q], [], []), q, ts, 0, cap);
    FanScan(Scan(FanChain(q, ts), [], []), q, ts, 0, cap);
  }

  /** With more than nine reachable names order decides: of nine or more targets the last is
      left out, and comes in when its record is moved to the front. */
  lemma OrderMattersBeyondNine(q: seq<byte>, ts: seq<seq<byte>>, last: seq<byte>, cap: nat)
    requires |ts| >= 8 && AllDifferent(q, ts + [last])
    ensures var a, b := Fan(q, ts + [last]), Fan(q, [last] + ts);
            && multiset(a) == multiset(b)
            && Lower(last) !in NameSet(Answers(a, q, [], cap).chain)
            && Lower(last) in NameSet(Answers(b, q, [], cap).chain)
  {
    hide Answers, NameEq, Fan;
    MovedToFront(q, ts, last);
    FanIsMoved(q, ts, last);
    FanAnswers(q, ts + [last], cap);
    FanAnswers(q, [last] + ts, cap);
    var a, b := FanChain(q, ts + [last]), FanChain(q, [last] + ts);
    OnChainIsMember(a, last);
    OnChainIsMember(b, last);
    SameSpelling(last);
    assert b[1] == last;
    var all := [q] + (ts + [last]);
    forall k | 0 <= k < |a| ensures !NameEq(a[k], last) {
      assert a[k] == all[k] && all[|all| - 1] == last;
    }
  }

  lemma MovedToFront(q: seq<byte>, ts: seq<seq<byte>>, last: seq<byte>)
    requires AllDifferent(q, ts + [last])
    ensures AllDifferent(q, [last] + ts)
  {
    var a, b := [q] + (ts + [last]), [q] + ([last] + ts);
    forall i, j | 0 <= i < j < |b| ensures !NameEq(b[i], b[j]) {
      var x := if i == 0 then 0 else if i == 1 then |a| - 1 else i - 1;
      var y := if j == 1 then |a| - 1 else j - 1;
      assert a[x] == b[i] && a[y] == b[j];
      if x < y { assert !NameEq(a[x], a[y]); } else { assert !NameEq(a[y], a[x]); }
    }
  }

  lemma FanIsMoved(q: seq<byte>, ts: seq<seq<byte>>, last: seq<byte>)
    ensures multiset(Fan(q, ts + [last])) == multiset(Fan(q, [last] + ts))
  {
    hide FanRec;
    assert Fan(q, ts + [last]) == Fan(q, ts) + [FanRec(q, last)];
    assert Fan(q, [last] + ts) == [FanRec(q, last)] + Fan(q, ts);
  }
}
