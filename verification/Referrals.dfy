/** Exactly what a referral consists of: which server names dissect() takes from the authority
    section, and which addresses from the additional section. */
module Referrals {
  import opened Names
  import opened NameCodec
  import opened Wire
  import opened Rescan
  import opened Dissect

  // ---------------------------------------------------------------- server names

  /** An NS record for a zone between the current one and the name asked for. */
  predicate Offers(r: Rec, qname: seq<byte>, zone: seq<byte>) {
    && r.rtype == 2 && InBailiwick(r.name, zone) && InBailiwick(qname, r.name)
    && (zone == [] || !NameEq(r.name, zone))
  }

  /** The readable server names that such records of one owner give, in order. */
  function NamesFor(recs: seq<Rec>, owner: seq<byte>, qname: seq<byte>, zone: seq<byte>): seq<seq<byte>> {
    if recs == [] then []
    else
      var first := if Offers(recs[0], qname, zone) && NameEq(recs[0].name, owner) && recs[0].target.Some?
                   then [recs[0].target.value] else [];
      first + NamesFor(recs[1..], owner, qname, zone)
  }

  /** `f` is the first record that offers a zone below the root, or the end of the section. */
  predicate FirstOffer(recs: seq<Rec>, qname: seq<byte>, zone: seq<byte>, f: nat) {
    && f <= |recs|
    && (forall k :: 0 <= k < f ==> !(Offers(recs[k], qname, zone) && recs[k].name != []))
    && (f < |recs| ==> Offers(recs[f], qname, zone) && recs[f].name != [])
  }

  /** The owner the referral settles on there. */
  function Settled(recs: seq<Rec>, f: nat): seq<byte>
    requires f <= |recs|
  {
    if f < |recs| then recs[f].name else []
  }

  /** All server names on offer: those of the root's own records in front, then those of the
      first zone below the root. */
  function AllNames(recs: seq<Rec>, f: nat, qname: seq<byte>, zone: seq<byte>): seq<seq<byte>>
    requires f <= |recs|
  {
    NamesFor(recs[..f], [], qname, zone) + NamesFor(recs[f..], Settled(recs, f), qname, zone)
  }

  lemma OnlyRoot(a: seq<byte>)
    ensures NameEq(a, []) <==> a == []
    ensures NameEq(a, a)
  {
  }

  lemma CutMore<T>(a: seq<T>, b: seq<T>, n: nat)
    ensures |a| >= n ==> Cut(a + b, n) == Cut(a, n)
  {
  }

  /** Once a zone is settled only its own records add names, up to eight. */
  lemma {:induction false} AfterSettling(ref: Referral, recs: seq<Rec>, qname: seq<byte>, zone: seq<byte>)
    requires ref.zone != [] && |ref.names| <= 8
    ensures NsAll(ref, recs, qname, zone).names == Cut(ref.names + NamesFor(recs, ref.zone, qname, zone), 8)
    decreases |recs|
  {
    hide NameEq, InBailiwick;
    if recs == [] {
      assert ref.names + [] == ref.names;
    } else {
      var next := NsOne(ref, recs[0], qname, zone);
      AfterSettling(next, recs[1..], qname, zone);
      var rest := NamesFor(recs[1..], ref.zone, qname, zone);
      if |ref.names| < 8 && next.names != ref.names {
        Assoc(ref.names, [recs[0].target.value], rest);
      } else if |ref.names| < 8 {
        assert NamesFor(recs, ref.zone, qname, zone) == [] + rest == rest;
      } else {
        CutMore(ref.names, rest, 8);
        CutMore(ref.names, NamesFor(recs, ref.zone, qname, zone), 8);
      }
    }
  }

  /** The record at the front, while no zone is settled. */
  lemma {:induction false} FrontStep(recs: seq<Rec>, f: nat, qname: seq<byte>, zone: seq<byte>)
    requires FirstOffer(recs, qname, zone, f) && f > 0
    ensures FirstOffer(recs[1..], qname, zone, f - 1)
    ensures AllNames(recs, f, qname, zone) ==
            (if Offers(recs[0], qname, zone) && recs[0].target.Some? then [recs[0].target.value] else [])
            + AllNames(recs[1..], f - 1, qname, zone)
  {
    hide Offers, NameEq;
    var front, rest := recs[..f], recs[1..];
    assert front[1..] == rest[..f - 1] && rest[f - 1..] == recs[f..];
    assert forall k :: 0 <= k < |rest| ==> rest[k] == recs[k + 1];
    OnlyRoot(recs[0].name);
    var first := if Offers(recs[0], qname, zone) && recs[0].target.Some? then [recs[0].target.value] else [];
    Assoc(first, NamesFor(rest[..f - 1], [], qname, zone), NamesFor(recs[f..], Settled(recs, f), qname, zone));
  }

  lemma {:induction false} BeforeSettling(ref: Referral, recs: seq<Rec>, f: nat, qname: seq<byte>, zone: seq<byte>)
    requires ref.zone == [] && |ref.names| <= 8 && FirstOffer(recs, qname, zone, f)
    ensures NsAll(ref, recs, qname, zone).names == Cut(ref.names + AllNames(recs, f, qname, zone), 8)
    decreases |recs|
  {
    hide InBailiwick, NameEq, AllNames;
    if |ref.names| == 8 {
      FullStays(ref, recs, qname, zone);
      CutMore(ref.names, AllNames(recs, f, qname, zone), 8);
    } else if recs == [] {
      assert AllNames(recs, f, qname, zone) == [] by { NoNames(qname, zone); }
      assert ref.names + [] == ref.names;
    } else if f == 0 {
      SettlesHere(ref, recs, qname, zone);
    } else {
      FrontStep(recs, f, qname, zone);
      var next, rest := NsOne(ref, recs[0], qname, zone), AllNames(recs[1..], f - 1, qname, zone);
      BeforeSettling(next, recs[1..], f - 1, qname, zone);
      if Offers(recs[0], qname, zone) && recs[0].target.Some? {
        Assoc(ref.names, [recs[0].target.value], rest);
      } else {
        assert [] + rest == rest;
      }
    }
  }

  lemma NoNames(qname: seq<byte>, zone: seq<byte>)
    ensures AllNames([], 0, qname, zone) == []
  {
  }

  lemma {:induction false} SettlesHere(ref: Referral, recs: seq<Rec>, qname: seq<byte>, zone: seq<byte>)
    requires ref.zone == [] && |ref.names| < 8 && recs != [] && FirstOffer(recs, qname, zone, 0)
    ensures NsAll(ref, recs, qname, zone).names == Cut(ref.names + AllNames(recs, 0, qname, zone), 8)
  {
    hide InBailiwick, NameEq;
    var next, z := NsOne(ref, recs[0], qname, zone), recs[0].name;
    OnlyRoot(z);
    AfterSettling(next, recs[1..], qname, zone);
    var rest := NamesFor(recs[1..], z, qname, zone);
    assert recs[..0] == [] && recs[0..] == recs;
    assert AllNames(recs, 0, qname, zone) == NamesFor(recs, z, qname, zone);
    if recs[0].target.Some? {
      Assoc(ref.names, [recs[0].target.value], rest);
    } else {
      assert [] + rest == rest;
    }
  }

  lemma {:induction false} SomeFirstOffer(recs: seq<Rec>, qname: seq<byte>, zone: seq<byte>) returns (f: nat)
    ensures FirstOffer(recs, qname, zone, f)
  {
    hide Offers;
    if recs == [] || (Offers(recs[0], qname, zone) && recs[0].name != []) {
      f := 0;
    } else {
      var g := SomeFirstOffer(recs[1..], qname, zone);
      f := g + 1;
      assert forall k :: 0 <= k < |recs| - 1 ==> recs[1..][k] == recs[k + 1];
    }
  }

  lemma {:induction false} ZoneBefore(ref: Referral, recs: seq<Rec>, f: nat, qname: seq<byte>, zone: seq<byte>)
    requires ref.zone == [] && |ref.names| <= 8 && FirstOffer(recs, qname, zone, f)
    ensures NsAll(ref, recs, qname, zone).zone ==
            if |ref.names| + |NamesFor(recs[..f], [], qname, zone)| < 8 then Settled(recs, f) else []
    decreases |recs|
  {
    hide InBailiwick, NameEq, NamesFor;
    if |ref.names| == 8 {
      FullStays(ref, recs, qname, zone);
    } else if recs == [] {
      assert NamesFor(recs[..f], [], qname, zone) == [] by { NoNamesFor(qname, zone); }
    } else if f == 0 {
      assert recs[..0] == [];
      NoNamesFor(qname, zone);
      OnceSet(NsOne(ref, recs[0], qname, zone), recs[1..], qname, zone);
    } else {
      FrontNames(recs, f, qname, zone);
      ZoneBefore(NsOne(ref, recs[0], qname, zone), recs[1..], f - 1, qname, zone);
    }
  }

  lemma NoNamesFor(qname: seq<byte>, zone: seq<byte>)
    ensures NamesFor([], [], qname, zone) == []
  {
  }

  lemma FrontNames(recs: seq<Rec>, f: nat, qname: seq<byte>, zone: seq<byte>)
    requires FirstOffer(recs, qname, zone, f) && f > 0
    ensures FirstOffer(recs[1..], qname, zone, f - 1) && Settled(recs, f) == Settled(recs[1..], f - 1)
    ensures |NamesFor(recs[..f], [], qname, zone)| == |NamesFor(recs[1..][..f - 1], [], qname, zone)|
            + if Offers(recs[0], qname, zone) && recs[0].target.Some? then 1 else 0
  {
    hide Offers, NameEq;
    FrontStep(recs, f, qname, zone);
    assert recs[..f][1..] == recs[1..][..f - 1];
    OnlyRoot(recs[0].name);
  }

  /** The zone of a referral is the first one on offer below the root, unless eight servers
      of the root stand in front of it. */
  lemma ZoneExactly(s: Sections, qname: seq<byte>, zone: seq<byte>, f: nat)
    requires FirstOffer(s.authority, qname, zone, f)
    ensures ReferralOf(s, qname, zone).zone ==
            if |NamesFor(s.authority[..f], [], qname, zone)| < 8 then Settled(s.authority, f) else []
  {
    hide NsAll, GlueAll, NamesFor, Offers;
    ZoneBefore(NO_REFERRAL, s.authority, f, qname, zone);
    NsAllShape(NO_REFERRAL, s.authority, qname, zone);
  }

  /** The server names of a referral are the first eight on offer. */
  lemma NamesExactly(s: Sections, qname: seq<byte>, zone: seq<byte>) returns (f: nat)
    ensures FirstOffer(s.authority, qname, zone, f)
    ensures ReferralOf(s, qname, zone).names == Cut(AllNames(s.authority, f, qname, zone), 8)
  {
    hide NsAll, GlueAll, AllNames, FirstOffer;
    f := SomeFirstOffer(s.authority, qname, zone);
    assert f <= |s.authority| by { OfferInside(s.authority, qname, zone, f); }
    BeforeSettling(NO_REFERRAL, s.authority, f, qname, zone);
    NsAllShape(NO_REFERRAL, s.authority, qname, zone);
    assert [] + AllNames(s.authority, f, qname, zone) == AllNames(s.authority, f, qname, zone);
  }

  lemma OfferInside(recs: seq<Rec>, qname: seq<byte>, zone: seq<byte>, f: nat)
    requires FirstOffer(recs, qname, zone, f)
    ensures f <= |recs|
  {
  }

  // ---------------------------------------------------------------- addresses

  /** An A record inside the zone that is answering. */
  predicate IsGlue(r: Rec, zone: seq<byte>) {
    r.rtype == 1 && |r.rdata| == 4 && InBailiwick(r.name, zone)
  }

  /** The addresses such records give for a name, in order. */
  function AddressesOf(recs: seq<Rec>, n: seq<byte>, zone: seq<byte>): seq<seq<byte>> {
    if recs == [] then []
    else
      var last := recs[|recs| - 1];
      AddressesOf(recs[..|recs| - 1], n, zone) + if IsGlue(last, zone) && NameEq(last.name, n) then [last.rdata] else []
  }

  /** How many candidates in front of j have the same name. */
  function Rank(names: seq<seq<byte>>, n: seq<byte>, j: nat): (r: nat)
    requires j <= |names|
  {
    if j == 0 then 0 else Rank(names, n, j - 1) + if NameEq(names[j - 1], n) then 1 else 0
  }

  function Nth<T>(s: seq<T>, i: nat): Option<T> {
    if i < |s| then Some(s[i]) else None
  }

  /** Candidate j has the address that its name's records give it: the first candidate of a
      name the first address, the second the second, and so on while there are any. */
  predicate GluedFrom(ref: Referral, recs: seq<Rec>, zone: seq<byte>) {
    && |ref.addrs| == |ref.names|
    && forall j :: 0 <= j < |ref.names| ==>
         ref.addrs[j] == Nth(AddressesOf(recs, ref.names[j], zone), Rank(ref.names, ref.names[j], j))
  }

  lemma {:induction false} AddressesIgnoreCase(recs: seq<Rec>, a: seq<byte>, b: seq<byte>, zone: seq<byte>)
    requires NameEq(a, b)
    ensures AddressesOf(recs, a, zone) == AddressesOf(recs, b, zone)
    decreases |recs|
  {
    if recs != [] { AddressesIgnoreCase(recs[..|recs| - 1], a, b, zone); }
  }

  lemma {:induction false} RankIgnoresCase(names: seq<seq<byte>>, a: seq<byte>, b: seq<byte>, j: nat)
    requires NameEq(a, b) && j <= |names|
    ensures Rank(names, a, j) == Rank(names, b, j)
    decreases j
  {
    if j > 0 { RankIgnoresCase(names, a, b, j - 1); }
  }

  /** Candidates of one name have all ranks below any of theirs. */
  lemma {:induction false} RankReached(names: seq<seq<byte>>, n: seq<byte>, j: nat, m: nat) returns (k: nat)
    requires j <= |names| && m < Rank(names, n, j)
    ensures k < j && NameEq(names[k], n) && Rank(names, n, k) == m
    decreases j
  {
    hide NameEq;
    if Rank(names, n, j - 1) > m {
      k := RankReached(names, n, j - 1, m);
    } else {
      k := j - 1;
    }
  }

  lemma {:induction false} RankGrows(names: seq<seq<byte>>, n: seq<byte>, i: nat, j: nat)
    requires i <= j <= |names|
    ensures Rank(names, n, i) <= Rank(names, n, j)
    ensures i < j && NameEq(names[i], n) ==> Rank(names, n, i) < Rank(names, n, j)
    decreases j
  {
    hide NameEq;
    if i < j { RankGrows(names, n, i, j - 1); }
  }

  lemma {:induction false} SlotIsFirst(ref: Referral, n: seq<byte>, j: nat)
    requires |ref.addrs| == |ref.names| && j <= |ref.names|
    ensures var k := Slot(ref, n, j);
            && (k < |ref.names| ==> ref.addrs[k].None? && NameEq(ref.names[k], n))
            && forall i :: j <= i < k ==> !(ref.addrs[i].None? && NameEq(ref.names[i], n))
    decreases |ref.names| - j
  {
    hide NameEq;
    if j < |ref.names| { SlotIsFirst(ref, n, j + 1); }
  }

  lemma AddressesSnoc(recs: seq<Rec>, r: Rec, n: seq<byte>, zone: seq<byte>)
    ensures AddressesOf(recs + [r], n, zone) ==
            AddressesOf(recs, n, zone) + if IsGlue(r, zone) && NameEq(r.name, n) then [r.rdata] else []
  {
    assert (recs + [r])[..|recs|] == recs;
  }

  /** The slot a glue record fills is the one whose turn it is. */
  lemma {:induction false} SlotHasTurn(ref: Referral, done: seq<Rec>, n: seq<byte>, zone: seq<byte>, j: nat)
    requires GluedFrom(ref, done, zone) && j < |ref.names| && NameEq(ref.names[j], n)
    ensures Slot(ref, n, 0) == j <==> Rank(ref.names, n, j) == |AddressesOf(done, n, zone)|
  {
    hide IsGlue, AddressesOf;
    var m, k := |AddressesOf(done, n, zone)|, Slot(ref, n, 0);
    SlotIsFirst(ref, n, 0);
    OpenExactly(ref, done, n, zone, j);
    if Rank(ref.names, n, j) == m {
      if k < j {
        OpenExactly(ref, done, n, zone, k);
        RankGrows(ref.names, n, k, j);
      }
    } else if k == j {
      var i := RankReached(ref.names, n, j, m);
      OpenExactly(ref, done, n, zone, i);
    }
  }

  lemma OpenExactly(ref: Referral, done: seq<Rec>, n: seq<byte>, zone: seq<byte>, j: nat)
    requires GluedFrom(ref, done, zone) && j < |ref.names| && NameEq(ref.names[j], n)
    ensures ref.addrs[j].None? <==> Rank(ref.names, n, j) >= |AddressesOf(done, n, zone)|
  {
    hide AddressesOf, IsGlue;
    AddressesIgnoreCase(done, ref.names[j], n, zone);
    RankIgnoresCase(ref.names, ref.names[j], n, j);
  }

  lemma {:induction false} GlueStep(ref: Referral, done: seq<Rec>, r: Rec, zone: seq<byte>)
    requires GluedFrom(ref, done, zone)
    ensures GluedFrom(GlueOne(ref, r, zone), done + [r], zone)
  {
    hide AddressesOf, InBailiwick, Slot;
    var next := GlueOne(ref, r, zone);
    forall j | 0 <= j < |ref.names|
      ensures next.addrs[j] == Nth(AddressesOf(done + [r], ref.names[j], zone), Rank(ref.names, ref.names[j], j))
    {
      AddressesSnoc(done, r, ref.names[j], zone);
      if IsGlue(r, zone) && NameEq(r.name, ref.names[j]) {
        SlotHasTurn(ref, done, r.name, zone, j);
        AddressesIgnoreCase(done, ref.names[j], r.name, zone);
        RankIgnoresCase(ref.names, ref.names[j], r.name, j);
      } else if IsGlue(r, zone) {
        SlotIsFirst(ref, r.name, 0);
      }
    }
  }

  lemma {:induction false} GlueRun(ref: Referral, recs: seq<Rec>, i: nat, zone: seq<byte>)
    requires i <= |recs| && GluedFrom(ref, recs[..i], zone)
    ensures GluedFrom(GlueAll(ref, recs[i..], zone), recs, zone)
    decreases |recs| - i
  {
    hide GluedFrom, GlueOne;
    GluedShape(ref, recs[..i], zone);
    if i == |recs| {
      assert recs[i..] == [] && recs[..i] == recs;
    } else {
      assert recs[i..][0] == recs[i] && recs[i..][1..] == recs[i + 1..] && recs[..i] + [recs[i]] == recs[..i + 1];
      GlueStep(ref, recs[..i], recs[i], zone);
      GlueRun(GlueOne(ref, recs[i], zone), recs, i + 1, zone);
    }
  }

  lemma GluedShape(ref: Referral, recs: seq<Rec>, zone: seq<byte>)
    requires GluedFrom(ref, recs, zone)
    ensures |ref.addrs| == |ref.names|
  {
  }

  /** The addresses of a referral are exactly those its in-zone A records give. */
  lemma GlueExactly(s: Sections, qname: seq<byte>, zone: seq<byte>)
    ensures GluedFrom(ReferralOf(s, qname, zone), s.additional, zone)
  {
    hide GlueAll, NsAll, Rank;
    NoGlueYet(NO_REFERRAL, s.authority, qname, zone);
    NsAllShape(NO_REFERRAL, s.authority, qname, zone);
    assert s.additional[..0] == [] && s.additional[0..] == s.additional;
    GlueRun(NsAll(NO_REFERRAL, s.authority, qname, zone), s.additional, 0, zone);
  }
}
