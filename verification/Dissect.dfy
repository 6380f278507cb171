/** dissect() of resolver.c: one upstream reply taken apart into accepted answers, the
    CNAME to chase and an accepted referral. */
module Dissect {
  import opened Names
  import opened NameCodec
  import opened Wire
  import opened Rescan

  const TYPE_NS := 2
  const MAX_NS_CANDIDATES := 8

  // ---------------------------------------------------------------- sections

  /** A name found in a record's data; it may continue anywhere in the message. */
  function NameAt(msg: seq<byte>, off: nat): Option<seq<byte>> {
    var d := Decode(msg, off, MAX_NAME + 1);
    if d.None? then None else Some(CString(d.value.text))
  }

  /** A parsed record with its data, and the name its data begins with. */
  function ToRec(msg: seq<byte>, p: RR): Rec {
    var data := if p.rdata + p.rdlength <= |msg| then msg[p.rdata..p.rdata + p.rdlength] else [];
    Rec(p.name, p.rtype, p.rclass, p.ttl, data, NameAt(msg, p.rdata))
  }

  function ToRecs(msg: seq<byte>, rrs: seq<RR>): (r: seq<Rec>)
    ensures |r| == |rrs|
  {
    seq(|rrs|, i requires 0 <= i < |rrs| => ToRec(msg, rrs[i]))
  }

  datatype Read = Read(recs: seq<Rec>, next: nat)

  /** The data of a parsed record lies inside the message. */
  lemma ParsedDataInside(msg: seq<byte>, off: nat)
    requires ParseRR(msg, off).Some?
    ensures ParseRR(msg, off).value.rr.rdata + ParseRR(msg, off).value.rr.rdlength <= |msg|
  {
  }

  /** `n` records from `off`; a record that does not parse fails the section. */
  function ReadSection(msg: seq<byte>, off: nat, n: nat): Option<Read> {
    var p := ParseRRs(msg, off, n);
    if p.None? then None else Some(Read(ToRecs(msg, p.value.rrs), p.value.next))
  }

  lemma NothingRead(msg: seq<byte>, off: nat)
    ensures ReadSection(msg, off, 0) == Some(Read([], off))
  {
  }

  lemma ReadStep(msg: seq<byte>, off: nat, n: nat)
    requires n > 0
    ensures var p := ParseRR(msg, off);
            var rest := if p.None? then None else ReadSection(msg, p.value.next, n - 1);
            ReadSection(msg, off, n) ==
            if rest.None? then None else Some(Read([ToRec(msg, p.value.rr)] + rest.value.recs, rest.value.next))
  {
    hide ParseRR, ToRec;
    var p := ParseRR(msg, off);
    if p.Some? {
      var rest := ParseRRs(msg, p.value.next, n - 1);
      if rest.Some? {
        assert ToRecs(msg, [p.value.rr] + rest.value.rrs) == [ToRec(msg, p.value.rr)] + ToRecs(msg, rest.value.rrs);
      }
    }
  }

  /** The answer a record of the message stands for, told from the message's bytes: its owner
      and TTL, and the four bytes of an A, the sixteen of an AAAA, or the name a CNAME's data
      decodes to. */
  predicate Carries(msg: seq<byte>, rr: RR, a: Answer) {
    && a.owner == rr.name && a.ttl == rr.ttl
    && match a.data
       case AData(x) => rr.rtype == 1 && rr.rdlength == 4 && |x| == 4 && At(msg, rr.rdata, x)
       case AaaaData(x) => rr.rtype == 28 && rr.rdlength == 16 && |x| == 16 && At(msg, rr.rdata, x)
       case CNameData(n) =>
         rr.rtype == 5 && Decode(msg, rr.rdata, 256).Some? && n == CString(Decode(msg, rr.rdata, 256).value.text)
       case OtherData(_) => false
  }

  /** For every record of every message: the answer taken from it is the one its bytes carry,
      and it is taken exactly if there is one, the class is IN and the owner lies in the zone. */
  lemma TakenExactly(msg: seq<byte>, off: nat, zone: seq<byte>)
    requires ParseRR(msg, off).Some?
    ensures var rr := ParseRR(msg, off).value.rr;
            && (forall a :: ToAnswer(ToRec(msg, rr)) == Some(a) <==> Carries(msg, rr, a))
            && (Eligible(ToRec(msg, rr), zone) <==>
                rr.rclass == 1 && InBailiwick(rr.name, zone) && exists a :: Carries(msg, rr, a))
  {
    hide Decode, InBailiwick, CString;
    var rr := ParseRR(msg, off).value.rr;
    ParsedDataInside(msg, off);
    var r := ToRec(msg, rr);
    forall a ensures ToAnswer(r) == Some(a) <==> Carries(msg, rr, a) {
      DataAsBytes(msg, rr, a);
    }
    if ToAnswer(r).Some? { assert Carries(msg, rr, ToAnswer(r).value); }
  }

  lemma DataAsBytes(msg: seq<byte>, rr: RR, a: Answer)
    requires rr.rdata + rr.rdlength <= |msg|
    ensures ToAnswer(ToRec(msg, rr)) == Some(a) <==> Carries(msg, rr, a)
  {
    hide Decode, CString;
  }

  /** Up to `n` records from `off`; the first that does not parse ends the section. */
  function ReadWhileGood(msg: seq<byte>, off: nat, n: nat): seq<Rec>
    decreases n
  {
    if n == 0 then []
    else
      var p := ParseRR(msg, off);
      if p.None? then [] else [ToRec(msg, p.value.rr)] + ReadWhileGood(msg, p.value.next, n - 1)
  }

  /** Those are the records of the longest readable front part of the section. */
  lemma {:induction false} ReadsAsFarAsGood(msg: seq<byte>, off: nat, n: nat) returns (m: nat)
    ensures m <= n && ReadSection(msg, off, m).Some?
    ensures ReadWhileGood(msg, off, n) == ReadSection(msg, off, m).value.recs
    ensures m < n ==> ParseRR(msg, ReadSection(msg, off, m).value.next).None? && ReadSection(msg, off, m + 1).None?
    decreases n
  {
    hide ParseRR, ToRec, ReadSection;
    NothingRead(msg, off);
    if n == 0 || ParseRR(msg, off).None? {
      m := 0;
      if n > 0 { ReadStep(msg, off, 1); }
    } else {
      var next := ParseRR(msg, off).value.next;
      var k := ReadsAsFarAsGood(msg, next, n - 1);
      m := k + 1;
      ReadStep(msg, off, m);
      ReadStep(msg, off, m + 1);
    }
  }

  function SkipQuestions(msg: seq<byte>, off: nat, n: nat): Option<nat>
    decreases n
  {
    if n == 0 then Some(off)
    else
      var next := SkipQuestion(msg, off);
      if next.None? then None else SkipQuestions(msg, next.value, n - 1)
  }

  datatype Sections = Sections(rcode: nat, answers: seq<Rec>, authority: seq<Rec>, additional: seq<Rec>)

  /** The reply as sections, unless it is malformed or marked truncated. */
  function ReadReply(msg: seq<byte>): Option<Sections> {
    var h := ParseHeader(msg);
    if h.None? || IsTruncated(h.value.flags) then None
    else
      var q := SkipQuestions(msg, HDR_LEN, h.value.qdcount);
      if q.None? then None
      else
        var an := ReadSection(msg, q.value, h.value.ancount);
        if an.None? then None
        else
          var ns := ReadSection(msg, an.value.next, h.value.nscount);
          if ns.None? then None
          else
            var ar := ReadWhileGood(msg, ns.value.next, h.value.arcount);
            Some(Sections(h.value.flags % 16, an.value.recs, ns.value.recs, ar))
  }

  /** The records of the answer section of a reply that can be read. */
  function AnswerRecords(msg: seq<byte>): seq<RR>
    requires ReadReply(msg).Some?
  {
    ParseRRs(msg, SkipQuestions(msg, HDR_LEN, Rd16(msg, 4)).value, Rd16(msg, 6)).value.rrs
  }

  lemma {:induction false} ParsedSomewhere(msg: seq<byte>, off: nat, n: nat, i: nat) returns (at: nat)
    requires ParseRRs(msg, off, n).Some? && i < |ParseRRs(msg, off, n).value.rrs|
    ensures ParseRR(msg, at).Some? && ParseRR(msg, at).value.rr == ParseRRs(msg, off, n).value.rrs[i]
    decreases n
  {
    hide ParseRR;
    if i == 0 {
      at := off;
    } else {
      at := ParsedSomewhere(msg, ParseRR(msg, off).value.next, n - 1, i - 1);
    }
  }

  /** The answer taken from a record of the section is carried by one of its records. */
  lemma TakenIsCarried(msg: seq<byte>, r: Rec, zone: seq<byte>) returns (rr: RR)
    requires ReadReply(msg).Some? && r in ReadReply(msg).value.answers && Eligible(r, zone)
    ensures rr in AnswerRecords(msg) && rr.rclass == 1 && Carries(msg, rr, ToAnswer(r).value)
  {
    hide ParseRR, ToRec, Eligible, ReadWhileGood, SkipQuestions, ParseRRs, Carries, ToAnswer;
    var rrs := AnswerRecords(msg);
    var i :| 0 <= i < |rrs| && r == ToRec(msg, rrs[i]);
    rr := rrs[i];
    var at := ParsedSomewhere(msg, SkipQuestions(msg, HDR_LEN, Rd16(msg, 4)).value, Rd16(msg, 6), i);
    TakenExactly(msg, at, zone);
    EligibleIsUsable(r, zone);
  }

  lemma EligibleIsUsable(r: Rec, zone: seq<byte>)
    requires Eligible(r, zone)
    ensures ToAnswer(r).Some?
  {
  }

  // ---------------------------------------------------------------- referrals

  /** struct referral: the delegated zone, the server names, and their glue if any. */
  datatype Referral = Referral(zone: seq<byte>, names: seq<seq<byte>>, addrs: seq<Option<seq<byte>>>)

  /** The three conditions on a delegation's owner. */
  predicate Delegates(owner: seq<byte>, qname: seq<byte>, zone: seq<byte>) {
    && InBailiwick(owner, zone)
    && !(zone != [] && NameEq(owner, zone))
    && InBailiwick(qname, owner)
  }

  /** One authority record. */
  function NsOne(ref: Referral, r: Rec, qname: seq<byte>, zone: seq<byte>): Referral {
    if r.rtype != TYPE_NS || |ref.names| >= MAX_NS_CANDIDATES || !Delegates(r.name, qname, zone) then ref
    else if ref.zone != [] && !NameEq(r.name, ref.zone) then ref
    else
      var z := if ref.zone != [] then ref.zone else r.name;
      if r.target.None? then ref.(zone := z)
      else Referral(z, ref.names + [r.target.value], ref.addrs + [None])
  }

  function NsAll(ref: Referral, recs: seq<Rec>, qname: seq<byte>, zone: seq<byte>): Referral
    decreases |recs|
  {
    if recs == [] then ref else NsAll(NsOne(ref, recs[0], qname, zone), recs[1..], qname, zone)
  }

  /** The first candidate from j on that still lacks an address for this name. */
  function Slot(ref: Referral, n: seq<byte>, j: nat): (r: nat)
    requires |ref.addrs| == |ref.names| && j <= |ref.names|
    ensures j <= r <= |ref.names|
    decreases |ref.names| - j
  {
    if j == |ref.names| then j
    else if ref.addrs[j].None? && NameEq(ref.names[j], n) then j
    else Slot(ref, n, j + 1)
  }

  /** One additional record: glue for a name of the zone fills one open candidate. */
  function GlueOne(ref: Referral, r: Rec, zone: seq<byte>): (g: Referral)
    requires |ref.addrs| == |ref.names|
    ensures g.zone == ref.zone && g.names == ref.names && |g.addrs| == |g.names|
  {
    if r.rtype != TYPE_A || |r.rdata| != 4 || !InBailiwick(r.name, zone) then ref
    else
      var j := Slot(ref, r.name, 0);
      if j == |ref.names| then ref else ref.(addrs := ref.addrs[j := Some(r.rdata)])
  }

  function GlueAll(ref: Referral, recs: seq<Rec>, zone: seq<byte>): (g: Referral)
    requires |ref.addrs| == |ref.names|
    ensures g.zone == ref.zone && g.names == ref.names && |g.addrs| == |g.names|
    decreases |recs|
  {
    if recs == [] then ref else GlueAll(GlueOne(ref, recs[0], zone), recs[1..], zone)
  }

  lemma {:induction false} NsAllShape(ref: Referral, recs: seq<Rec>, qname: seq<byte>, zone: seq<byte>)
    requires |ref.addrs| == |ref.names| <= MAX_NS_CANDIDATES
    ensures var r := NsAll(ref, recs, qname, zone); |r.addrs| == |r.names| <= MAX_NS_CANDIDATES
    decreases |recs|
  {
    hide Delegates, NameEq;
    if recs != [] {
      NsAllShape(NsOne(ref, recs[0], qname, zone), recs[1..], qname, zone);
    }
  }

  function ReferralOf(s: Sections, qname: seq<byte>, zone: seq<byte>): (r: Referral)
    ensures |r.addrs| == |r.names| <= MAX_NS_CANDIDATES
  {
    NsAllShape(Referral([], [], []), s.authority, qname, zone);
    GlueAll(NsAll(Referral([], [], []), s.authority, qname, zone), s.additional, zone)
  }

  // ---------------------------------------------------------------- zone progress

  /** A zone taken from a referral: nothing yet, or a proper delegation. */
  predicate GoodZone(z: seq<byte>, qname: seq<byte>, zone: seq<byte>) {
    && InBailiwick(qname, z)
    && (z == [] || Delegates(z, qname, zone))
  }

  lemma NsOneGood(ref: Referral, r: Rec, qname: seq<byte>, zone: seq<byte>)
    requires GoodZone(ref.zone, qname, zone)
    ensures GoodZone(NsOne(ref, r, qname, zone).zone, qname, zone)
    ensures |NsOne(ref, r, qname, zone).names| > |ref.names| && zone != [] ==> NsOne(ref, r, qname, zone).zone != []
    ensures ref.zone != [] ==> NsOne(ref, r, qname, zone).zone != []
  {
    hide NameEq;
  }

  lemma {:induction false} NsAllGood(ref: Referral, recs: seq<Rec>, qname: seq<byte>, zone: seq<byte>)
    requires GoodZone(ref.zone, qname, zone) && (ref.names != [] && zone != [] ==> ref.zone != [])
    ensures var r := NsAll(ref, recs, qname, zone);
            GoodZone(r.zone, qname, zone) && (r.names != [] && zone != [] ==> r.zone != [])
    decreases |recs|
  {
    hide GoodZone, Delegates, NameEq;
    if recs != [] {
      NsOneGood(ref, recs[0], qname, zone);
      NsAllGood(NsOne(ref, recs[0], qname, zone), recs[1..], qname, zone);
    }
  }

  /** Every referral that offers a server: its zone contains the name asked for and lies at
      or below the current zone; from any zone but the root it is at least two characters
      longer. */
  lemma ReferralDescends(s: Sections, qname: seq<byte>, zone: seq<byte>)
    requires ReferralOf(s, qname, zone).names != []
    ensures var z := ReferralOf(s, qname, zone).zone;
            InBailiwick(qname, z) && InBailiwick(z, zone) && (zone != [] ==> |z| >= |zone| + 2)
  {
    NsAllGood(Referral([], [], []), s.authority, qname, zone);
  }

  // ---------------------------------------------------------------- referrals from the root

  predicate IsBelow(r: Rec, qname: seq<byte>) {
    r.rtype == TYPE_NS && r.name != [] && InBailiwick(qname, r.name)
  }

  /** The first NS record that delegates a zone below the root to the name asked for. */
  function FirstBelow(recs: seq<Rec>, qname: seq<byte>): (f: nat)
    ensures f <= |recs|
  {
    if recs == [] || IsBelow(recs[0], qname) then 0 else 1 + FirstBelow(recs[1..], qname)
  }

  /** NS records owned by the root itself whose server name can be read. */
  function RootNames(recs: seq<Rec>): nat {
    if recs == [] then 0
    else
      var one := if recs[0].rtype == TYPE_NS && recs[0].name == [] && recs[0].target.Some? then 1 else 0;
      one + RootNames(recs[1..])
  }

  /** Such root-owned records in front of the first delegation. */
  function RootNamesBefore(recs: seq<Rec>, qname: seq<byte>): nat {
    RootNames(recs[..FirstBelow(recs, qname)])
  }

  /** There is a delegation below the root, and eight root-owned names do not crowd it out. */
  predicate HasDelegation(recs: seq<Rec>, qname: seq<byte>, taken: nat) {
    FirstBelow(recs, qname) < |recs| && taken + RootNamesBefore(recs, qname) < MAX_NS_CANDIDATES
  }

  lemma BeforeStep(recs: seq<Rec>, qname: seq<byte>)
    requires recs != [] && !IsBelow(recs[0], qname)
    ensures FirstBelow(recs, qname) == 1 + FirstBelow(recs[1..], qname)
    ensures RootNamesBefore(recs, qname) == RootNames([recs[0]]) + RootNamesBefore(recs[1..], qname)
  {
    hide IsBelow;
    var f := FirstBelow(recs, qname);
    assert recs[..f][1..] == recs[1..][..f - 1];
    assert [recs[0]][1..] == [];
  }

  /** What one record does while the zone is still the root. */
  lemma FromRootStep(ref: Referral, r: Rec, qname: seq<byte>)
    requires ref.zone == []
    ensures var n := NsOne(ref, r, qname, []);
            if |ref.names| >= MAX_NS_CANDIDATES then n == ref
            else if IsBelow(r, qname) then n.zone == r.name
            else n.zone == [] && |n.names| == |ref.names| + RootNames([r])
  {
    assert [r][1..] == [];
    hide NameEq;
  }

  lemma {:induction false} FullStays(ref: Referral, recs: seq<Rec>, qname: seq<byte>, zone: seq<byte>)
    requires |ref.names| >= MAX_NS_CANDIDATES
    ensures NsAll(ref, recs, qname, zone) == ref && Sources(ref, recs, qname, zone) == []
    decreases |recs|
  {
    if recs != [] { FullStays(ref, recs[1..], qname, zone); }
  }

  /** From the root the referral's zone is the first delegation's owner, or the root. */
  lemma {:induction false} ZoneFromRoot(ref: Referral, recs: seq<Rec>, qname: seq<byte>)
    requires ref.zone == []
    ensures NsAll(ref, recs, qname, []).zone ==
            if HasDelegation(recs, qname, |ref.names|) then recs[FirstBelow(recs, qname)].name else []
    decreases |recs|
  {
    hide IsBelow, NsOne, RootNames;
    if recs != [] {
      var next := NsOne(ref, recs[0], qname, []);
      FromRootStep(ref, recs[0], qname);
      if |ref.names| >= MAX_NS_CANDIDATES {
        FullStays(ref, recs, qname, []);
      } else if IsBelow(recs[0], qname) {
        NoRootNames();
        assert recs[..0] == [];
        BelowIsNotRoot(recs[0], qname);
        OnceSet(next, recs[1..], qname, []);
      } else {
        BeforeStep(recs, qname);
        ZoneFromRoot(next, recs[1..], qname);
      }
    }
  }

  lemma NoRootNames()
    ensures RootNames([]) == 0
  {
  }

  lemma BelowIsNotRoot(r: Rec, qname: seq<byte>)
    requires IsBelow(r, qname)
    ensures r.name != [] && RootNames([r]) == 0
  {
    assert [r][1..] == [];
  }

  /** The records the server names were read from, in order. */
  function Sources(ref: Referral, recs: seq<Rec>, qname: seq<byte>, zone: seq<byte>): seq<Rec>
    decreases |recs|
  {
    if recs == [] then []
    else
      var next := NsOne(ref, recs[0], qname, zone);
      (if |next.names| > |ref.names| then [recs[0]] else []) + Sources(next, recs[1..], qname, zone)
  }

  predicate OwnedBy(srcs: seq<Rec>, z: seq<byte>) {
    forall i :: 0 <= i < |srcs| ==> NameEq(srcs[i].name, z)
  }

  /** Once the zone is set it stays, and only its own records add names. */
  lemma {:induction false} OnceSet(ref: Referral, recs: seq<Rec>, qname: seq<byte>, zone: seq<byte>)
    requires ref.zone != []
    ensures NsAll(ref, recs, qname, zone).zone == ref.zone
    ensures OwnedBy(Sources(ref, recs, qname, zone), ref.zone)
    decreases |recs|
  {
    hide NameEq, Delegates;
    if recs != [] { OnceSet(NsOne(ref, recs[0], qname, zone), recs[1..], qname, zone); }
  }

  /** Every server name of a referral is read from an NS record of the authority section
      that delegates a zone between the current one and the name asked for. */
  lemma {:induction false} NamesHaveSources(ref: Referral, recs: seq<Rec>, qname: seq<byte>, zone: seq<byte>)
    ensures var srcs := Sources(ref, recs, qname, zone);
            && |NsAll(ref, recs, qname, zone).names| == |ref.names| + |srcs|
            && ref.names <= NsAll(ref, recs, qname, zone).names
            && forall i :: 0 <= i < |srcs| ==>
                 && srcs[i] in recs && srcs[i].rtype == TYPE_NS && Delegates(srcs[i].name, qname, zone)
                 && srcs[i].target == Some(NsAll(ref, recs, qname, zone).names[|ref.names| + i])
    decreases |recs|
  {
    hide NameEq, Delegates;
    if recs != [] {
      NamesHaveSources(NsOne(ref, recs[0], qname, zone), recs[1..], qname, zone);
    }
  }

  /** From the root all names share an owner exactly when no root-owned name stands in front
      of a delegation that is taken. */
  lemma {:induction false} OwnersFromRoot(ref: Referral, recs: seq<Rec>, qname: seq<byte>)
    requires ref.zone == []
    ensures OwnedBy(Sources(ref, recs, qname, []), NsAll(ref, recs, qname, []).zone) <==>
            !HasDelegation(recs, qname, |ref.names|) || RootNamesBefore(recs, qname) == 0
    decreases |recs|
  {
    hide IsBelow, NsOne, RootNames, NameEq;
    if recs != [] {
      var r, next := recs[0], NsOne(ref, recs[0], qname, []);
      var rest, z := Sources(next, recs[1..], qname, []), NsAll(ref, recs, qname, []).zone;
      FromRootStep(ref, r, qname);
      if |ref.names| >= MAX_NS_CANDIDATES {
        FullStays(ref, recs, qname, []);
      } else if IsBelow(r, qname) {
        NoRootNames();
        assert recs[..0] == [];
        BelowIsNotRoot(r, qname);
        OnceSet(next, recs[1..], qname, []);
        SameOwner(r.name, r.name);
      } else {
        BeforeStep(recs, qname);
        OwnersFromRoot(next, recs[1..], qname);
        ZoneFromRoot(ref, recs, qname);
        RootNamesOne(ref, r, qname);
        SameOwner(r.name, z);
        if |next.names| > |ref.names| {
          assert Sources(ref, recs, qname, []) == [r] + rest;
          assert OwnedBy([r] + rest, z) <==> NameEq(r.name, z) && OwnedBy(rest, z) by { OwnedCons(r, rest, z); }
        } else {
          assert Sources(ref, recs, qname, []) == rest;
        }
        BelowHasName(recs, qname);
      }
    }
  }

  lemma OwnedCons(r: Rec, rest: seq<Rec>, z: seq<byte>)
    ensures OwnedBy([r] + rest, z) <==> NameEq(r.name, z) && OwnedBy(rest, z)
  {
    hide NameEq;
    assert ([r] + rest)[0] == r;
    assert forall i :: 0 <= i < |rest| ==> ([r] + rest)[i + 1] == rest[i];
  }

  lemma SameOwner(a: seq<byte>, z: seq<byte>)
    ensures NameEq(a, a) && (a == [] ==> (NameEq(a, z) <==> z == []))
  {
  }

  lemma RootNamesOne(ref: Referral, r: Rec, qname: seq<byte>)
    requires ref.zone == [] && |ref.names| < MAX_NS_CANDIDATES && !IsBelow(r, qname)
    ensures |NsOne(ref, r, qname, []).names| == |ref.names| + RootNames([r]) && RootNames([r]) <= 1
    ensures RootNames([r]) == 1 ==> r.name == []
  {
    assert [r][1..] == [];
    FromRootStep(ref, r, qname);
  }

  lemma {:induction false} BelowHasName(recs: seq<Rec>, qname: seq<byte>)
    ensures FirstBelow(recs, qname) < |recs| ==> recs[FirstBelow(recs, qname)].name != []
  {
    if recs != [] && !IsBelow(recs[0], qname) { BelowHasName(recs[1..], qname); }
  }

  /** From any other zone they always do. */
  lemma {:induction false} OwnersBelowRoot(ref: Referral, recs: seq<Rec>, qname: seq<byte>, zone: seq<byte>)
    requires ref.zone == [] && zone != []
    ensures OwnedBy(Sources(ref, recs, qname, zone), NsAll(ref, recs, qname, zone).zone)
    decreases |recs|
  {
    hide NameEq, InBailiwick;
    if recs != [] {
      var r, next := recs[0], NsOne(ref, recs[0], qname, zone);
      if next.zone == [] {
        DelegationHasName(r.name, zone);
        OwnersBelowRoot(next, recs[1..], qname, zone);
      } else {
        OnceSet(next, recs[1..], qname, zone);
        SameOwner(r.name, r.name);
      }
    }
  }

  lemma DelegationHasName(owner: seq<byte>, zone: seq<byte>)
    requires zone != []
    ensures InBailiwick(owner, zone) ==> owner != []
  {
  }

  const NO_REFERRAL := Referral([], [], [])

  /** The exact condition for a referral to lead strictly below the current zone. */
  lemma DescendsExactly(s: Sections, qname: seq<byte>, zone: seq<byte>)
    requires ReferralOf(s, qname, zone).names != []
    ensures |ReferralOf(s, qname, zone).zone| > |zone| <==> zone != [] || HasDelegation(s.authority, qname, 0)
  {
    hide IsBelow;
    ReferralDescends(s, qname, zone);
    if zone == [] {
      ZoneFromRoot(NO_REFERRAL, s.authority, qname);
      BelowHasName(s.authority, qname);
    }
  }

  /** The exact condition for all server names of a referral to come from records owned by
      the zone it leads to. */
  lemma OneOwnerExactly(s: Sections, qname: seq<byte>, zone: seq<byte>)
    ensures OwnedBy(Sources(NO_REFERRAL, s.authority, qname, zone), ReferralOf(s, qname, zone).zone) <==>
            zone != [] || !HasDelegation(s.authority, qname, 0) || RootNamesBefore(s.authority, qname) == 0
  {
    hide HasDelegation, OwnedBy, RootNamesBefore;
    if zone == [] {
      OwnersFromRoot(NO_REFERRAL, s.authority, qname);
    } else {
      OwnersBelowRoot(NO_REFERRAL, s.authority, qname, zone);
    }
  }

  // ---------------------------------------------------------------- glue

  /** An additional A record of this server name, inside the zone that is answering. */
  ghost predicate Glues(recs: seq<Rec>, ns: seq<byte>, addr: seq<byte>, zone: seq<byte>) {
    exists r ::
      && r in recs && r.rtype == TYPE_A && |r.rdata| == 4 && r.rdata == addr
      && NameEq(ns, r.name) && InBailiwick(r.name, zone)
  }

  /** Every address comes from such a record. */
  ghost predicate GlueOk(ref: Referral, recs: seq<Rec>, zone: seq<byte>) {
    && |ref.addrs| == |ref.names|
    && forall j :: 0 <= j < |ref.addrs| && ref.addrs[j].Some? ==> Glues(recs, ref.names[j], ref.addrs[j].value, zone)
  }

  lemma {:induction false} SlotMatches(ref: Referral, n: seq<byte>, j: nat)
    requires |ref.addrs| == |ref.names| && j <= |ref.names|
    ensures var k := Slot(ref, n, j); k < |ref.names| ==> ref.addrs[k].None? && NameEq(ref.names[k], n)
    decreases |ref.names| - j
  {
    if j < |ref.names| { SlotMatches(ref, n, j + 1); }
  }

  lemma GlueOneOk(ref: Referral, all: seq<Rec>, i: nat, zone: seq<byte>)
    requires GlueOk(ref, all, zone) && i < |all|
    ensures GlueOk(GlueOne(ref, all[i], zone), all, zone)
  {
    hide NameEq, InBailiwick, Slot;
    SlotMatches(ref, all[i].name, 0);
    var j := Slot(ref, all[i].name, 0);
    if j < |ref.names| && GlueOne(ref, all[i], zone) != ref {
      assert Glues(all, ref.names[j], all[i].rdata, zone);
    }
  }

  lemma {:induction false} GlueAllOk(ref: Referral, all: seq<Rec>, i: nat, zone: seq<byte>)
    requires GlueOk(ref, all, zone) && i <= |all|
    ensures GlueOk(GlueAll(ref, all[i..], zone), all, zone)
    decreases |all| - i
  {
    hide GlueOk, GlueOne;
    if i < |all| {
      assert all[i..][0] == all[i] && all[i..][1..] == all[i + 1..];
      GlueOneOk(ref, all, i, zone);
      GlueShape(ref, all, zone);
      GlueAllOk(GlueOne(ref, all[i], zone), all, i + 1, zone);
    } else {
      assert all[i..] == [];
    }
  }

  lemma GlueShape(ref: Referral, recs: seq<Rec>, zone: seq<byte>)
    requires GlueOk(ref, recs, zone)
    ensures |ref.addrs| == |ref.names|
  {
  }

  lemma {:induction false} NoGlueYet(ref: Referral, recs: seq<Rec>, qname: seq<byte>, zone: seq<byte>)
    requires |ref.addrs| == |ref.names| && forall j :: 0 <= j < |ref.addrs| ==> ref.addrs[j].None?
    ensures var r := NsAll(ref, recs, qname, zone);
            |r.addrs| == |r.names| && forall j :: 0 <= j < |r.addrs| ==> r.addrs[j].None?
    decreases |recs|
  {
    hide NameEq, Delegates;
    if recs != [] { NoGlueYet(NsOne(ref, recs[0], qname, zone), recs[1..], qname, zone); }
  }

  /** Glue: each address of a referral is that of an additional A record which is owned by
      the server name it stands beside and lies inside the zone that is answering. */
  lemma GlueComesFrom(s: Sections, qname: seq<byte>, zone: seq<byte>)
    ensures GlueOk(ReferralOf(s, qname, zone), s.additional, zone)
  {
    hide GlueAll, NsAll, Glues;
    NoGlueYet(NO_REFERRAL, s.authority, qname, zone);
    NsAllShape(NO_REFERRAL, s.authority, qname, zone);
    GlueAllOk(NsAll(NO_REFERRAL, s.authority, qname, zone), s.additional, 0, zone);
    assert s.additional[0..] == s.additional;
  }

  // ---------------------------------------------------------------- the loops

  /** The authority loop. */
  method CollectServers(recs: seq<Rec>, qname: seq<byte>, zone: seq<byte>) returns (ref: Referral)
    ensures ref == NsAll(Referral([], [], []), recs, qname, zone)
  {
    hide NameEq, InBailiwick;
    ref := Referral([], [], []);
    var i := 0;
    assert recs[0..] == recs;
    while i < |recs|
      invariant i <= |recs|
      invariant NsAll(Referral([], [], []), recs, qname, zone) == NsAll(ref, recs[i..], qname, zone)
    {
      var r := recs[i];
      assert recs[i..][0] == r && recs[i..][1..] == recs[i + 1..];
      i := i + 1;
      if r.rtype != TYPE_NS || |ref.names| >= MAX_NS_CANDIDATES { continue; }
      if !InBailiwick(r.name, zone) { continue; }
      var isZone := EqualNames(r.name, zone);
      if zone != [] && isZone { continue; }
      if !InBailiwick(qname, r.name) { continue; }
      if ref.zone != [] {
        var same := EqualNames(r.name, ref.zone);
        if !same { continue; }
      } else {
        ref := ref.(zone := r.name);
      }
      if r.target.None? { continue; }
      ref := Referral(ref.zone, ref.names + [r.target.value], ref.addrs + [None]);
    }
    assert recs[i..] == [];
  }

  /** The glue loop, with its inner search for an open candidate. */
  method CollectGlue(start: Referral, recs: seq<Rec>, zone: seq<byte>) returns (ref: Referral)
    requires |start.addrs| == |start.names|
    ensures ref == GlueAll(start, recs, zone)
  {
    hide NameEq, InBailiwick;
    ref := start;
    var i := 0;
    assert recs[0..] == recs;
    while i < |recs|
      invariant i <= |recs| && |ref.addrs| == |ref.names|
      invariant GlueAll(start, recs, zone) == GlueAll(ref, recs[i..], zone)
    {
      var r := recs[i];
      assert recs[i..][0] == r && recs[i..][1..] == recs[i + 1..];
      i := i + 1;
      if r.rtype != TYPE_A || |r.rdata| != 4 { continue; }
      if !InBailiwick(r.name, zone) { continue; }
      var j := 0;
      while j < |ref.names|
        invariant j <= |ref.names| && Slot(ref, r.name, 0) == Slot(ref, r.name, j)
      {
        if ref.addrs[j].None? {
          var same := EqualNames(ref.names[j], r.name);
          if same { break; }
        }
        j := j + 1;
      }
      if j < |ref.names| { ref := ref.(addrs := ref.addrs[j := Some(r.rdata)]); }
    }
    assert recs[i..] == [];
  }

  /** What a usable reply yields. */
  datatype Reply = Reply(rcode: nat, scan: Scan, ref: Referral)

  function Dissected(msg: seq<byte>, qname: seq<byte>, zone: seq<byte>, cap: nat): Option<Reply> {
    var s := ReadReply(msg);
    if s.None? then None
    else Some(Reply(s.value.rcode, Answers(s.value.answers, qname, zone, cap), ReferralOf(s.value, qname, zone)))
  }

  /** dissect. */
  method DissectReply(msg: seq<byte>, qname: seq<byte>, zone: seq<byte>, cap: nat) returns (r: Option<Reply>)
    ensures r == Dissected(msg, qname, zone, cap)
  {
    hide ReadReply, NsAll, GlueAll, Answers;
    var s := ReadReply(msg);
    if s.None? { return None; }
    var scan := CollectAnswers(s.value.answers, qname, zone, cap);
    NsAllShape(Referral([], [], []), s.value.authority, qname, zone);
    var ref := CollectServers(s.value.authority, qname, zone);
    ref := CollectGlue(ref, s.value.additional, zone);
    return Some(Reply(s.value.rcode, scan, ref));
  }
}
