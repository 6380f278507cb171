/** Replies written out in bytes, for what goes wrong from the root and beyond nine names. */
module Replies {
  import opened Names
  import opened NameCodec
  import opened Wire
  import opened Rescan
  import opened Dissect

  // ---------------------------------------------------------------- small pieces

  predicate IsLetter(c: byte) {
    97 <= c <= 122
  }

  lemma LettersAreLower(l: seq<byte>)
    requires forall i :: 0 <= i < |l| ==> IsLetter(l[i])
    ensures Lower(l) == l && 0 !in l && CString(l) == l
  {
    CStringWhole(l);
  }

  lemma OneLabel(msg: seq<byte>, off: nat, l: seq<byte>)
    requires 1 <= |l| <= MAX_LABEL && Lower(l) == l && At(msg, off, [|l| as byte] + l + [0])
    ensures Decode(msg, off, MAX_NAME + 1) == Some(Decoded(l, off + |l| + 2))
  {
    hide DecodeFrom, Next;
    var piece: seq<byte> := [|l| as byte] + l;
    AtSplit(msg, off, piece, [0]);
    LabelStep(msg, Start(off), l);
    assert Dotted([]) + l == l;
    RootStep(msg, Walk(off + 1 + |l|, 0, l, None));
    WalkOn(msg, MAX_NAME + 1, Start(off));
    WalkOn(msg, MAX_NAME + 1, Walk(off + 1 + |l|, 0, l, None));
  }

  lemma RootLabel(msg: seq<byte>, off: nat)
    requires off < |msg| && msg[off] == 0
    ensures Decode(msg, off, MAX_NAME + 1) == Some(Decoded([], off + 1))
  {
    hide Lower;
  }

  /** A record of class IN behind its owner: its data is a one-letter name. */
  function Tail(rtype: byte, c: byte): (r: seq<byte>)
    ensures |r| == 13
  {
    [0, rtype, 0, 1, 0, 0, 0, 0, 0, 3, 1, c, 0]
  }

  function LetterRec(owner: seq<byte>, rtype: byte, c: byte): Rec {
    Rec(owner, rtype, CLASS_IN, 0, [1, c, 0], Some([c]))
  }

  lemma RecordReads(msg: seq<byte>, off: nat, o: nat, owner: seq<byte>, rtype: byte, c: byte)
    requires Decode(msg, off, MAX_NAME + 1) == Some(Decoded(owner, o)) && 0 !in owner
    requires At(msg, o, Tail(rtype, c)) && IsLetter(c)
    ensures ParseRR(msg, off).Some? && ParseRR(msg, off).value.next == o + 13
    ensures ToRec(msg, ParseRR(msg, off).value.rr) == LetterRec(owner, rtype, c)
  {
    hide Decode, CString;
    var t := Tail(rtype, c);
    assert forall k :: 0 <= k < 13 ==> msg[o + k] == t[k];
    CStringWhole(owner);
    LettersAreLower([c]);
    assert ParseRR(msg, off) == Some(ParsedRR(RR(owner, rtype, CLASS_IN, 0, 3, o + 10), o + 13));
    assert msg[o + 10..o + 13] == [1, c, 0];
    OneLabel(msg, o + 10, [c]);
  }

  /** Header with so many records in each section, then the question: a label, A, IN. */
  function Head(answers: byte, authority: byte, additional: byte, l: seq<byte>): (r: seq<byte>)
    requires |l| <= MAX_LABEL
    ensures |r| == 18 + |l|
  {
    [0, 0, 128, 0, 0, 1, 0, answers, 0, authority, 0, additional] + ([|l| as byte] + l + [0]) + [0, 1, 0, 1]
  }

  lemma HeadReads(msg: seq<byte>, answers: byte, authority: byte, additional: byte, l: seq<byte>)
    requires 1 <= |l| <= MAX_LABEL && Lower(l) == l && Head(answers, authority, additional, l) <= msg
    ensures ParseHeader(msg) == Some(Header(0, 0x8000, 1, answers, authority, additional))
    ensures SkipQuestions(msg, HDR_LEN, 1) == Some(18 + |l|)
  {
    hide Decode;
    var h := Head(answers, authority, additional, l);
    assert forall k :: 0 <= k < 12 ==> msg[k] == h[k];
    assert msg[12..14 + |l|] == h[12..14 + |l|] == [|l| as byte] + l + [0];
    OneLabel(msg, 12, l);
    assert SkipQuestion(msg, 12) == Some(18 + |l|);
  }

  // ---------------------------------------------------------------- referrals from the root

  const COM: seq<byte> := [99, 111, 109]

  /** One authority record: the root's own NS, "b". */
  const ROOT_NS: seq<byte> := Head(0, 1, 0, COM) + ([0] + Tail(TYPE_NS, 98))

  /** Two: the root's own NS, "b", and an NS of "com", "c". */
  const MIXED_NS: seq<byte> := Head(0, 2, 0, COM) + ([0] + Tail(TYPE_NS, 98)) + ([3] + COM + [0] + Tail(TYPE_NS, 99))

  lemma RootNsReads()
    ensures ReadReply(ROOT_NS) == Some(Sections(0, [], [LetterRec([], TYPE_NS, 98)], []))
  {
    hide Decode, ParseRR, ToRec, ParseHeader, SkipQuestions, Tail, Head, LetterRec, ReadSection;
    var msg := ROOT_NS;
    LettersAreLower(COM);
    HeadReads(msg, 0, 1, 0, COM);
    RootLabel(msg, 21);
    RecordReads(msg, 21, 22, [], TYPE_NS, 98);
    NothingRead(msg, 21);
    NothingRead(msg, 35);
    ReadStep(msg, 21, 1);
    assert [LetterRec([], TYPE_NS, 98)] + [] == [LetterRec([], TYPE_NS, 98)];
  }

  lemma MixedNsReads()
    ensures ReadReply(MIXED_NS) == Some(Sections(0, [], [LetterRec([], TYPE_NS, 98), LetterRec(COM, TYPE_NS, 99)], []))
  {
    hide Decode, ParseRR, ToRec, ParseHeader, SkipQuestions, Tail, Head, LetterRec, ReadSection;
    var msg := MIXED_NS;
    var r, q := LetterRec([], TYPE_NS, 98), LetterRec(COM, TYPE_NS, 99);
    LettersAreLower(COM);
    HeadReads(msg, 0, 2, 0, COM);
    RootLabel(msg, 21);
    RecordReads(msg, 21, 22, [], TYPE_NS, 98);
    OneLabel(msg, 35, COM);
    RecordReads(msg, 35, 40, COM, TYPE_NS, 99);
    NothingRead(msg, 21);
    NothingRead(msg, 53);
    ReadStep(msg, 35, 1);
    ReadStep(msg, 21, 2);
    assert [q] + [] == [q] && [r] + [q] == [r, q];
  }

  /** A referral from the root that leads nowhere: the zone stays the root. */
  lemma RootReferralStays()
    ensures ReadReply(ROOT_NS).Some?
    ensures var ref := ReferralOf(ReadReply(ROOT_NS).value, COM, []);
            ref.names == [[98]] && ref.zone == []
  {
    hide ReadReply;
    RootNsReads();
    var r := LetterRec([], TYPE_NS, 98);
    assert [r][1..] == [];
    assert NsOne(NO_REFERRAL, r, COM, []) == Referral([], [[98]], [None]);
    assert NsAll(NO_REFERRAL, [r], COM, []) == Referral([], [[98]], [None]);
  }

  /** A referral from the root to "com" that also offers the root's own server. */
  lemma MixedReferral()
    ensures ReadReply(MIXED_NS).Some?
    ensures var s := ReadReply(MIXED_NS).value;
            var ref := ReferralOf(s, COM, []);
            && ref.names == [[98], [99]] && ref.zone == COM
            && !OwnedBy(Sources(NO_REFERRAL, s.authority, COM, []), ref.zone)
  {
    hide ReadReply;
    MixedNsReads();
    var r, q := LetterRec([], TYPE_NS, 98), LetterRec(COM, TYPE_NS, 99);
    var one := Referral([], [[98]], [None]);
    var two := Referral(COM, [[98], [99]], [None, None]);
    assert [r, q][1..] == [q] && [q][1..] == [];
    assert NsOne(NO_REFERRAL, r, COM, []) == one;
    assert NsOne(one, q, COM, []) == two;
    assert NsAll(one, [q], COM, []) == two;
    assert NsAll(NO_REFERRAL, [r, q], COM, []) == two;
    assert Sources(NO_REFERRAL, [r, q], COM, [])[0] == r;
  }

  // ---------------------------------------------------------------- a delegation with glue

  /** An A record behind its owner. */
  function AddressTail(addr: seq<byte>): (r: seq<byte>)
    requires |addr| == 4
    ensures |r| == 14
  {
    [0, 1, 0, 1, 0, 0, 0, 0, 0, 4] + addr
  }

  lemma AddressReads(msg: seq<byte>, off: nat, o: nat, owner: seq<byte>, addr: seq<byte>)
    requires Decode(msg, off, MAX_NAME + 1) == Some(Decoded(owner, o)) && 0 !in owner
    requires |addr| == 4 && At(msg, o, AddressTail(addr))
    ensures ParseRR(msg, off) == Some(ParsedRR(RR(owner, 1, 1, 0, 4, o + 10), o + 14)) && At(msg, o + 10, addr)
  {
    hide Decode, CString;
    var t := AddressTail(addr);
    assert forall k :: 0 <= k < 14 ==> msg[o + k] == msg[o..o + 14][k] == t[k];
    CStringWhole(owner);
  }

  /** A reply to a one-label name: it is delegated to server c, whose address is given. */
  function GlueReply(l: seq<byte>, c: byte, addr: seq<byte>): seq<byte>
    requires |l| <= MAX_LABEL && |addr| == 4
  {
    Head(0, 1, 1, l) + (([|l| as byte] + l + [0]) + Tail(TYPE_NS, c)) + ([1, c, 0] + AddressTail(addr))
  }

  lemma GlueParts(l: seq<byte>, c: byte, addr: seq<byte>)
    requires 1 <= |l| <= MAX_LABEL && |addr| == 4
    ensures var msg, n := GlueReply(l, c, addr), |l|;
            && |msg| == 2 * n + 50 && Head(0, 1, 1, l) <= msg
            && At(msg, 18 + n, [n as byte] + l + [0]) && At(msg, 20 + 2 * n, Tail(TYPE_NS, c))
            && At(msg, 33 + 2 * n, [1, c, 0]) && At(msg, 36 + 2 * n, AddressTail(addr))
  {
    hide Head, Tail, AddressTail;
    var msg, h := GlueReply(l, c, addr), Head(0, 1, 1, l);
    var ns := ([|l| as byte] + l + [0]) + Tail(TYPE_NS, c);
    var ar := [1, c, 0] + AddressTail(addr);
    assert At(msg, 0, h + ns + ar);
    AtSplit(msg, 0, h + ns, ar);
    AtSplit(msg, 0, h, ns);
    AtSplit(msg, 18 + |l|, [|l| as byte] + l + [0], Tail(TYPE_NS, c));
    AtSplit(msg, 33 + 2 * |l|, [1, c, 0], AddressTail(addr));
  }

  lemma GlueReplyReads(l: seq<byte>, c: byte, addr: seq<byte>) returns (glue: Rec)
    requires 1 <= |l| <= MAX_LABEL && AllLetters(l) && IsLetter(c) && |addr| == 4
    ensures ReadReply(GlueReply(l, c, addr)) == Some(Sections(0, [], [LetterRec(l, TYPE_NS, c)], [glue]))
    ensures glue.name == [c] && glue.rtype == 1 && glue.rdata == addr
  {
    hide Decode, ParseRR, ToRec, ParseHeader, SkipQuestions, Tail, Head, LetterRec, ReadSection, At, GlueReply;
    hide AddressTail;
    var msg, n := GlueReply(l, c, addr), |l|;
    LettersAreLower(l);
    LettersAreLower([c]);
    GlueParts(l, c, addr);
    HeadReads(msg, 0, 1, 1, l);
    OneLabel(msg, 18 + n, l);
    RecordReads(msg, 18 + n, 20 + 2 * n, l, TYPE_NS, c);
    assert [1 as byte] + [c] + [0] == [1, c, 0];
    OneLabel(msg, 33 + 2 * n, [c]);
    AddressReads(msg, 33 + 2 * n, 36 + 2 * n, [c], addr);
    NothingRead(msg, 18 + n);
    NothingRead(msg, 33 + 2 * n);
    ReadStep(msg, 18 + n, 1);
    assert [LetterRec(l, TYPE_NS, c)] + [] == [LetterRec(l, TYPE_NS, c)];
    glue := ToRec(msg, ParseRR(msg, 33 + 2 * n).value.rr);
    assert glue.name == [c] && glue.rtype == 1 && glue.rdata == addr by { GlueIs(msg, 46 + 2 * n, [c], addr); }
    assert [glue] + [] == [glue];
  }

  lemma GlueIs(msg: seq<byte>, at: nat, owner: seq<byte>, addr: seq<byte>)
    requires |addr| == 4 && At(msg, at, addr)
    ensures var r := ToRec(msg, RR(owner, 1, 1, 0, 4, at)); r.name == owner && r.rtype == 1 && r.rdata == addr
  {
    hide Decode;
  }

  /** In bytes, for every name of one label, every server letter and every address: from the
      root the delegation is taken, and the server's address with it. */
  lemma DelegationIsTaken(l: seq<byte>, c: byte, addr: seq<byte>)
    requires 1 <= |l| <= MAX_LABEL && AllLetters(l) && IsLetter(c) && |addr| == 4
    ensures ReadReply(GlueReply(l, c, addr)).Some?
    ensures ReferralOf(ReadReply(GlueReply(l, c, addr)).value, l, []) == Referral(l, [[c]], [Some(addr)])
  {
    hide ReadReply;
    var glue := GlueReplyReads(l, c, addr);
    var r := LetterRec(l, TYPE_NS, c);
    var one := Referral(l, [[c]], [None]);
    assert [r][1..] == [] && [glue][1..] == [];
    assert NsOne(NO_REFERRAL, r, l, []) == one;
    assert NsAll(NO_REFERRAL, [r], l, []) == one;
    assert GlueOne(one, glue, []) == Referral(l, [[c]], [Some(addr)]);
    assert GlueAll(one, [glue], []) == Referral(l, [[c]], [Some(addr)]);
  }

  // ---------------------------------------------------------------- more than nine names

  const A: seq<byte> := [97]

  /** The one-letter names. */
  function Singles(cs: seq<byte>): (r: seq<seq<byte>>)
    ensures |r| == |cs|
  {
    seq(|cs|, i requires 0 <= i < |cs| => [cs[i]])
  }

  predicate AllLetters(cs: seq<byte>) {
    forall i :: 0 <= i < |cs| ==> IsLetter(cs[i])
  }

  /** CNAME records from "a" to each of these letters. */
  function FanBytes(cs: seq<byte>): (r: seq<byte>)
    ensures |r| == 16 * |cs|
  {
    if cs == [] then [] else ([1] + A + [0] + Tail(TYPE_CNAME, cs[0])) + FanBytes(cs[1..])
  }

  /** A reply to "a" A with these records as its answers. */
  function FanReply(cs: seq<byte>): seq<byte>
    requires |cs| < 256
  {
    Head(|cs|, 0, 0, A) + FanBytes(cs)
  }

  lemma FanRecReads(c: byte)
    requires IsLetter(c)
    ensures FanRec(A, [c]) == LetterRec(A, TYPE_CNAME, c)
  {
    assert FirstDot([c]) == 1;
    assert Split([c]) == [[c]];
    assert Labels(Trim([c])) == [[c]];
    LabelBytesCons([c], []);
    assert [[c]] == [[c]] + [];
  }

  lemma {:induction false} FanReads(msg: seq<byte>, off: nat, cs: seq<byte>)
    requires At(msg, off, FanBytes(cs)) && AllLetters(cs)
    ensures ReadSection(msg, off, |cs|) == Some(Read(Fan(A, Singles(cs)), off + |FanBytes(cs)|))
    decreases |cs|
  {
    hide Decode, ParseRR, ToRec, Tail, LetterRec, ReadSection, FanRec;
    if cs == [] {
      NothingRead(msg, off);
    } else {
      var c, rest := cs[0], cs[1..];
      assert IsLetter(c) && AllLetters(rest) by { assert forall i :: 0 <= i < |rest| ==> rest[i] == cs[i + 1]; }
      var owner: seq<byte> := [1] + A + [0];
      AtSplit(msg, off, owner + Tail(TYPE_CNAME, c), FanBytes(rest));
      AtSplit(msg, off, owner, Tail(TYPE_CNAME, c));
      LettersAreLower(A);
      OneLabel(msg, off, A);
      RecordReads(msg, off, off + 3, A, TYPE_CNAME, c);
      FanReads(msg, off + 16, rest);
      ReadStep(msg, off, |cs|);
      FanRecReads(c);
      assert Fan(A, Singles(cs)) == [FanRec(A, [c])] + Fan(A, Singles(rest));
    }
  }

  lemma FanReplyReads(cs: seq<byte>)
    requires |cs| < 256 && AllLetters(cs)
    ensures ReadReply(FanReply(cs)) == Some(Sections(0, Fan(A, Singles(cs)), [], []))
  {
    hide Decode, ParseRR, ToRec, ParseHeader, SkipQuestions, Head, ReadSection, FanBytes, Fan;
    var msg := FanReply(cs);
    LettersAreLower(A);
    HeadReads(msg, |cs|, 0, 0, A);
    assert msg[19..] == FanBytes(cs);
    FanReads(msg, 19, cs);
    NothingRead(msg, |msg|);
  }

  lemma DifferentLetters(x: byte, y: byte)
    requires IsLetter(x) && IsLetter(y) && x != y
    ensures !NameEq([x], [y])
  {
    assert Lower([x])[0] == x && Lower([y])[0] == y;
  }

  /** Order decides, in bytes: for all lists of at least eight different letters and one more,
      none of them "a", the reply that names the last one last leaves it out of the chain, and
      the reply with its record moved to the front takes it in. */
  lemma FanOrderMatters(cs: seq<byte>, last: byte, cap: nat)
    requires 8 <= |cs| < 255 && AllLetters(A + (cs + [last]))
    requires forall i, j :: 0 <= i < j < |A + (cs + [last])| ==> (A + (cs + [last]))[i] != (A + (cs + [last]))[j]
    ensures ReadReply(FanReply(cs + [last])).Some? && ReadReply(FanReply([last] + cs)).Some?
    ensures var a, b := ReadReply(FanReply(cs + [last])).value.answers, ReadReply(FanReply([last] + cs)).value.answers;
            && multiset(a) == multiset(b)
            && [last] !in NameSet(Rescan.Answers(a, A, [], cap).chain)
            && [last] in NameSet(Rescan.Answers(b, A, [], cap).chain)
  {
    hide ReadReply, Rescan.Answers, Fan, NameSet, NameEq;
    var all := A + (cs + [last]);
    assert AllLetters(cs + [last]) by { assert forall i :: 0 <= i < |cs| + 1 ==> (cs + [last])[i] == all[i + 1]; }
    assert all[|all| - 1] == last && IsLetter(last);
    assert AllLetters([last] + cs) by { assert forall i :: 0 <= i < |cs| ==> cs[i] == (cs + [last])[i]; }
    FanReplyReads(cs + [last]);
    FanReplyReads([last] + cs);
    assert Singles(cs + [last]) == Singles(cs) + [[last]] && Singles([last] + cs) == [[last]] + Singles(cs);
    var names := [A] + (Singles(cs) + [[last]]);
    forall i, j | 0 <= i < j < |names| ensures !NameEq(names[i], names[j]) {
      assert names[i] == [all[i]] && names[j] == [all[j]];
      DifferentLetters(all[i], all[j]);
    }
    OrderMattersBeyondNine(A, Singles(cs), [last], cap);
    LettersAreLower([last]);
  }

  /** An instance: ten names, "a" to "j". */
  lemma TenNames(cap: nat)
    ensures var cs: seq<byte> := [98, 99, 100, 101, 102, 103, 104, 105];
            && ReadReply(FanReply(cs + [106])).Some? && ReadReply(FanReply([106] + cs)).Some?
            && NameSet(Rescan.Answers(ReadReply(FanReply(cs + [106])).value.answers, A, [], cap).chain)
               != NameSet(Rescan.Answers(ReadReply(FanReply([106] + cs)).value.answers, A, [], cap).chain)
  {
    hide ReadReply, Rescan.Answers, NameSet, FanReply;
    var cs: seq<byte> := [98, 99, 100, 101, 102, 103, 104, 105];
    var all := A + (cs + [106]);
    assert forall i :: 0 <= i < |all| ==> all[i] == 97 + i;
    FanOrderMatters(cs, 106, cap);
  }
}
