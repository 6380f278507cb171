/** Printing then parsing: what the readers of dns_msg.c make of a built response. */
module WireRoundTrip {
  import opened Names
  import opened NameCodec
  import opened Wire

  /** The question of `msg` reads as this text and ends there, with a pointer to spare. */
  predicate QuestionReads(msg: seq<byte>, text: seq<byte>, next: nat) {
    var u := WalkFreely(msg, MAX_NAME + 1, Start(HDR_LEN));
    u.Some? && u.value.name == Decoded(text, next) && u.value.pointers < MAX_PTR_JUMPS
  }

  lemma {:induction false} CStringKeepsLower(s: seq<byte>)
    requires Lower(s) == s
    ensures Lower(CString(s)) == CString(s)
  {
    if s != [] && s[0] != 0 {
      assert Lower(s[1..]) == Lower(s)[1..];
      CStringKeepsLower(s[1..]);
      assert LowerByte(s[0]) == Lower(s)[0];
    }
  }

  lemma QuestionIsLower(msg: seq<byte>, text: seq<byte>, next: nat)
    requires QuestionReads(msg, text, next)
    ensures Lower(CString(text)) == CString(text)
  {
    WalkIsLower(msg, MAX_NAME + 1, Start(HDR_LEN));
    CStringKeepsLower(text);
  }

  /** The two bytes C0 0C stand for the question's name, if and only if following them does
      not exceed the limit on pointers. */
  lemma PointerToQuestion(msg: seq<byte>, off: nat)
    requires off > HDR_LEN && At(msg, off, [0xC0, 0x0C])
    ensures var u := WalkFreely(msg, MAX_NAME + 1, Start(HDR_LEN));
            Decode(msg, off, MAX_NAME + 1) ==
            if u.Some? && u.value.pointers < 32 then Some(Decoded(u.value.name.text, off + 2)) else None
  {
    hide WalkFreely;
    var w := msg[off..off + 2];
    assert msg[off] == w[0] == 0xC0 && msg[off + 1] == w[1] == 0x0C;
    assert Target(0xC0, 0x0C) == HDR_LEN;
    var to := Walk(HDR_LEN, 1, [], Some(off + 2));
    assert Next(msg, MAX_NAME + 1, Start(off)) == Go(to);
    WalkAfterPointer(msg, MAX_NAME + 1, Start(HDR_LEN), off + 2);
    CountedWalk(msg, MAX_NAME + 1, to);
  }

  /** The owner name a reader gets: lower case, without a trailing dot. */
  function ReadOwner(a: Answer, qname: seq<byte>): seq<byte> {
    if NameEq(a.owner, qname) then Lower(a.owner) else Canonical(a.owner)
  }

  lemma CanonicalIsCString(name: seq<byte>)
    requires 0 !in name
    ensures CString(Canonical(name)) == Canonical(name)
  {
    var c := Canonical(name);
    forall i | 0 <= i < |c| ensures c[i] != 0 {
      assert c[i] == LowerByte(name[i]) && name[i] in name;
    }
    CStringWhole(c);
  }

  lemma {:induction false} OwnerReadsBack(msg: seq<byte>, off: nat, a: Answer, text: seq<byte>, next: nat)
    requires QuestionReads(msg, text, next) && off > HDR_LEN && a.Valid()
    requires OwnerBytes(a, CString(text)).Some? && At(msg, off, OwnerBytes(a, CString(text)).value)
    ensures var d := Decode(msg, off, MAX_NAME + 1);
            && d.Some? && CString(d.value.text) == ReadOwner(a, CString(text))
            && d.value.next == off + |OwnerBytes(a, CString(text)).value|
  {
    if NameEq(a.owner, CString(text)) {
      PointerToQuestion(msg, off);
      QuestionIsLower(msg, text, next);
    } else {
      RoundTrip(msg, off, a.owner);
      CanonicalIsCString(a.owner);
    }
  }

  lemma {:induction false} FixedReadsBack(msg: seq<byte>, o: nat, a: Answer, rdlength: nat)
    requires a.Valid() && rdlength < 65536 && At(msg, o, FixedBytes(a, rdlength))
    ensures Rd16(msg, o) == a.Type() && Rd16(msg, o + 2) == CLASS_IN
    ensures Rd32(msg, o + 4) == a.ttl && Rd16(msg, o + 8) == rdlength
  {
    AtSplit(msg, o, Wr16(a.Type()) + Wr16(CLASS_IN) + Wr32(a.ttl), Wr16(rdlength));
    AtSplit(msg, o, Wr16(a.Type()) + Wr16(CLASS_IN), Wr32(a.ttl));
    AtSplit(msg, o, Wr16(a.Type()), Wr16(CLASS_IN));
    Rd16OfWr16(msg, o, a.Type());
    Rd16OfWr16(msg, o + 2, CLASS_IN);
    Rd32OfWr32(msg, o + 4, a.ttl);
    Rd16OfWr16(msg, o + 8, rdlength);
  }

  /** The data a reader finds at a record's data offset is the data that was emitted. */
  predicate DataReadsBack(msg: seq<byte>, rr: RR, a: Answer) {
    match a.data
    case AData(x) => rr.rdlength == 4 && At(msg, rr.rdata, x)
    case AaaaData(x) => rr.rdlength == 16 && At(msg, rr.rdata, x)
    case CNameData(n) => Decode(msg, rr.rdata, MAX_NAME + 1) == Some(Decoded(Canonical(n), rr.rdata + rr.rdlength))
    case OtherData(_) => false
  }

  /** A parsed record is the answer it was printed from. */
  predicate ReadsBack(msg: seq<byte>, rr: RR, a: Answer, qname: seq<byte>) {
    && rr.name == ReadOwner(a, qname) && rr.rtype == a.Type() && rr.rclass == 1
    && rr.ttl == a.ttl && DataReadsBack(msg, rr, a)
  }

  lemma {:induction false} DataFound(msg: seq<byte>, rr: RR, a: Answer)
    requires a.Valid() && DataBytes(a).Some? && At(msg, rr.rdata, DataBytes(a).value)
    requires rr.rdlength == |DataBytes(a).value|
    ensures DataReadsBack(msg, rr, a)
  {
    hide WireName, At, Canonical, Decode;
    if a.data.CNameData? {
      RoundTrip(msg, rr.rdata, a.data.target);
    }
  }

  lemma DataIsShort(a: Answer)
    requires a.Valid() && DataBytes(a).Some?
    ensures |DataBytes(a).value| <= 256
  {
  }

  lemma {:induction false} AnswerReadsBack(msg: seq<byte>, off: nat, a: Answer, text: seq<byte>, next: nat)
    requires QuestionReads(msg, text, next) && off > HDR_LEN && a.Valid()
    requires AnswerBytes(a, CString(text)).Some? && At(msg, off, AnswerBytes(a, CString(text)).value)
    ensures var p := ParseRR(msg, off);
            && p.Some? && p.value.next == off + |AnswerBytes(a, CString(text)).value|
            && ReadsBack(msg, p.value.rr, a, CString(text))
  {
    hide OwnerBytes, DataBytes, FixedBytes, QuestionReads, CString, DataReadsBack, ReadOwner;
    var o, d := OwnerBytes(a, CString(text)).value, DataBytes(a).value;
    DataIsShort(a);
    var f := FixedBytes(a, |d|);
    AtSplit(msg, off, o + f, d);
    AtSplit(msg, off, o, f);
    OwnerReadsBack(msg, off, a, text, next);
    FixedReadsBack(msg, off + |o|, a, |d|);
    DataFound(msg, ParseRR(msg, off).value.rr, a);
  }

  /** Parsing as many records as were kept gives exactly those, and ends where their
      bytes end. */
  predicate SectionReads(msg: seq<byte>, off: nat, kept: seq<Answer>, len: nat, qname: seq<byte>) {
    var p := ParseRRs(msg, off, |kept|);
    && p.Some? && p.value.next == off + len && |p.value.rrs| == |kept|
    && forall i :: 0 <= i < |kept| ==> ReadsBack(msg, p.value.rrs[i], kept[i], qname)
  }

  lemma SectionReadsNil(msg: seq<byte>, off: nat, qname: seq<byte>)
    ensures SectionReads(msg, off, [], 0, qname)
  {
  }

  lemma {:induction false} SectionReadsCons(msg: seq<byte>, off: nat, a: Answer, n: nat, kept: seq<Answer>, len: nat,
                                            qname: seq<byte>)
    requires var p := ParseRR(msg, off); p.Some? && p.value.next == off + n && ReadsBack(msg, p.value.rr, a, qname)
    requires SectionReads(msg, off + n, kept, len, qname)
    ensures SectionReads(msg, off, [a] + kept, n + len, qname)
  {
    hide ReadsBack, ParseRR;
    var p, rest := ParseRR(msg, off).value, ParseRRs(msg, off + n, |kept|).value;
    var all := [a] + kept;
    assert ParseRRs(msg, off, |all|) == Some(ParsedRRs([p.rr] + rest.rrs, rest.next));
    forall i | 0 <= i < |all| ensures ReadsBack(msg, ([p.rr] + rest.rrs)[i], all[i], qname) {
      if i > 0 { assert ReadsBack(msg, rest.rrs[i - 1], kept[i - 1], qname); }
    }
  }

  lemma {:induction false} SectionReadsBack(msg: seq<byte>, off: nat, ans: seq<Answer>, room: nat, text: seq<byte>,
                                            next: nat)
    requires QuestionReads(msg, text, next) && off > HDR_LEN && AllValid(ans)
    requires At(msg, off, Emit(ans, CString(text), room).bytes)
    ensures var e := Emit(ans, CString(text), room);
            SectionReads(msg, off, e.kept, |e.bytes|, CString(text))
    decreases |ans|
  {
    hide OwnerBytes, AnswerBytes, QuestionReads, CString, At, ReadsBack, ParseRR, SectionReads;
    var qname := CString(text);
    if ans == [] {
      SectionReadsNil(msg, off, qname);
    } else {
      match FateOf(ans[0], qname, room)
      case Full =>
        SectionReadsNil(msg, off, qname);
      case Skip =>
        SectionReadsBack(msg, off, ans[1..], room, text, next);
      case Keep(b) =>
        var rest := Emit(ans[1..], qname, room - |b|);
        AtSplit(msg, off, b, rest.bytes);
        AnswerReadsBack(msg, off, ans[0], text, next);
        SectionReadsBack(msg, off + |b|, ans[1..], room - |b|, text, next);
        SectionReadsCons(msg, off, ans[0], |b|, rest.kept, |rest.bytes|, qname);
    }
  }

  lemma OptRecordReads(msg: seq<byte>, off: nat, o: Opt)
    requires At(msg, off, OptRecord(o)) && o.payload < 65536 && o.ttl < 0x1_0000_0000
    ensures ParseRR(msg, off) == Some(ParsedRR(RR([], 41, o.payload, o.ttl, 0, off + 11), off + 11))
  {
    var a, b, c := Wr16(TYPE_OPT), Wr16(o.payload), Wr32(o.ttl);
    AtSplit(msg, off, [0] + a + b + c, Wr16(0));
    AtSplit(msg, off, [0] + a + b, c);
    AtSplit(msg, off, [0] + a, b);
    AtSplit(msg, off, [0], a);
    assert msg[off..off + 1][0] == 0;
    Rd16OfWr16(msg, off + 1, TYPE_OPT);
    Rd16OfWr16(msg, off + 3, o.payload);
    Rd32OfWr32(msg, off + 5, o.ttl);
    Rd16OfWr16(msg, off + 9, 0);
  }

  lemma OptReadsBack(msg: seq<byte>, off: nat, dnssecOk: bool)
    requires At(msg, off, OptBytes(dnssecOk))
    ensures ParseRR(msg, off) ==
            Some(ParsedRR(RR([], 41, 1232, if dnssecOk then 0x8000 else 0, 0, off + 11), off + 11))
  {
    hide ParseRR, At, OptRecord;
    OptRecordReads(msg, off, Opt(EDNS_OUR_PAYLOAD, if dnssecOk then 0x8000 else 0));
  }

  lemma {:induction false} HeaderReadsBack(msg: seq<byte>, q: QueryInfo, truncated: bool, rcode: int, emitted: nat,
                                           opt: bool)
    requires q.hdr.id < 65536 && emitted < 65536
    requires At(msg, 0, HeaderBytes(q, truncated, rcode, emitted, opt))
    ensures ParseHeader(msg) == Some(Header(q.hdr.id, Flags(q, truncated, rcode), 1, emitted, 0, if opt then 1 else 0))
  {
    var a, b, c, d, e := Wr16(q.hdr.id), Wr16(Flags(q, truncated, rcode)), Wr16(1), Wr16(emitted), Wr16(0);
    var n: nat := if opt then 1 else 0;
    AtSplit(msg, 0, a + b + c + d + e, Wr16(n));
    AtSplit(msg, 0, a + b + c + d, e);
    AtSplit(msg, 0, a + b + c, d);
    AtSplit(msg, 0, a + b, c);
    AtSplit(msg, 0, a, b);
    Rd16OfWr16(msg, 0, q.hdr.id);
    Rd16OfWr16(msg, 2, Flags(q, truncated, rcode));
    Rd16OfWr16(msg, 4, 1);
    Rd16OfWr16(msg, 6, emitted);
    Rd16OfWr16(msg, 8, 0);
    Rd16OfWr16(msg, 10, n);
  }

  /** An accepted query whose question's name is read from the question's own bytes, over
      at most 31 pointers. */
  predicate OwnQuestion(query: seq<byte>, q: QueryInfo) {
    var u := WalkFreely(query, MAX_NAME + 1, Start(HDR_LEN));
    && u.Some? && u.value.pointers < MAX_PTR_JUMPS
    && Inside(query, MAX_NAME + 1, Start(HDR_LEN), HDR_LEN, HDR_LEN + q.rawLen)
  }

  lemma AcceptedQuestion(query: seq<byte>, q: QueryInfo)
    requires ParseQuery(query) == Some(q) && OwnQuestion(query, q)
    ensures WalkFreely(query, MAX_NAME + 1, Start(HDR_LEN)).Some?
    ensures var d := WalkFreely(query, MAX_NAME + 1, Start(HDR_LEN)).value.name;
            QuestionReads(query, d.text, d.next) && q.name == CString(d.text) && HDR_LEN + q.rawLen == d.next + 4
    ensures q.hdr.id < 65536 && q.rawLen > 0
  {
    hide WalkFreely, DecodeFrom;
    DecodeBounds(query, HDR_LEN);
    CountedWalk(query, MAX_NAME + 1, Start(HDR_LEN));
  }

  /** In particular one written without pointers. */
  lemma {:induction false} PlainIsOwn(query: seq<byte>, q: QueryInfo, ls: seq<seq<byte>>)
    requires ParseQuery(query) == Some(q) && LabelsOk(ls) && At(query, HDR_LEN, LabelBytes(ls) + [0])
    ensures OwnQuestion(query, q)
  {
    hide WalkFreely, Inside, DecodeFrom, LabelBytes;
    DecodeLabels(query, Start(HDR_LEN), ls);
    PlainWalk(query, Start(HDR_LEN), ls, HDR_LEN, HDR_LEN + q.rawLen);
  }

  lemma {:induction false} PlainWalk(msg: seq<byte>, w: Walk, ls: seq<seq<byte>>, lo: nat, hi: nat)
    requires LabelsOk(ls) && At(msg, w.off, LabelBytes(ls) + [0]) && w.jumps <= MAX_PTR_JUMPS
    requires lo <= w.off && w.off + |LabelBytes(ls)| + 1 <= hi && |AppendLabels(w.text, ls)| <= MAX_NAME
    ensures Inside(msg, MAX_NAME + 1, w, lo, hi)
    ensures var u := WalkFreely(msg, MAX_NAME + 1, w); u.Some? && u.value.pointers == w.jumps
    decreases |ls|
  {
    if ls == [] {
      RootStep(msg, w);
    } else {
      hide Turn;
      var l := ls[0];
      var piece: seq<byte> := [|l| as byte] + l;
      var to := w.(off := w.off + 1 + |l|, text := Dotted(w.text) + Lower(l));
      assert LabelBytes(ls) + [0] == piece + (LabelBytes(ls[1..]) + [0]);
      AtSplit(msg, w.off, piece, LabelBytes(ls[1..]) + [0]);
      AppendLabelsLength(to.text, ls[1..]);
      LabelStep(msg, w, l);
      PlainWalk(msg, to, ls[1..], lo, hi);
    }
  }

  /** The four parts of a response, each at its place, and nothing behind them. */
  predicate LaidOut(resp: seq<byte>, query: seq<byte>, q: QueryInfo, e: Emission, rcode: int, opt: bool)
    requires HDR_LEN + q.rawLen <= |query| && (opt ==> q.edns.Some?)
  {
    var o := HDR_LEN + q.rawLen;
    && At(resp, 0, HeaderBytes(q, e.truncated, rcode, |e.kept|, opt))
    && At(resp, HDR_LEN, query[HDR_LEN..o])
    && At(resp, o, e.bytes)
    && (opt ==> At(resp, o + |e.bytes|, OptBytes(q.edns.value.dnssecOk)))
    && |resp| == o + |e.bytes| + if opt then OPT_RR_LEN else 0
  }

  lemma {:induction false} ResponseParts(query: seq<byte>, q: QueryInfo, ans: seq<Answer>, rcode: int, udp: bool,
                                         cap: nat)
    requires HDR_LEN + q.rawLen <= |query| && HDR_LEN + q.rawLen <= AnswerLimit(q, udp, cap)
    ensures var e := Section(q, ans, rcode, AnswerLimit(q, udp, cap));
            LaidOut(Response(query, q, ans, rcode, udp, cap), query, q, e, rcode,
              EchoesOpt(q, |e.bytes|, Limit(q, udp, cap)))
  {
    var resp := Response(query, q, ans, rcode, udp, cap);
    var e := Section(q, ans, rcode, AnswerLimit(q, udp, cap));
    var opt := EchoesOpt(q, |e.bytes|, Limit(q, udp, cap));
    var h := HeaderBytes(q, e.truncated, rcode, |e.kept|, opt);
    var w := query[HDR_LEN..HDR_LEN + q.rawLen];
    var t := if opt then OptBytes(q.edns.value.dnssecOk) else [];
    assert resp == h + w + e.bytes + t;
    assert At(resp, 0, h + w + e.bytes + t);
    AtSplit(resp, 0, h + w + e.bytes, t);
    AtSplit(resp, 0, h + w, e.bytes);
    AtSplit(resp, 0, h, w);
  }

  /** The response echoes the question, so it is read at the same place. */
  lemma QuestionReadsBack(query: seq<byte>, resp: seq<byte>, q: QueryInfo, text: seq<byte>, next: nat)
    requires QuestionReads(query, text, next) && OwnQuestion(query, q) && HDR_LEN + q.rawLen == next + 4
    requires HDR_LEN + q.rawLen <= |query| && At(resp, HDR_LEN, query[HDR_LEN..HDR_LEN + q.rawLen])
    ensures QuestionReads(resp, text, next) && SkipQuestion(resp, HDR_LEN) == Some(HDR_LEN + q.rawLen)
  {
    hide WalkFreely, Inside, DecodeFrom;
    SameBytesSameName(query, resp, MAX_NAME + 1, Start(HDR_LEN), HDR_LEN, HDR_LEN + q.rawLen);
    CountedWalk(resp, MAX_NAME + 1, Start(HDR_LEN));
  }

  /** What a client finds in a response's flags. */
  predicate FlagsSay(flags: nat, recursionDesired: bool, truncated: bool, rcode: int) {
    && IsResponse(flags) && Opcode(flags) == 0 && OffersRecursion(flags) && flags % 16 == rcode % 16
    && (WantsRecursion(flags) <==> recursionDesired) && (IsTruncated(flags) <==> truncated)
  }

  lemma FlagsReadBack(q: QueryInfo, truncated: bool, rcode: int)
    ensures FlagsSay(Flags(q, truncated, rcode), q.recursionDesired, truncated, rcode)
  {
    var high := 0x808 + (if q.recursionDesired then 0x10 else 0) + (if truncated then 0x20 else 0);
    assert Flags(q, truncated, rcode) == 16 * high + rcode % 16;
  }

  /** How a response is read: id, flags and counts; the verbatim question; the kept
      answers in order; then the OPT record if the query had one; and nothing else. */
  predicate ReadsAs(resp: seq<byte>, query: seq<byte>, q: QueryInfo, e: Emission, rcode: int) {
    var o := HDR_LEN + q.rawLen;
    && o <= |query|
    && ParseHeader(resp) ==
       Some(Header(q.hdr.id, Flags(q, e.truncated, rcode), 1, |e.kept|, 0, if q.edns.Some? then 1 else 0))
    && FlagsSay(ParseHeader(resp).value.flags, q.recursionDesired, e.truncated, rcode)
    && SkipQuestion(resp, HDR_LEN) == Some(o) && At(resp, HDR_LEN, query[HDR_LEN..o])
    && SectionReads(resp, o, e.kept, |e.bytes|, q.name)
    && (if q.edns.None? then o + |e.bytes| == |resp|
        else
          var bits := if q.edns.value.dnssecOk then 0x8000 else 0;
          ParseRR(resp, o + |e.bytes|) ==
          Some(ParsedRR(RR([], 41, 1232, bits, 0, |resp|), |resp|)))
  }

  /** Printing then parsing, for every accepted query whose question is read from its own
      bytes, every set of answers and both transports. */
  lemma {:induction false} ResponseReadsBack(query: seq<byte>, q: QueryInfo, ans: seq<Answer>, rcode: int, udp: bool,
                                             cap: nat)
    requires ParseQuery(query) == Some(q) && OwnQuestion(query, q)
    requires AllValid(ans) && |ans| < 65536 && cap >= 512
    ensures HDR_LEN + q.rawLen <= |query| && HDR_LEN + q.rawLen <= AnswerLimit(q, udp, cap)
    ensures ReadsAs(Response(query, q, ans, rcode, udp, cap), query, q,
              Section(q, ans, rcode, AnswerLimit(q, udp, cap)), rcode)
    ensures Says(Section(q, ans, rcode, AnswerLimit(q, udp, cap)), ans, rcode)
  {
    hide ParseQuery, Says, ClientLimit, At, Response, LaidOut, Emit, ReadsAs, QuestionReads, OwnQuestion, WalkFreely;
    ResponseFits(query, q, ans, rcode, udp, cap);
    AcceptedQuestion(query, q);
    SectionSays(q, ans, rcode, AnswerLimit(q, udp, cap));
    ResponseParts(query, q, ans, rcode, udp, cap);
    var d := WalkFreely(query, MAX_NAME + 1, Start(HDR_LEN)).value.name;
    var resp := Response(query, q, ans, rcode, udp, cap);
    var room := AnswerLimit(q, udp, cap) - HDR_LEN - q.rawLen;
    FewerThanOffered(Offered(ans, rcode), q.name, room);
    PartsReadAs(query, resp, q, Offered(ans, rcode), room, rcode, d.text, d.next);
  }

  lemma {:induction false} PartsReadAs(query: seq<byte>, resp: seq<byte>, q: QueryInfo, off: seq<Answer>, room: nat,
                                       rcode: int, text: seq<byte>, next: nat)
    requires QuestionReads(query, text, next) && OwnQuestion(query, q) && q.name == CString(text)
             && HDR_LEN + q.rawLen == next + 4
    requires HDR_LEN + q.rawLen <= |query| && q.rawLen > 0 && q.hdr.id < 65536 && AllValid(off)
    requires |Emit(off, q.name, room).kept| < 65536
    requires LaidOut(resp, query, q, Emit(off, q.name, room), rcode, q.edns.Some?)
    ensures ReadsAs(resp, query, q, Emit(off, q.name, room), rcode)
  {
    hide Emit, At, HeaderBytes, OptBytes, QuestionReads, OwnQuestion, CString, ParseHeader, ParseRR, SkipQuestion;
    hide SectionReads, Flags, FlagsSay;
    var e := Emit(off, q.name, room);
    FlagsReadBack(q, e.truncated, rcode);
    HeaderReadsBack(resp, q, e.truncated, rcode, |e.kept|, q.edns.Some?);
    QuestionReadsBack(query, resp, q, text, next);
    SectionReadsBack(resp, HDR_LEN + q.rawLen, off, room, text, next);
    if q.edns.Some? {
      OptReadsBack(resp, HDR_LEN + q.rawLen + |e.bytes|, q.edns.value.dnssecOk);
    }
  }

  lemma {:induction false} FewerThanOffered(ans: seq<Answer>, qname: seq<byte>, room: nat)
    ensures |Emit(ans, qname, room).kept| <= |ans|
  {
    KeptIsPrefix(ans, qname, room);
    SupportedIsShorter(ans);
  }

  lemma {:induction false} SupportedIsShorter(ans: seq<Answer>)
    ensures |SupportedOf(ans)| <= |ans|
  {
    if ans != [] {
      SupportedIsShorter(ans[1..]);
    }
  }
}
