/** Messages: the parsers of dns_msg.c and the response they must read back. */
module Wire {
  import opened Names
  import opened NameCodec

  const HDR_LEN := 12
  const TYPE_A := 1
  const TYPE_CNAME := 5
  const TYPE_AAAA := 28
  const TYPE_OPT := 41
  const CLASS_IN := 1
  /** The most answers a resolution keeps. */
  const MAX_ANSWERS := 8
  const EDNS_MIN_PAYLOAD := 512
  const EDNS_OUR_PAYLOAD := 1232
  const CLASSIC_UDP_LIMIT := 512
  const OPT_RR_LEN := 11

  // ---------------------------------------------------------------- numbers

  /** wr16 and wr32 keep the low 16 and 32 bits, most significant byte first. */
  function Wr16(v: nat): (r: seq<byte>)
    ensures |r| == 2
  {
    [v / 256 % 256, v % 256]
  }

  function Wr32(v: nat): (r: seq<byte>)
    ensures |r| == 4
  {
    Wr16(v / 65536) + Wr16(v % 65536)
  }

  function Rd16(msg: seq<byte>, off: nat): nat
    requires off + 2 <= |msg|
  {
    (msg[off] as int) * 256 + msg[off + 1] as int
  }

  function Rd32(msg: seq<byte>, off: nat): nat
    requires off + 4 <= |msg|
  {
    Rd16(msg, off) * 65536 + Rd16(msg, off + 2)
  }

  lemma Rd16OfWr16(msg: seq<byte>, off: nat, v: nat)
    requires At(msg, off, Wr16(v)) && v < 65536
    ensures Rd16(msg, off) == v
  {
    var w := msg[off..off + 2];
    assert msg[off] == w[0] && msg[off + 1] == w[1];
  }

  lemma Rd32OfWr32(msg: seq<byte>, off: nat, v: nat)
    requires At(msg, off, Wr32(v)) && v < 0x1_0000_0000
    ensures Rd32(msg, off) == v
  {
    AtSplit(msg, off, Wr16(v / 65536), Wr16(v % 65536));
    Rd16OfWr16(msg, off, v / 65536);
    Rd16OfWr16(msg, off + 2, v % 65536);
  }

  // ---------------------------------------------------------------- parsing

  datatype Header = Header(id: nat, flags: nat, qdcount: nat, ancount: nat, nscount: nat, arcount: nat)

  /** dns_parse_header. */
  function ParseHeader(msg: seq<byte>): Option<Header> {
    if |msg| < HDR_LEN then None
    else Some(Header(Rd16(msg, 0), Rd16(msg, 2), Rd16(msg, 4), Rd16(msg, 6), Rd16(msg, 8), Rd16(msg, 10)))
  }

  /** A char buffer read as a C string ends at its first NUL. */
  function CString(s: seq<byte>): seq<byte> {
    if s == [] || s[0] == 0 then [] else [s[0]] + CString(s[1..])
  }

  lemma {:induction false} CStringWhole(s: seq<byte>)
    requires 0 !in s
    ensures CString(s) == s
  {
    if s != [] {
      CStringWhole(s[1..]);
    }
  }

  /** dns_skip_question: the offset behind the question at `off`. */
  function SkipQuestion(msg: seq<byte>, off: nat): Option<nat> {
    var d := Decode(msg, off, MAX_NAME + 1);
    if d.None? || d.value.next + 4 > |msg| then None else Some(d.value.next + 4)
  }

  /** struct dns_rr: rdata is the offset of the data in the message it came from. */
  datatype RR = RR(name: seq<byte>, rtype: nat, rclass: nat, ttl: nat, rdlength: nat, rdata: nat)

  datatype ParsedRR = ParsedRR(rr: RR, next: nat)

  /** dns_parse_rr. */
  function ParseRR(msg: seq<byte>, off: nat): Option<ParsedRR> {
    var d := Decode(msg, off, MAX_NAME + 1);
    if d.None? || d.value.next + 10 > |msg| then None
    else
      var o := d.value.next;
      var rdlength := Rd16(msg, o + 8);
      if o + 10 + rdlength > |msg| then None
      else Some(ParsedRR(
                  RR(CString(d.value.text), Rd16(msg, o), Rd16(msg, o + 2), Rd32(msg, o + 4), rdlength, o + 10),
                  o + 10 + rdlength))
  }

  datatype ParsedRRs = ParsedRRs(rrs: seq<RR>, next: nat)

  /** `n` records in a row, as every reader of a section walks them. */
  function ParseRRs(msg: seq<byte>, off: nat, n: nat): Option<ParsedRRs>
    decreases n
  {
    if n == 0 then Some(ParsedRRs([], off))
    else
      var first := ParseRR(msg, off);
      if first.None? then None
      else
        var rest := ParseRRs(msg, first.value.next, n - 1);
        if rest.None? then None
        else Some(ParsedRRs([first.value.rr] + rest.value.rrs, rest.value.next))
  }

  /** struct dns_query_info; the question is query[12..12+rawLen]. */
  datatype QueryInfo = QueryInfo(hdr: Header, name: seq<byte>, qtype: nat, qclass: nat, rawLen: nat,
                                 recursionDesired: bool, edns: Option<Edns>)

  datatype Edns = Edns(payload: nat, version: nat, dnssecOk: bool)

  predicate IsResponse(flags: nat) { flags / 0x8000 % 2 == 1 }
  predicate IsTruncated(flags: nat) { flags / 0x200 % 2 == 1 }
  predicate WantsRecursion(flags: nat) { flags / 0x100 % 2 == 1 }
  predicate OffersRecursion(flags: nat) { flags / 0x80 % 2 == 1 }
  function Opcode(flags: nat): nat { flags / 0x800 % 16 }

  /** The OPT record, looked for only at the first additional record. */
  function ParseEdns(msg: seq<byte>, off: nat): Option<Edns> {
    var p := ParseRR(msg, off);
    if p.Some? && p.value.rr.rtype == TYPE_OPT && p.value.rr.name == [] then
      Some(Edns(p.value.rr.rclass, p.value.rr.ttl / 65536 % 256, p.value.rr.ttl / 0x8000 % 2 == 1))
    else None
  }

  /** dns_parse_query. */
  function ParseQuery(msg: seq<byte>): Option<QueryInfo> {
    var h := ParseHeader(msg);
    if h.None? || IsResponse(h.value.flags) || Opcode(h.value.flags) != 0 || h.value.qdcount != 1 then None
    else
      var d := Decode(msg, HDR_LEN, MAX_NAME + 1);
      if d.None? || d.value.next + 4 > |msg| then None
      else
        DecodeBounds(msg, HDR_LEN);
        var o := d.value.next;
        Some(QueryInfo(h.value, CString(d.value.text), Rd16(msg, o), Rd16(msg, o + 2), o + 4 - HDR_LEN,
                       WantsRecursion(h.value.flags),
                       if h.value.arcount >= 1 then ParseEdns(msg, o + 4) else None))
  }

  /** An accepted query's question takes at most 262 bytes, whatever pointers it uses. */
  lemma QuestionIsShort(msg: seq<byte>)
    requires ParseQuery(msg).Some?
    ensures ShortQuestion(ParseQuery(msg).value)
    ensures HDR_LEN + ParseQuery(msg).value.rawLen <= |msg|
  {
    DecodeBounds(msg, HDR_LEN);
  }

  // ---------------------------------------------------------------- answers

  /** struct dns_answer: the union member that counts is the one the type selects. */
  datatype Data =
    | AData(addr: seq<byte>)
    | AaaaData(addr6: seq<byte>)
    | CNameData(target: seq<byte>)
    | OtherData(rtype: nat)

  datatype Answer = Answer(owner: seq<byte>, ttl: nat, data: Data) {
    function Type(): nat {
      match data
      case AData(_) => TYPE_A
      case AaaaData(_) => TYPE_AAAA
      case CNameData(_) => TYPE_CNAME
      case OtherData(t) => t
    }

    /** What the C types already say of every answer. */
    predicate Valid() {
      && 0 !in owner && ttl < 0x1_0000_0000
      && match data
         case AData(x) => |x| == 4
         case AaaaData(x) => |x| == 16
         case CNameData(n) => 0 !in n
         case OtherData(t) => t < 65536 && t != TYPE_A && t != TYPE_AAAA && t != TYPE_CNAME
    }

    predicate Supported() { !data.OtherData? }
  }

  predicate AllValid(ans: seq<Answer>) {
    forall i :: 0 <= i < |ans| ==> ans[i].Valid()
  }

  /** The owner name as emitted: a pointer to the question if it is the name asked for. */
  function OwnerBytes(a: Answer, qname: seq<byte>): Option<seq<byte>> {
    if NameEq(a.owner, qname) then Some([0xC0, 0x0C]) else WireName(a.owner)
  }

  function DataBytes(a: Answer): Option<seq<byte>> {
    match a.data
    case AData(x) => Some(x)
    case AaaaData(x) => Some(x)
    case CNameData(n) => WireName(n)
    case OtherData(_) => None
  }

  /** Type, class, TTL and data length. */
  function FixedBytes(a: Answer, rdlength: nat): (r: seq<byte>)
    ensures |r| == 10
  {
    Wr16(a.Type()) + Wr16(CLASS_IN) + Wr32(a.ttl) + Wr16(rdlength)
  }

  /** A whole record on the wire, if its names can be encoded. */
  function AnswerBytes(a: Answer, qname: seq<byte>): Option<seq<byte>> {
    var o, d := OwnerBytes(a, qname), DataBytes(a);
    if o.None? || d.None? then None else Some(o.value + FixedBytes(a, |d.value|) + d.value)
  }

  datatype Emission = Emission(bytes: seq<byte>, kept: seq<Answer>, truncated: bool)

  datatype Fate = Full | Skip | Keep(bytes: seq<byte>)

  /** What becomes of one answer: the section ends at it, it is passed over, or it is
      emitted.  The type is looked at only after owner and fixed part have fitted. */
  function FateOf(a: Answer, qname: seq<byte>, room: nat): (f: Fate)
    ensures f.Keep? ==> a.Supported() && AnswerBytes(a, qname) == Some(f.bytes) && |f.bytes| <= room
    ensures f.Skip? ==> !a.Supported()
  {
    var o, b := OwnerBytes(a, qname), AnswerBytes(a, qname);
    if o.None? || |o.value| + 10 > room then Full
    else if !a.Supported() then Skip
    else if b.None? || |b.value| > room then Full
    else Keep(b.value)
  }

  /** The greedy answer section: answers in order while they fit `room`. */
  function Emit(ans: seq<Answer>, qname: seq<byte>, room: nat): (e: Emission)
    ensures |e.bytes| <= room && (e.kept == [] ==> e.bytes == [])
  {
    if ans == [] then Emission([], [], false)
    else
      match FateOf(ans[0], qname, room)
      case Full => Emission([], [], true)
      case Skip => Emit(ans[1..], qname, room)
      case Keep(b) =>
        var rest := Emit(ans[1..], qname, room - |b|);
        Emission(b + rest.bytes, [ans[0]] + rest.kept, rest.truncated)
  }

  // ---------------------------------------------------------------- response

  /** An OPT record without options: payload size and the 32 bits of the TTL field. */
  datatype Opt = Opt(payload: nat, ttl: nat)

  function OptRecord(o: Opt): (r: seq<byte>)
    ensures |r| == OPT_RR_LEN
  {
    [0] + Wr16(TYPE_OPT) + Wr16(o.payload) + Wr32(o.ttl) + Wr16(0)
  }

  /** The server's own. */
  function OptBytes(dnssecOk: bool): (r: seq<byte>)
    ensures |r| == OPT_RR_LEN
  {
    OptRecord(Opt(EDNS_OUR_PAYLOAD, if dnssecOk then 0x8000 else 0))
  }

  /** The size a response may take: `cap` over TCP; over UDP 512, or with an OPT the
      client's payload clamped to 512..1232. */
  function Limit(q: QueryInfo, udp: bool, cap: nat): nat {
    if !udp then cap
    else
      var wire := if q.edns.None? then CLASSIC_UDP_LIMIT
                  else
                    var theirs :=
                      if q.edns.value.payload < EDNS_MIN_PAYLOAD then EDNS_MIN_PAYLOAD else q.edns.value.payload;
                    if theirs < EDNS_OUR_PAYLOAD then theirs else EDNS_OUR_PAYLOAD;
      if wire > cap then cap else wire
  }

  /** Where answers must stop so that the OPT record still fits. */
  function AnswerLimit(q: QueryInfo, udp: bool, cap: nat): nat {
    var limit := Limit(q, udp, cap);
    if q.edns.None? then limit
    else if limit > OPT_RR_LEN then limit - OPT_RR_LEN
    else HDR_LEN + q.rawLen
  }

  function Flags(q: QueryInfo, truncated: bool, rcode: int): nat {
    0x8080 + (if q.recursionDesired then 0x100 else 0) + (if truncated then 0x200 else 0) + rcode % 16
  }

  function HeaderBytes(q: QueryInfo, truncated: bool, rcode: int, emitted: nat, opt: bool): (r: seq<byte>)
    ensures |r| == HDR_LEN
  {
    Wr16(q.hdr.id) + Wr16(Flags(q, truncated, rcode)) + Wr16(1) + Wr16(emitted) + Wr16(0) + Wr16(if opt then 1 else 0)
  }

  /** The answers the builder starts from: none unless the rcode is NOERROR. */
  function Offered(ans: seq<Answer>, rcode: int): seq<Answer> {
    if rcode == 0 then ans else []
  }

  /** The answer section of a response, given where answers must stop. */
  function Section(q: QueryInfo, ans: seq<Answer>, rcode: int, answerLimit: nat): Emission
    requires HDR_LEN + q.rawLen <= answerLimit
  {
    Emit(Offered(ans, rcode), q.name, answerLimit - HDR_LEN - q.rawLen)
  }

  /** Whether the OPT record is echoed: the query had one and it still fits. */
  predicate EchoesOpt(q: QueryInfo, sectionLen: nat, limit: nat) {
    q.edns.Some? && HDR_LEN + q.rawLen + sectionLen + OPT_RR_LEN <= limit
  }

  /** The whole response of dns_build_response. */
  function Response(query: seq<byte>, q: QueryInfo, ans: seq<Answer>, rcode: int, udp: bool, cap: nat): seq<byte>
    requires HDR_LEN + q.rawLen <= |query| && HDR_LEN + q.rawLen <= AnswerLimit(q, udp, cap)
  {
    var e := Section(q, ans, rcode, AnswerLimit(q, udp, cap));
    var opt := EchoesOpt(q, |e.bytes|, Limit(q, udp, cap));
    HeaderBytes(q, e.truncated, rcode, |e.kept|, opt)
    + query[HDR_LEN..HDR_LEN + q.rawLen]
    + e.bytes
    + if opt then OptBytes(q.edns.value.dnssecOk) else []
  }

  /** What QuestionIsShort gives for every accepted query. */
  predicate ShortQuestion(q: QueryInfo) {
    5 <= q.rawLen <= 262
  }

  /** The subtraction `ans_cap - o` never wraps, over either transport. */
  lemma QuestionFits(q: QueryInfo, udp: bool, cap: nat)
    requires ShortQuestion(q) && cap >= 512
    ensures HDR_LEN + q.rawLen <= AnswerLimit(q, udp, cap) <= Limit(q, udp, cap) <= cap
  {
  }

  /** Everything a builder that is given `cap` bytes can rely on for an accepted query:
      the subtraction `ans_cap - o` never wraps, the response stays within its limit,
      and it carries an OPT record exactly when the query did. */
  lemma ResponseFits(query: seq<byte>, q: QueryInfo, ans: seq<Answer>, rcode: int, udp: bool, cap: nat)
    requires ParseQuery(query) == Some(q) && cap >= 512
    ensures ShortQuestion(q) && HDR_LEN + q.rawLen <= |query|
    ensures HDR_LEN + q.rawLen <= AnswerLimit(q, udp, cap) <= Limit(q, udp, cap) <= cap
    ensures |Response(query, q, ans, rcode, udp, cap)| <= Limit(q, udp, cap)
    ensures EchoesOpt(q, |Section(q, ans, rcode, AnswerLimit(q, udp, cap)).bytes|, Limit(q, udp, cap)) <==> q.edns.Some?
    ensures udp ==> |Response(query, q, ans, rcode, udp, cap)| <= ClientLimit(q)
  {
    QuestionIsShort(query);
  }

  /** What the client is ready for over UDP: 512 bytes, or with an OPT record what it says
      there, read as at least 512 and used up to 1232. */
  function ClientLimit(q: QueryInfo): nat {
    if q.edns.Some? && q.edns.value.payload > 512 then Min(q.edns.value.payload, 1232) else 512
  }

  /** The room for answers: all of that over UDP, or the whole buffer over TCP, less header,
      question and, if there is to be one, the eleven bytes of an OPT record. */
  lemma RoomExactly(q: QueryInfo, udp: bool, cap: nat)
    requires ShortQuestion(q) && cap >= 512
    ensures AnswerLimit(q, udp, cap) ==
            (if udp then Min(ClientLimit(q), cap) else cap) - if q.edns.Some? then 11 else 0
  {
  }

  // ---------------------------------------------------------------- truncation

  /** The answers of the three supported types, in order. */
  function SupportedOf(ans: seq<Answer>): seq<Answer> {
    if ans == [] then []
    else
      match ans[0].data
      case OtherData(_) => SupportedOf(ans[1..])
      case _ => [ans[0]] + SupportedOf(ans[1..])
  }

  /** What is kept is always a front part of the supported answers; without the TC flag
      it is all of them. */
  lemma {:induction false} KeptIsPrefix(ans: seq<Answer>, qname: seq<byte>, room: nat)
    ensures Emit(ans, qname, room).kept <= SupportedOf(ans)
    ensures !Emit(ans, qname, room).truncated ==> Emit(ans, qname, room).kept == SupportedOf(ans)
    decreases |ans|
  {
    hide OwnerBytes, AnswerBytes;
    if ans != [] {
      match FateOf(ans[0], qname, room)
      case Full =>
      case Skip => KeptIsPrefix(ans[1..], qname, room);
      case Keep(b) => KeptIsPrefix(ans[1..], qname, room - |b|);
    }
  }

  /** More room never changes what was already emitted: the smaller section is a front
      part of the larger one, in bytes and in records. */
  lemma {:induction false} EmitMonotone(ans: seq<Answer>, qname: seq<byte>, small: nat, large: nat)
    requires small <= large
    ensures Emit(ans, qname, small).bytes <= Emit(ans, qname, large).bytes
    ensures Emit(ans, qname, small).kept <= Emit(ans, qname, large).kept
    ensures Emit(ans, qname, large).truncated ==> Emit(ans, qname, small).truncated
    decreases |ans|
  {
    hide OwnerBytes, AnswerBytes;
    if ans != [] {
      match FateOf(ans[0], qname, small)
      case Full =>
      case Skip =>
        EmitMonotone(ans[1..], qname, small, large);
      case Keep(b) =>
        var x, y := Emit(ans[1..], qname, small - |b|), Emit(ans[1..], qname, large - |b|);
        EmitMonotone(ans[1..], qname, small - |b|, large - |b|);
        PrefixCons(b, x.bytes, y.bytes);
        PrefixCons([ans[0]], x.kept, y.kept);
    }
  }

  predicate Encodable(a: Answer, qname: seq<byte>) {
    OwnerBytes(a, qname).Some? && (a.Supported() ==> DataBytes(a).Some?)
  }

  /** A record whose names can be encoded takes at most 522 bytes, so a section with
      room for that many per answer is never truncated. */
  lemma {:induction false} RoomyIsComplete(ans: seq<Answer>, qname: seq<byte>, room: nat)
    requires AllValid(ans) && forall i :: 0 <= i < |ans| ==> Encodable(ans[i], qname)
    requires 522 * |ans| <= room
    ensures !Emit(ans, qname, room).truncated
    decreases |ans|
  {
    if ans != [] {
      var a := ans[0];
      assert a.Valid() && Encodable(a, qname);
      assert |OwnerBytes(a, qname).value| <= 256;
      if a.Supported() {
        assert |DataBytes(a).value| <= 256;
        RoomyIsComplete(ans[1..], qname, room - |AnswerBytes(a, qname).value|);
      } else {
        RoomyIsComplete(ans[1..], qname, room);
      }
    }
  }

  /** What a section says of the answers it was built from: with rcode 0 a front part of the
      supported ones, all of them unless truncated; with any other code nothing at all. */
  predicate Says(e: Emission, ans: seq<Answer>, rcode: int) {
    if rcode == 0 then e.kept <= SupportedOf(ans) && (!e.truncated ==> e.kept == SupportedOf(ans))
    else e.kept == [] && e.bytes == [] && !e.truncated
  }

  lemma SectionSays(q: QueryInfo, ans: seq<Answer>, rcode: int, answerLimit: nat)
    requires HDR_LEN + q.rawLen <= answerLimit
    ensures Says(Section(q, ans, rcode, answerLimit), ans, rcode)
  {
    hide SupportedOf, FateOf;
    KeptIsPrefix(ans, q.name, answerLimit - HDR_LEN - q.rawLen);
  }

  /** This answer ends the section: its owner name cannot be written or does not leave room for
      the ten bytes behind it, or it is of a supported type and the record as a whole cannot be
      written or does not fit. */
  predicate NoRoomFor(a: Answer, qname: seq<byte>, room: nat) {
    || OwnerBytes(a, qname).None? || |OwnerBytes(a, qname).value| + 10 > room
    || (!a.data.OtherData? && (AnswerBytes(a, qname).None? || |AnswerBytes(a, qname).value| > room))
  }

  /** The section stops at answer i: everything supported before it is there, and it has no
      room in what that left. */
  predicate StopsAt(ans: seq<Answer>, e: Emission, qname: seq<byte>, room: nat, i: nat) {
    && i < |ans| && |e.bytes| <= room
    && e.kept == SupportedOf(ans[..i]) && NoRoomFor(ans[i], qname, room - |e.bytes|)
  }

  lemma SupportedStep(ans: seq<Answer>, i: nat)
    requires 0 < i <= |ans|
    ensures SupportedOf(ans[..i]) == (if ans[0].Supported() then [ans[0]] else []) + SupportedOf(ans[1..][..i - 1])
  {
    assert ans[..i][0] == ans[0] && ans[..i][1..] == ans[1..][..i - 1];
  }

  /** Greedy and no more: an answer section is truncated if and only if it stops at some
      answer. */
  lemma {:induction false} TruncatedExactly(ans: seq<Answer>, qname: seq<byte>, room: nat)
    ensures var e := Emit(ans, qname, room);
            e.truncated <==> exists i :: 0 <= i < |ans| && StopsAt(ans, e, qname, room, i)
    decreases |ans|
  {
    hide OwnerBytes, AnswerBytes, StopsAt;
    var e := Emit(ans, qname, room);
    if ans != [] {
      var a, rest := ans[0], ans[1..];
      match FateOf(a, qname, room)
      case Full => StopsAtOnce(ans, e, qname, room);
      case Skip =>
        TruncatedExactly(rest, qname, room);
        forall i | 0 <= i <= |rest|
          ensures StopsAt(ans, e, qname, room, i) <==> i > 0 && StopsAt(rest, e, qname, room, i - 1)
        {
          SkippedFurther(ans, e, qname, room, i);
        }
        if i :| 0 <= i < |rest| && StopsAt(rest, e, qname, room, i) { assert StopsAt(ans, e, qname, room, i + 1); }
      case Keep(b) =>
        var left := room - |b|;
        var f := Emit(rest, qname, left);
        TruncatedExactly(rest, qname, left);
        forall i | 0 <= i <= |rest|
          ensures StopsAt(ans, e, qname, room, i) <==> i > 0 && StopsAt(rest, f, qname, left, i - 1)
        {
          KeptFurther(ans, b, f, qname, room, i);
        }
        if i :| 0 <= i < |rest| && StopsAt(rest, f, qname, left, i) { assert StopsAt(ans, e, qname, room, i + 1); }
    }
  }

  lemma StopsAtOnce(ans: seq<Answer>, e: Emission, qname: seq<byte>, room: nat)
    requires ans != [] && e == Emission([], [], true) && FateOf(ans[0], qname, room).Full?
    ensures StopsAt(ans, e, qname, room, 0)
  {
    hide OwnerBytes, AnswerBytes;
    assert ans[..0] == [];
  }

  lemma SkippedFurther(ans: seq<Answer>, e: Emission, qname: seq<byte>, room: nat, i: nat)
    requires ans != [] && i < |ans| && FateOf(ans[0], qname, room).Skip? && (e.kept == [] ==> e.bytes == [])
    ensures StopsAt(ans, e, qname, room, i) <==> i > 0 && StopsAt(ans[1..], e, qname, room, i - 1)
  {
    hide OwnerBytes, AnswerBytes, SupportedOf;
    if i > 0 {
      SupportedStep(ans, i);
      assert [] + SupportedOf(ans[1..][..i - 1]) == SupportedOf(ans[1..][..i - 1]);
    } else {
      assert SupportedOf(ans[..0]) == [] by { NoneSupported(); }
    }
  }

  lemma KeptFurther(ans: seq<Answer>, b: seq<byte>, f: Emission, qname: seq<byte>, room: nat, i: nat)
    requires ans != [] && i < |ans| && FateOf(ans[0], qname, room) == Keep(b)
    ensures StopsAt(ans, Emission(b + f.bytes, [ans[0]] + f.kept, f.truncated), qname, room, i) <==>
            i > 0 && StopsAt(ans[1..], f, qname, room - |b|, i - 1)
  {
    hide OwnerBytes, AnswerBytes, SupportedOf, NoRoomFor;
    if i > 0 {
      SupportedStep(ans, i);
      var rest := SupportedOf(ans[1..][..i - 1]);
      assert ([ans[0]] + f.kept)[1..] == f.kept && ([ans[0]] + rest)[1..] == rest;
    } else {
      assert SupportedOf(ans[..0]) == [] by { NoneSupported(); }
    }
  }

  lemma NoneSupported()
    ensures SupportedOf([]) == []
  {
  }

  /** UDP against TCP for one query: the UDP answers are a front part of the TCP ones,
      in bytes and in records, and a clear TC flag means every supported answer is there. */
  lemma TruncationIsMonotone(q: QueryInfo, ans: seq<Answer>, rcode: int, udpCap: nat, tcpCap: nat)
    requires ShortQuestion(q) && 512 <= udpCap <= tcpCap
    ensures HDR_LEN + q.rawLen <= AnswerLimit(q, true, udpCap) <= AnswerLimit(q, false, tcpCap)
    ensures var u := Section(q, ans, rcode, AnswerLimit(q, true, udpCap));
            var t := Section(q, ans, rcode, AnswerLimit(q, false, tcpCap));
            && u.bytes <= t.bytes && u.kept <= t.kept && (t.truncated ==> u.truncated)
            && Says(u, ans, rcode) && Says(t, ans, rcode)
  {
    hide Emit, SupportedOf;
    var ru := AnswerLimit(q, true, udpCap) - HDR_LEN - q.rawLen;
    var rt := AnswerLimit(q, false, tcpCap) - HDR_LEN - q.rawLen;
    EmitMonotone(Offered(ans, rcode), q.name, ru, rt);
    SectionSays(q, ans, rcode, AnswerLimit(q, true, udpCap));
    SectionSays(q, ans, rcode, AnswerLimit(q, false, tcpCap));
  }

  /** Over TCP, with the at most eight answers a resolution yields and names that can be
      encoded, nothing is ever truncated. */
  lemma TcpNeverTruncates(q: QueryInfo, ans: seq<Answer>, rcode: int, cap: nat)
    requires ShortQuestion(q) && cap >= 65535
    requires AllValid(ans) && |ans| <= 8
    requires forall i :: 0 <= i < |ans| ==> Encodable(ans[i], q.name)
    ensures HDR_LEN + q.rawLen <= AnswerLimit(q, false, cap)
    ensures var t := Section(q, ans, rcode, AnswerLimit(q, false, cap));
            !t.truncated && t.kept == if rcode == 0 then SupportedOf(ans) else []
  {
    hide Emit, SupportedOf, Encodable, Answer.Valid;
    SectionSays(q, ans, rcode, AnswerLimit(q, false, cap));
    if rcode == 0 { RoomyIsComplete(ans, q.name, AnswerLimit(q, false, cap) - HDR_LEN - q.rawLen); }
  }
}
