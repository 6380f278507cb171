/** Queries: dns_build_query, and what dns_parse_query reads from any query. */
module QueryBuilder {
  import opened Names
  import opened Buffers
  import opened NameCodec
  import opened Wire
  import opened WireRoundTrip

  /** One question, and perhaps an OPT record behind it. */
  datatype Query = Query(id: nat, flags: nat, name: seq<byte>, qtype: nat, qclass: nat, opt: Option<Opt>) {
    predicate Valid() {
      && id < 65536 && flags < 65536 && qtype < 65536 && qclass < 65536
      && (opt.Some? ==> opt.value.payload < 65536 && opt.value.ttl < 0x1_0000_0000)
    }
  }

  function QueryHeader(q: Query): (r: seq<byte>)
    ensures |r| == HDR_LEN
  {
    Wr16(q.id) + Wr16(q.flags) + Wr16(1) + Wr16(0) + Wr16(0) + Wr16(if q.opt.Some? then 1 else 0)
  }

  /** The query on the wire. */
  function QueryBytes(q: Query): seq<byte>
    requires WireName(q.name).Some?
  {
    QueryHeader(q) + WireName(q.name).value + (Wr16(q.qtype) + Wr16(q.qclass))
    + if q.opt.Some? then OptRecord(q.opt.value) else []
  }

  // ---------------------------------------------------------------- building

  /** What dns_build_query is asked for. */
  function Asking(id: nat, name: seq<byte>, qtype: nat, rd: bool, payload: nat): Query {
    Query(id, if rd then 0x100 else 0, name, qtype, CLASS_IN, if payload == 0 then None else Some(Opt(payload, 0)))
  }

  /** dns_build_query: fails exactly when the name cannot be encoded or the query does not fit;
      otherwise the buffer holds the query that was asked for. */
  method BuildQuery(id: nat, name: seq<byte>, qtype: nat, rd: bool, payload: nat, out: Buffer) returns (ok: bool)
    requires out.Valid() && out.len == 0
    modifies out`len, out.data
    ensures out.Valid()
    ensures var q := Asking(id, name, qtype, rd, payload);
            && (ok <==> WireName(name).Some? && |QueryBytes(q)| <= out.data.Length)
            && (ok ==> out.Contents() == QueryBytes(q))
  {
    hide WireName;
    ghost var q := Asking(id, name, qtype, rd, payload);
    var cap := out.data.Length;
    if cap < HDR_LEN { return false; }
    var flags, records := if rd then 0x100 else 0, if payload != 0 then 1 else 0;
    out.Put(Wr16(id) + Wr16(flags) + Wr16(1) + Wr16(0) + Wr16(0) + Wr16(records));
    assert out.Contents() == QueryHeader(q);
    ok := EncodeName(name, out, cap - HDR_LEN);
    if !ok || out.len + 4 > cap { return false; }
    out.Put(Wr16(qtype) + Wr16(CLASS_IN));
    if payload != 0 {
      if out.len + OPT_RR_LEN > cap { return false; }
      out.Put(OptRecord(Opt(payload, 0)));
    }
    return true;
  }

  // ---------------------------------------------------------------- reading

  /** What is read: the id, the name in lower case without trailing dot, type, class, the
      recursion bit, and of an OPT record the payload size, version and DO bit. */
  function ReadQuery(q: Query): QueryInfo
    requires WireName(q.name).Some?
  {
    QueryInfo(Header(q.id, q.flags, 1, 0, 0, if q.opt.Some? then 1 else 0), CString(Canonical(q.name)),
              q.qtype, q.qclass, |WireName(q.name).value| + 4, q.flags / 256 % 2 == 1,
              if q.opt.None? then None
              else Some(Edns(q.opt.value.payload, q.opt.value.ttl / 0x1_0000 % 256, q.opt.value.ttl / 0x8000 % 2 == 1)))
  }

  lemma QueryHeaderReads(msg: seq<byte>, q: Query)
    requires q.Valid() && At(msg, 0, QueryHeader(q))
    ensures ParseHeader(msg) == Some(Header(q.id, q.flags, 1, 0, 0, if q.opt.Some? then 1 else 0))
  {
    var a, b, c, d, e := Wr16(q.id), Wr16(q.flags), Wr16(1), Wr16(0), Wr16(0);
    var n: nat := if q.opt.Some? then 1 else 0;
    AtSplit(msg, 0, a + b + c + d + e, Wr16(n));
    AtSplit(msg, 0, a + b + c + d, e);
    AtSplit(msg, 0, a + b + c, d);
    AtSplit(msg, 0, a + b, c);
    AtSplit(msg, 0, a, b);
    Rd16OfWr16(msg, 0, q.id);
    Rd16OfWr16(msg, 2, q.flags);
    Rd16OfWr16(msg, 4, 1);
    Rd16OfWr16(msg, 6, 0);
    Rd16OfWr16(msg, 8, 0);
    Rd16OfWr16(msg, 10, n);
  }

  /** Any message is taken for a query if and only if it has a header with QR and opcode clear
      and one question, and that question can be read; and an OPT record is seen in it if and
      only if the first additional record is one, owned by the root. */
  lemma AcceptedExactly(msg: seq<byte>)
    ensures ParseQuery(msg).Some? <==>
            |msg| >= 12 && msg[2] < 8 && Rd16(msg, 4) == 1 && SkipQuestion(msg, 12).Some?
    ensures ParseQuery(msg).Some? ==>
              var q := ParseQuery(msg).value;
              var first := ParseRR(msg, 12 + q.rawLen);
              && SkipQuestion(msg, 12) == Some(12 + q.rawLen)
              && (q.edns.Some? <==>
                  Rd16(msg, 10) >= 1 && first.Some? && first.value.rr.rtype == 41 && first.value.rr.name == [])
  {
    hide Decode, ParseRR, CString;
    if |msg| >= 12 { FlagBits(msg[2], msg[3]); }
    if Decode(msg, 12, 256).Some? { DecodeBounds(msg, 12); }
  }

  lemma FlagBits(hi: byte, lo: byte)
    ensures var flags := hi * 256 + lo; !IsResponse(flags) && Opcode(flags) == 0 <==> hi < 8
  {
  }

  /** The parts of the query, each at its place. */
  lemma QueryParts(q: Query)
    requires WireName(q.name).Some?
    ensures var msg, n := QueryBytes(q), |WireName(q.name).value|;
            && At(msg, 0, QueryHeader(q)) && At(msg, 12, WireName(q.name).value)
            && At(msg, 12 + n, Wr16(q.qtype)) && At(msg, 14 + n, Wr16(q.qclass))
            && (q.opt.Some? ==> At(msg, 16 + n, OptRecord(q.opt.value)))
            && |msg| == 16 + n + if q.opt.Some? then 11 else 0
  {
    hide WireName, QueryHeader, OptRecord;
    var msg, h, w := QueryBytes(q), QueryHeader(q), WireName(q.name).value;
    var t, c := Wr16(q.qtype), Wr16(q.qclass);
    var o := if q.opt.Some? then OptRecord(q.opt.value) else [];
    assert At(msg, 0, h + w + (t + c) + o);
    AtSplit(msg, 0, h + w + (t + c), o);
    AtSplit(msg, 0, h + w, t + c);
    AtSplit(msg, 0, h, w);
    AtSplit(msg, 12 + |w|, t, c);
  }

  /** Printing then parsing queries: every query with an encodable name is accepted if its QR
      and opcode bits are clear, and read as what it is. */
  lemma QueryReadsBack(q: Query)
    requires q.Valid() && WireName(q.name).Some? && q.flags / 0x800 == 0
    ensures ParseQuery(QueryBytes(q)) == Some(ReadQuery(q))
  {
    hide WireName, Decode, ParseRR, At, CString, Canonical, QueryHeader, OptRecord;
    var msg, n := QueryBytes(q), |WireName(q.name).value|;
    QueryParts(q);
    QueryHeaderReads(msg, q);
    RoundTrip(msg, 12, q.name);
    Rd16OfWr16(msg, 12 + n, q.qtype);
    Rd16OfWr16(msg, 14 + n, q.qclass);
    if q.opt.Some? { OptRecordReads(msg, 16 + n, q.opt.value); }
  }

  /** ... and refused otherwise. */
  lemma OthersAreRefused(q: Query)
    requires q.Valid() && WireName(q.name).Some? && q.flags / 0x800 != 0
    ensures ParseQuery(QueryBytes(q)).None?
  {
    hide WireName, Decode, ParseRR, QueryHeader, OptRecord, At;
    QueryParts(q);
    QueryHeaderReads(QueryBytes(q), q);
  }

  /** Its question can be echoed and pointed at. */
  lemma QueryIsOwn(q: Query)
    requires q.Valid() && WireName(q.name).Some? && q.flags / 0x800 == 0
    ensures OwnQuestion(QueryBytes(q), ReadQuery(q))
  {
    hide OwnQuestion, ParseQuery, At, QueryHeader, OptRecord;
    QueryReadsBack(q);
    QueryParts(q);
    PlainIsOwn(QueryBytes(q), ReadQuery(q), Labels(Trim(q.name)));
  }
}
