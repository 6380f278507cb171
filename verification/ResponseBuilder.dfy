/** dns_build_response as it runs: a cursor over the output buffer, records given up by
    moving the cursor back, and fields filled in after the bytes behind them. */
module ResponseBuilder {
  import opened Names
  import opened Buffers
  import opened NameCodec
  import opened Wire

  datatype Outcome = NoRoom | Ignored | Written

  function OutcomeOf(f: Fate): Outcome {
    if f.Full? then NoRoom else if f.Skip? then Ignored else Written
  }

  /** What an answer adds to the message. */
  function Added(f: Fate): seq<byte> {
    if f.Keep? then f.bytes else []
  }

  /** The body of the answer loop up to the data: owner, type, class, TTL, and two bytes
      for the length that is not known yet. */
  method PutHead(a: Answer, qname: seq<byte>, out: Buffer, limit: nat) returns (ok: bool)
    requires out.Valid() && out.len <= limit <= out.data.Length
    modifies out`len, out.data
    ensures out.Valid() && out.len <= limit
    ensures var o := OwnerBytes(a, qname);
            ok <==> o.Some? && |o.value| + 10 <= limit - old(out.len)
    ensures ok ==> out.Contents() == old(out.Contents()) + (OwnerBytes(a, qname).value + FixedBytes(a, 0))
    ensures !ok ==> out.Contents() == old(out.Contents())
  {
    hide WireName, NameEq;
    var start := out.len;
    ghost var before := out.Contents();
    var same := EqualNames(a.owner, qname);
    if same {
      if out.len + 2 > limit { return false; }
      out.Put([0xC0, 0x0C]);
    } else {
      var fits := EncodeName(a.owner, out, limit - out.len);
      if !fits { assert before + [] == before; return false; }
    }
    if out.len + 10 > limit {
      out.Rewind(start);
      return false;
    }
    ghost var o := OwnerBytes(a, qname).value;
    out.Put(Wr16(a.Type()) + Wr16(CLASS_IN) + Wr32(a.ttl));
    out.Put([0, 0]);
    assert Wr16(0) == [0, 0];
    Assoc(before, o, Wr16(a.Type()) + Wr16(CLASS_IN) + Wr32(a.ttl));
    Assoc(before, o + (Wr16(a.Type()) + Wr16(CLASS_IN) + Wr32(a.ttl)), [0, 0]);
    Assoc(o, Wr16(a.Type()) + Wr16(CLASS_IN) + Wr32(a.ttl), [0, 0]);
    return true;
  }

  /** The data of a supported record, if it fits. */
  method PutData(a: Answer, out: Buffer, limit: nat) returns (ok: bool)
    requires out.Valid() && out.len <= limit <= out.data.Length && a.Supported() && a.Valid()
    modifies out`len, out.data
    ensures out.Valid() && out.len <= limit
    ensures var d := DataBytes(a);
            ok <==> d.Some? && |d.value| <= limit - old(out.len)
    ensures ok ==> out.Contents() == old(out.Contents()) + DataBytes(a).value
    ensures !ok ==> out.Contents() == old(out.Contents())
  {
    hide WireName;
    match a.data {
      case AData(x) =>
        if out.len + 4 > limit { return false; }
        out.Put(x);
      case AaaaData(x) =>
        if out.len + 16 > limit { return false; }
        out.Put(x);
      case CNameData(n) =>
        ghost var before := out.Contents();
        var fits := EncodeName(n, out, limit - out.len);
        if !fits { assert before + [] == before; return false; }
    }
    return true;
  }

  /** Filling in the length turns the placeholder into the record. */
  lemma {:induction false} LengthFilledIn(before: seq<byte>, o: seq<byte>, a: Answer, d: seq<byte>)
    ensures var c := before + (o + FixedBytes(a, 0)) + d;
            var at := |before| + |o| + 8;
            c[..at] + Wr16(|d|) + c[at + 2..] == before + (o + FixedBytes(a, |d|) + d)
  {
    var head := Wr16(a.Type()) + Wr16(CLASS_IN) + Wr32(a.ttl);
    var c := before + (o + FixedBytes(a, 0)) + d;
    var at := |before| + |o| + 8;
    assert FixedBytes(a, 0) == head + Wr16(0) && FixedBytes(a, |d|) == head + Wr16(|d|);
    assert c[..at] == before + (o + head);
    assert c[at + 2..] == d;
  }

  /** How owner, fixed part and data decide an answer's fate. */
  lemma FateFromParts(a: Answer, qname: seq<byte>, room: nat)
    ensures var o, d := OwnerBytes(a, qname), DataBytes(a);
            FateOf(a, qname, room) ==
            if o.None? || |o.value| + 10 > room then Full
            else if !a.Supported() then Skip
            else if d.None? || |d.value| > room - |o.value| - 10 then Full
            else Keep(o.value + FixedBytes(a, |d.value|) + d.value)
  {
    hide OwnerBytes, DataBytes, FixedBytes;
  }

  /** One turn of the answer loop: exactly the fate the specification gives it, and an
      answer that is not kept leaves no trace. */
  method PutAnswer(a: Answer, qname: seq<byte>, out: Buffer, limit: nat) returns (r: Outcome)
    requires out.Valid() && out.len <= limit <= out.data.Length && a.Valid()
    modifies out`len, out.data
    ensures out.Valid() && out.len <= limit
    ensures var f := FateOf(a, qname, limit - old(out.len));
            r == OutcomeOf(f) && out.Contents() == old(out.Contents()) + Added(f)
  {
    hide OwnerBytes, DataBytes, FixedBytes, FateOf, Answer.Valid, Wr16;
    var start := out.len;
    ghost var before := out.Contents();
    FateFromParts(a, qname, limit - start);
    var ok := PutHead(a, qname, out, limit);
    if !ok { return NoRoom; }
    ghost var o := OwnerBytes(a, qname).value;
    var data := out.len;
    if !a.Supported() {
      out.Rewind(start);
      return Ignored;
    }
    ok := PutData(a, out, limit);
    if !ok {
      out.Rewind(start);
      return NoRoom;
    }
    LengthFilledIn(before, o, a, DataBytes(a).value);
    out.Patch(data - 2, Wr16(out.len - data));
    return Written;
  }

  /** One answer's share of the section. */
  lemma {:induction false} EmitTurn(ans: seq<Answer>, i: nat, qname: seq<byte>, room: nat)
    requires i < |ans|
    ensures var e := Emit(ans[i..], qname, room);
            match FateOf(ans[i], qname, room)
            case Full => e == Emission([], [], true)
            case Skip => e == Emit(ans[i + 1..], qname, room)
            case Keep(b) =>
              var rest := Emit(ans[i + 1..], qname, room - |b|);
              e == Emission(b + rest.bytes, [ans[i]] + rest.kept, rest.truncated)
  {
    hide FateOf;
    assert ans[i..][0] == ans[i] && ans[i..][1..] == ans[i + 1..];
  }

  /** `all` is what has been emitted so far and then `rest`. */
  ghost predicate Partly(all: Emission, bytes: seq<byte>, emitted: nat, rest: Emission) {
    all.bytes == bytes + rest.bytes && |all.kept| == emitted + |rest.kept| && all.truncated == rest.truncated
  }

  lemma PartlyKept(all: Emission, bytes: seq<byte>, emitted: nat, b: seq<byte>, a: Answer, rest: Emission)
    requires Partly(all, bytes, emitted, Emission(b + rest.bytes, [a] + rest.kept, rest.truncated))
    ensures Partly(all, bytes + b, emitted + 1, rest)
  {
    Assoc(bytes, b, rest.bytes);
  }

  /** One turn of the answer loop, against the whole section. */
  lemma PartlyTurn(all: Emission, bytes: seq<byte>, emitted: nat, ans: seq<Answer>, i: nat, qname: seq<byte>, room: nat)
    requires i < |ans| && Partly(all, bytes, emitted, Emit(ans[i..], qname, room))
    ensures var f := FateOf(ans[i], qname, room);
            && |Added(f)| <= room
            && if OutcomeOf(f) == NoRoom then
                 all.bytes == bytes && |all.kept| == emitted && all.truncated && Added(f) == []
               else
                 var more := if OutcomeOf(f) == Written then 1 else 0;
                 Partly(all, bytes + Added(f), emitted + more, Emit(ans[i + 1..], qname, room - |Added(f)|))
  {
    hide FateOf, Emit, Partly;
    EmitTurn(ans, i, qname, room);
    match FateOf(ans[i], qname, room) {
      case Full => PartlyBounds(all, bytes, emitted, true);
      case Skip => assert bytes + [] == bytes;
      case Keep(b) => PartlyKept(all, bytes, emitted, b, ans[i], Emit(ans[i + 1..], qname, room - |b|));
    }
  }

  lemma PartlyBounds(all: Emission, bytes: seq<byte>, emitted: nat, truncated: bool)
    ensures Partly(all, bytes, emitted, Emission([], [], truncated)) ==>
              all.bytes == bytes && |all.kept| == emitted && all.truncated == truncated
  {
  }

  lemma ValidAt(ans: seq<Answer>, i: nat)
    requires AllValid(ans) && i < |ans|
    ensures ans[i].Valid()
  {
  }

  lemma PartlyStart(ans: seq<Answer>, qname: seq<byte>, room: nat)
    ensures Partly(Emit(ans, qname, room), [], 0, Emit(ans[0..], qname, room))
  {
    hide Emit;
    assert ans[0..] == ans;
  }

  lemma PartlyEnd(all: Emission, bytes: seq<byte>, emitted: nat, ans: seq<Answer>, qname: seq<byte>, room: nat)
    requires Partly(all, bytes, emitted, Emit(ans[|ans|..], qname, room))
    ensures all.bytes == bytes && |all.kept| == emitted && !all.truncated
  {
    assert ans[|ans|..] == [];
  }

  /** The answer loop: greedy, in order, stopping at the first answer without room. */
  method PutAnswers(ans: seq<Answer>, qname: seq<byte>, out: Buffer, limit: nat) returns (emitted: nat, truncated: bool)
    requires out.Valid() && out.len <= limit <= out.data.Length && AllValid(ans)
    modifies out`len, out.data
    ensures out.Valid() && out.len <= limit
    ensures var e := Emit(ans, qname, limit - old(out.len));
            out.Contents() == old(out.Contents()) + e.bytes && emitted == |e.kept| && truncated == e.truncated
  {
    hide FateOf, Emit, Partly, AllValid, Added, OutcomeOf;
    ghost var before, bytes := out.Contents(), [];
    ghost var all := Emit(ans, qname, limit - out.len);
    PartlyStart(ans, qname, limit - out.len);
    emitted, truncated := 0, false;
    var i := 0;
    while i < |ans|
      invariant i <= |ans| && out.Valid() && out.len <= limit
      invariant out.Contents() == before + bytes
      invariant Partly(all, bytes, emitted, Emit(ans[i..], qname, limit - out.len))
    {
      ghost var added := Added(FateOf(ans[i], qname, limit - out.len));
      PartlyTurn(all, bytes, emitted, ans, i, qname, limit - out.len);
      ValidAt(ans, i);
      Assoc(before, bytes, added);
      var r := PutAnswer(ans[i], qname, out, limit);
      bytes := bytes + added;
      if r == NoRoom { return emitted, true; }
      if r == Written { emitted := emitted + 1; }
      i := i + 1;
    }
    PartlyEnd(all, bytes, emitted, ans, qname, limit - out.len);
  }

  /** dns_build_response.  The two size tests at the top are the only failures; otherwise
      the buffer holds exactly the specified response.  The last precondition is what the
      unsigned subtraction `ans_cap - o` needs; QuestionFits gives it for every accepted
      query and every buffer of at least 512 bytes. */
  method BuildResponse(query: seq<byte>, q: QueryInfo, ans: seq<Answer>, rcode: int, udp: bool, out: Buffer)
    returns (ok: bool)
    requires out.Valid() && out.len == 0 && AllValid(ans)
    requires HDR_LEN + q.rawLen <= out.data.Length ==> HDR_LEN + q.rawLen <= AnswerLimit(q, udp, out.data.Length)
    modifies out`len, out.data
    ensures out.Valid()
    ensures ok <==> HDR_LEN + q.rawLen <= |query| && HDR_LEN + q.rawLen <= out.data.Length
    ensures ok ==> out.Contents() == Response(query, q, ans, rcode, udp, out.data.Length)
  {
    hide Emit, HeaderBytes, OptBytes, AllValid;
    var cap := out.data.Length;
    if cap < HDR_LEN || HDR_LEN + q.rawLen > |query| || HDR_LEN + q.rawLen > cap { return false; }
    var question := query[HDR_LEN..HDR_LEN + q.rawLen];
    ghost var blank := seq(HDR_LEN, _ => 0 as byte);
    out.Put(seq(HDR_LEN, _ => 0 as byte));
    out.Put(question);
    var limit, answerLimit := Limit(q, udp, cap), AnswerLimit(q, udp, cap);
    LimitsInOrder(q, udp, cap);
    var offered := Offered(ans, rcode);
    OfferedValid(ans, rcode);
    var emitted, truncated := PutAnswers(offered, q.name, out, answerLimit);
    ghost var e := Section(q, ans, rcode, answerLimit);
    var opt := q.edns.Some? && out.len + OPT_RR_LEN <= limit;
    ghost var tail := if opt then OptBytes(q.edns.value.dnssecOk) else [];
    if opt {
      out.Put(OptBytes(q.edns.value.dnssecOk));
    }
    var header := HeaderBytes(q, truncated, rcode, emitted, opt);
    ghost var c := out.Contents();
    HeaderFilledIn(c, header, question, e.bytes, tail);
    out.Patch(0, header);
    return true;
  }

  lemma LimitsInOrder(q: QueryInfo, udp: bool, cap: nat)
    requires HDR_LEN + q.rawLen <= AnswerLimit(q, udp, cap) && HDR_LEN + q.rawLen <= cap
    ensures AnswerLimit(q, udp, cap) <= cap && Limit(q, udp, cap) <= cap
  {
  }

  lemma OfferedValid(ans: seq<Answer>, rcode: int)
    requires AllValid(ans)
    ensures AllValid(Offered(ans, rcode))
  {
  }

  lemma HeaderFilledIn(c: seq<byte>, header: seq<byte>, question: seq<byte>, bytes: seq<byte>, tail: seq<byte>)
    requires |header| == HDR_LEN
    requires c == [] + seq(HDR_LEN, _ => 0 as byte) + question + bytes + tail
    ensures c[..0] + header + c[|header|..] == header + question + bytes + tail
  {
    assert c[HDR_LEN..] == question + bytes + tail;
  }
}
