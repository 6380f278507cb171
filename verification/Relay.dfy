/** One resolver reading another's response: dissect() undoes dns_build_response. */
module Relay {
  import opened Names
  import opened NameCodec
  import opened Wire
  import opened WireRoundTrip
  import opened Rescan
  import opened Dissect

  /** An answer as it is read: names in lower case and without a trailing dot. */
  function AsRead(a: Answer, qname: seq<byte>): Answer {
    Answer(ReadOwner(a, qname), a.ttl, if a.data.CNameData? then CNameData(Canonical(a.data.target)) else a.data)
  }

  lemma AnswerIsCarried(msg: seq<byte>, rr: RR, a: Answer, qname: seq<byte>)
    requires ReadsBack(msg, rr, a, qname) && a.Valid()
    ensures Carries(msg, rr, AsRead(a, qname))
  {
    hide Decode, ReadOwner, Canonical, CString;
    if a.data.CNameData? { CanonicalIsCString(a.data.target); }
  }

  lemma AnswerIsTaken(msg: seq<byte>, off: nat, n: nat, i: nat, a: Answer, qname: seq<byte>)
    requires ParseRRs(msg, off, n).Some? && i < |ParseRRs(msg, off, n).value.rrs| && a.Valid()
    requires ReadsBack(msg, ParseRRs(msg, off, n).value.rrs[i], a, qname)
    ensures ToAnswer(ToRec(msg, ParseRRs(msg, off, n).value.rrs[i])) == Some(AsRead(a, qname))
  {
    hide ParseRRs, ParseRR, ReadsBack, Carries, ToRec, ToAnswer, AsRead;
    var at := ParsedSomewhere(msg, off, n, i);
    AnswerIsCarried(msg, ParseRRs(msg, off, n).value.rrs[i], a, qname);
    TakenExactly(msg, at, []);
  }

  /** The reply as dissect reads it. */
  ghost predicate DissectsTo(msg: seq<byte>, rcode: int, kept: seq<Answer>, qname: seq<byte>) {
    && ReadReply(msg).Some?
    && var s := ReadReply(msg).value;
    && s.rcode == rcode % 16 && s.authority == [] && |s.answers| == |kept|
    && forall i :: 0 <= i < |kept| ==> ToAnswer(s.answers[i]) == Some(AsRead(kept[i], qname))
  }

  lemma {:induction false} SectionDissects(resp: seq<byte>, query: seq<byte>, q: QueryInfo, e: Emission, rcode: int)
    requires ReadsAs(resp, query, q, e, rcode) && AllValid(e.kept)
    ensures if e.truncated then ReadReply(resp).None? else DissectsTo(resp, rcode, e.kept, q.name)
  {
    hide ParseHeader, SkipQuestion, ParseRRs, ParseRR, ReadWhileGood, ToRec, ToAnswer, AsRead, ReadsBack, Flags, At;
    if !e.truncated {
      var o, n := HDR_LEN + q.rawLen, |e.kept|;
      assert SkipQuestions(resp, HDR_LEN, 1) == Some(o);
      NothingRead(resp, o + |e.bytes|);
      var rrs := ParseRRs(resp, o, n).value.rrs;
      forall i | 0 <= i < n ensures ToAnswer(ToRec(resp, rrs[i])) == Some(AsRead(e.kept[i], q.name)) {
        AnswerIsTaken(resp, o, n, i, e.kept[i], q.name);
      }
    }
  }

  /** Building then dissecting, for every accepted query whose question is read from its own
      bytes and every set of answers: a truncated response is refused, and any other yields
      the rcode and exactly the answers that were emitted. */
  lemma ResponseDissects(query: seq<byte>, q: QueryInfo, ans: seq<Answer>, rcode: int, udp: bool, cap: nat)
    requires ParseQuery(query) == Some(q) && OwnQuestion(query, q)
    requires AllValid(ans) && |ans| < 65536 && cap >= 512
    ensures HDR_LEN + q.rawLen <= |query| && HDR_LEN + q.rawLen <= AnswerLimit(q, udp, cap)
    ensures var resp := Response(query, q, ans, rcode, udp, cap);
            var e := Section(q, ans, rcode, AnswerLimit(q, udp, cap));
            && Says(e, ans, rcode)
            && if e.truncated then ReadReply(resp).None? else DissectsTo(resp, rcode, e.kept, q.name)
  {
    hide ParseQuery, OwnQuestion, Response, ReadsAs, ReadReply, DissectsTo, Section, AnswerLimit;
    ResponseReadsBack(query, q, ans, rcode, udp, cap);
    var e := Section(q, ans, rcode, AnswerLimit(q, udp, cap));
    SupportedAreValid(ans);
    assert AllValid(e.kept) by {
      assert e.kept <= SupportedOf(ans);
      assert forall i :: 0 <= i < |e.kept| ==> e.kept[i] == SupportedOf(ans)[i];
    }
    SectionDissects(Response(query, q, ans, rcode, udp, cap), query, q, e, rcode);
  }

  lemma {:induction false} SupportedAreValid(ans: seq<Answer>)
    requires AllValid(ans)
    ensures AllValid(SupportedOf(ans))
  {
    hide Answer.Valid;
    if ans != [] {
      assert forall i :: 0 <= i < |ans| - 1 ==> ans[1..][i] == ans[i + 1];
      SupportedAreValid(ans[1..]);
    }
  }

  /** Questions in a row: each a name, a type and a class. */
  function QuestionBytes(names: seq<seq<byte>>): seq<byte>
    requires forall i :: 0 <= i < |names| ==> WireName(names[i]).Some?
  {
    if names == [] then [] else (WireName(names[0]).value + [0, 1, 0, 1]) + QuestionBytes(names[1..])
  }

  /** However many questions a reply repeats, the answer section is found behind them. */
  lemma {:induction false} QuestionsAreSkipped(msg: seq<byte>, off: nat, names: seq<seq<byte>>)
    requires forall i :: 0 <= i < |names| ==> WireName(names[i]).Some?
    requires At(msg, off, QuestionBytes(names))
    ensures SkipQuestions(msg, off, |names|) == Some(off + |QuestionBytes(names)|)
    decreases |names|
  {
    hide WireName, Decode, At;
    if names != [] {
      var w := WireName(names[0]).value;
      assert forall i :: 0 <= i < |names| - 1 ==> names[1..][i] == names[i + 1];
      AtSplit(msg, off, w + [0, 1, 0, 1], QuestionBytes(names[1..]));
      AtSplit(msg, off, w, [0, 1, 0, 1]);
      RoundTrip(msg, off, names[0]);
      assert off + |w| + 4 <= |msg| by { AtInside(msg, off + |w|, [0, 1, 0, 1]); }
      QuestionsAreSkipped(msg, off + |w| + 4, names[1..]);
    }
  }

  lemma AtInside(msg: seq<byte>, off: nat, w: seq<byte>)
    requires At(msg, off, w)
    ensures off + |w| <= |msg|
  {
  }
}
