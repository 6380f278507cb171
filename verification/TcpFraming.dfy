/** DNS over a TCP stream: two-byte length prefixes (section 4.2.2 of RFC 1035, RFC 7766),
    short reads and short writes. */
module TcpFraming {
  import opened Names
  import opened Wire

  const DNS_MAX_TCP_MSG_LEN := 65535

  type Bytes = seq<byte>

  /** The reply to the k-th query of a connection, if there is one; a reply the listener
      may send is neither empty nor too long for its prefix. */
  type Resolver = (nat, Bytes) -> Option<Bytes>

  predicate Sendable(r: Option<Bytes>) {
    r.Some? && 0 < |r.value| <= DNS_MAX_TCP_MSG_LEN
  }

  function Framed(msg: Bytes): Bytes {
    Wr16(|msg|) + msg
  }

  /** The messages of a whole stream: an incomplete or empty message ends it. */
  function Messages(stream: Bytes): (r: seq<Bytes>)
    decreases |stream|
  {
    if |stream| < 2 || Rd16(stream, 0) == 0 || |stream| < 2 + Rd16(stream, 0) then []
    else [stream[2..2 + Rd16(stream, 0)]] + Messages(stream[2 + Rd16(stream, 0)..])
  }

  /** What should leave for queries k, k+1, ...: the framed replies, in request order. */
  function Replies(msgs: seq<Bytes>, k: nat, answer: Resolver): Bytes
    decreases |msgs|
  {
    if msgs == [] then []
    else
      var first := if Sendable(answer(k, msgs[0])) then Framed(answer(k, msgs[0]).value) else [];
      first + Replies(msgs[1..], k + 1, answer)
  }

  /** The replies there are: those a two-byte length can tell. */
  function Answered(msgs: seq<Bytes>, k: nat, answer: Resolver): seq<Bytes>
    decreases |msgs|
  {
    if msgs == [] then []
    else
      var r := answer(k, msgs[0]);
      (if r.Some? && 0 < |r.value| <= 65535 then [r.value] else []) + Answered(msgs[1..], k + 1, answer)
  }

  /** A connected socket: what the peer has yet to deliver before it closes, times out or
      fails, how much more it will take, and how recv and send happen to cut the stream. */
  class Stream {
    var input: Bytes
    var output: Bytes
    var room: nat
    var calls: nat
    const cuts: nat -> nat

    constructor (input: Bytes, room: nat, cuts: nat -> nat)
      ensures this.input == input && this.room == room && output == []
    {
      this.input, this.room, output, calls := input, room, [], 0;
      this.cuts := cuts;
    }

    /** recv(): nothing at the end, else at least one byte. */
    method Recv(n: nat) returns (got: Bytes)
      requires n > 0
      modifies this`input, this`calls
      ensures |got| <= n && old(input) == got + input
      ensures got == [] <==> old(input) == []
    {
      var most := if n < |input| then n else |input|;
      var size := if input == [] then 0 else 1 + cuts(calls) % most;
      got := input[..size];
      input := input[size..];
      calls := calls + 1;
    }

    /** send(): an error once the peer takes no more, else at least one byte. */
    method Send(bs: Bytes) returns (sent: int)
      requires bs != []
      modifies this`output, this`room, this`calls
      ensures if old(room) == 0 then sent == -1 && output == old(output) && room == 0
              else
                && 0 < sent <= |bs| && sent <= old(room)
                && output == old(output) + bs[..sent] && room == old(room) - sent
    {
      if room == 0 { return -1; }
      var most := if room < |bs| then room else |bs|;
      sent := 1 + cuts(calls) % most;
      output := output + bs[..sent];
      room := room - sent;
      calls := calls + 1;
    }

    /** read_full: n bytes whatever the segments, or failure exactly when the stream ends first. */
    method ReadFull(n: nat) returns (ok: bool, buf: Bytes)
      modifies this`input, this`calls
      ensures ok <==> n <= |old(input)|
      ensures if ok then buf == old(input)[..n] && input == old(input)[n..] else input == []
    {
      buf := [];
      while |buf| < n
        invariant |buf| <= n && old(input) == buf + input
        decreases n - |buf|
      {
        var got := Recv(n - |buf|);
        if got == [] { return false, buf; }
        Assoc(buf, got, input);
        buf := buf + got;
      }
      ok := true;
    }

    /** write_full: all of it, or as much as the peer takes. */
    method WriteFull(bs: Bytes) returns (ok: bool)
      modifies this`output, this`room, this`calls
      ensures ok <==> |bs| <= old(room)
      ensures output == old(output) + Cut(bs, old(room)) && room == old(room) - |Cut(bs, old(room))|
    {
      var sent := 0;
      while sent < |bs|
        invariant 0 <= sent <= |bs| && sent <= old(room) && room == old(room) - sent
        invariant output == old(output) + bs[..sent]
        decreases |bs| - sent
      {
        var w := Send(bs[sent..]);
        if w < 0 { return false; }
        assert bs[..sent] + bs[sent..][..w] == bs[..sent + w];
        Assoc(old(output), bs[..sent], bs[sent..][..w]);
        sent := sent + w;
      }
      ok := true;
    }

    /** The top of conn_main's loop: one whole message, or the end of the stream's messages. */
    method NextQuery() returns (query: Option<Bytes>)
      modifies this`input, this`calls
      ensures if query.None? then Messages(old(input)) == []
              else Messages(old(input)) == [query.value] + Messages(input) && |input| < |old(input)|
    {
      ghost var stream := input;
      var ok, prefix := ReadFull(2);
      if !ok { return None; }
      var mlen := Rd16(prefix, 0);
      if mlen == 0 { return None; }
      var whole, msg := ReadFull(mlen);
      if !whole { return None; }
      OneMessage(stream, mlen);
      return Some(msg);
    }

    /** Prefix, then reply. */
    method WriteReply(reply: Bytes) returns (ok: bool)
      modifies this`output, this`room, this`calls
      ensures ok <==> |Framed(reply)| <= old(room)
      ensures output == old(output) + Cut(Framed(reply), old(room))
              && room == old(room) - |Cut(Framed(reply), old(room))|
    {
      hide Wr16;
      ghost var room0 := room;
      var prefix := Wr16(|reply|);
      ok := WriteFull(prefix);
      if ok {
        CutAcross(prefix, reply, room0);
        Assoc(old(output), prefix, Cut(reply, room0 - 2));
        ok := WriteFull(reply);
      } else {
        assert (prefix + reply)[..room0] == prefix[..room0];
      }
    }

    /** conn_main: serves the stream until it ends, an empty length, or a failed write.
        The messages handed to the resolver and the bytes that leave do not depend on the
        cuts. */
    method Serve(answer: Resolver) returns (handed: seq<Bytes>)
      modifies this`input, this`output, this`room, this`calls
      ensures handed <= Messages(old(input))
      ensures output == old(output) + Cut(Replies(handed, 0, answer), old(room))
      ensures handed == Messages(old(input)) || |Replies(handed, 0, answer)| > old(room)
      ensures |Replies(Messages(old(input)), 0, answer)| <= old(room) ==> handed == Messages(old(input))
      ensures handed != [] ==> |Replies(handed[..|handed| - 1], 0, answer)| <= old(room)
    {
      hide Messages, Replies, Framed;
      ghost var all, room0, out0 := Messages(input), room, output;
      handed := [];
      NoReplies(answer);
      while true
        invariant all == handed + Messages(input)
        invariant |Replies(handed, 0, answer)| + room == room0
        invariant output == out0 + Replies(handed, 0, answer)
        invariant handed != [] ==> |Replies(handed[..|handed| - 1], 0, answer)| <= room0
        decreases |input|
      {
        var query := NextQuery();
        if query.None? { break; }
        ghost var before := handed;
        Assoc(handed, [query.value], Messages(input));
        RepliesGrow(handed, query.value, 0, answer);
        var r := answer(|handed|, query.value);
        handed := handed + [query.value];
        assert handed[..|handed| - 1] == before;
        if Sendable(r) {
          CutAcross(Replies(before, 0, answer), Framed(r.value), room0);
          Assoc(out0, Replies(before, 0, answer), Cut(Framed(r.value), room));
          var ok := WriteReply(r.value);
          if !ok {
            RepliesPrefix(handed, Messages(input), 0, answer);
            return;
          }
        }
      }
    }
  }

  lemma CutAcross(a: Bytes, b: Bytes, n: nat)
    requires |a| <= n
    ensures Cut(a + b, n) == a + Cut(b, n - |a|)
  {
  }

  lemma NoReplies(answer: Resolver)
    ensures Replies([], 0, answer) == []
  {
  }

  lemma {:induction false} RepliesPrefix(msgs: seq<Bytes>, more: seq<Bytes>, k: nat, answer: Resolver)
    ensures |Replies(msgs, k, answer)| <= |Replies(msgs + more, k, answer)|
    decreases |msgs|
  {
    if msgs != [] {
      assert (msgs + more)[1..] == msgs[1..] + more;
      RepliesPrefix(msgs[1..], more, k + 1, answer);
    }
  }

  lemma OneMessage(stream: Bytes, n: nat)
    requires |stream| >= 2 && n == Rd16(stream, 0) && 0 < n <= |stream| - 2
    ensures Messages(stream) == [stream[2..][..n]] + Messages(stream[2..][n..])
  {
    assert stream[2..][..n] == stream[2..2 + n];
    assert stream[2..][n..] == stream[2 + n..];
  }

  lemma {:induction false} RepliesGrow(msgs: seq<Bytes>, msg: Bytes, k: nat, answer: Resolver)
    ensures var r := answer(k + |msgs|, msg);
            Replies(msgs + [msg], k, answer) == Replies(msgs, k, answer) + (if Sendable(r) then Framed(r.value) else [])
    decreases |msgs|
  {
    if msgs != [] {
      assert (msgs + [msg])[1..] == msgs[1..] + [msg];
      RepliesGrow(msgs[1..], msg, k + 1, answer);
    }
  }

  lemma ReadPrefix(msg: Bytes, rest: Bytes)
    requires 0 < |msg| <= DNS_MAX_TCP_MSG_LEN
    ensures Messages(Framed(msg) + rest) == [msg] + Messages(rest)
  {
    var stream := Framed(msg) + rest;
    assert stream[0] == Wr16(|msg|)[0] && stream[1] == Wr16(|msg|)[1];
    assert stream[2..][..|msg|] == msg && stream[2..][|msg|..] == rest;
    OneMessage(stream, |msg|);
  }

  /** What leaves is itself correctly framed: a peer that reads it the same way gets the
      replies to the answered queries, in request order. */
  lemma {:induction false} RepliesReadBack(msgs: seq<Bytes>, k: nat, answer: Resolver)
    ensures Messages(Replies(msgs, k, answer)) == Answered(msgs, k, answer)
    decreases |msgs|
  {
    if msgs != [] {
      var r := answer(k, msgs[0]);
      RepliesReadBack(msgs[1..], k + 1, answer);
      if Sendable(r) {
        ReadPrefix(r.value, Replies(msgs[1..], k + 1, answer));
      } else {
        assert Replies(msgs, k, answer) == Replies(msgs[1..], k + 1, answer);
      }
    }
  }

  function FramedAll(msgs: seq<Bytes>): Bytes {
    if msgs == [] then [] else Framed(msgs[0]) + FramedAll(msgs[1..])
  }

  /** Reading undoes framing, for every list of messages that can be framed; a partial
      message behind them adds nothing. */
  lemma {:induction false} MessagesReadBack(msgs: seq<Bytes>, rest: Bytes)
    requires forall i :: 0 <= i < |msgs| ==> 0 < |msgs[i]| <= 65535
    requires Messages(rest) == []
    ensures Messages(FramedAll(msgs) + rest) == msgs
    decreases |msgs|
  {
    if msgs == [] {
      assert FramedAll(msgs) + rest == rest;
    } else {
      Assoc(Framed(msgs[0]), FramedAll(msgs[1..]), rest);
      ReadPrefix(msgs[0], FramedAll(msgs[1..]) + rest);
      MessagesReadBack(msgs[1..], rest);
    }
  }
}
