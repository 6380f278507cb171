/** The reply frame of af_xdp_user.c: Ethernet, IPv4 and UDP headers around a response,
    and the header checksum (section 3.1 of RFC 791, RFC 1071). */
module PacketFrame {
  import opened Names
  import opened Wire
  import opened Buffers

  const ETH_HLEN := 14
  const IP_HLEN := 20
  const UDP_HLEN := 8
  const HEADERS := 42
  const MAX_MSG_LEN := 1500
  const TX_BATCH_SIZE := 64
  const U32 := 0x1_0000_0000

  // ---------------------------------------------------------------- checksum

  /** The 16-bit words of a buffer as the machine loads them, an odd byte alone last. */
  function WordSum(b: seq<byte>): nat {
    if |b| == 0 then 0
    else if |b| == 1 then b[0]
    else (b[0] as int) + 256 * (b[1] as int) + WordSum(b[2..])
  }

  /** End-around carry until the sum has 16 bits. */
  function Fold(sum: nat): (r: nat)
    ensures r < 0x1_0000
    decreases sum
  {
    if sum < 0x1_0000 then sum else Fold(sum % 0x1_0000 + sum / 0x1_0000)
  }

  /** A 32-bit unsigned sum. */
  function Wrap(sum: nat): (r: nat)
    ensures r < U32
    ensures sum < U32 ==> r == sum
  {
    sum % U32
  }

  function Checksum(b: seq<byte>): (r: nat)
    ensures r < 0x1_0000
  {
    0xFFFF - Fold(Wrap(WordSum(b)))
  }

  /** ipv4_checksum: a 32-bit sum, then the carry loop. */
  method Ipv4Checksum(b: seq<byte>) returns (r: nat)
    ensures r == Checksum(b)
  {
    hide Fold, Wrap;
    var sum, i := 0, 0;
    assert b[0..] == b;
    while |b| - i > 1
      invariant 0 <= i <= |b| && 0 <= sum < U32
      invariant Wrap(WordSum(b)) == Wrap(sum + WordSum(b[i..]))
      decreases |b| - i
    {
      var w := (b[i] as int) + 256 * (b[i + 1] as int);
      WordSumStep(b, i);
      WrapAdd(sum, w, WordSum(b[i + 2..]));
      sum := Wrap(sum + w);
      i := i + 2;
    }
    if |b| - i == 1 {
      WrapAdd(sum, b[i], 0);
      assert b[i..] == [b[i]];
      sum := Wrap(sum + b[i]);
    }
    ghost var whole := sum;
    while sum >= 0x1_0000
      invariant 0 <= sum && Fold(whole) == Fold(sum)
      decreases sum
    {
      FoldStep(sum);
      sum := sum % 0x1_0000 + sum / 0x1_0000;
    }
    FoldStep(sum);
    return 0xFFFF - sum;
  }

  lemma WordSumStep(b: seq<byte>, i: nat)
    requires i + 2 <= |b|
    ensures WordSum(b[i..]) == (b[i] as int) + 256 * (b[i + 1] as int) + WordSum(b[i + 2..])
  {
    assert b[i..][2..] == b[i + 2..];
  }

  lemma WrapAdd(sum: nat, w: nat, rest: nat)
    ensures Wrap(Wrap(sum + w) + rest) == Wrap(sum + (w + rest))
  {
    var q := (sum + w) / U32;
    assert sum + w == q * U32 + (sum + w) % U32;
    ModShift((sum + w) % U32 + rest, q);
  }

  lemma {:induction false} ModShift(x: nat, q: nat)
    ensures (q * U32 + x) % U32 == x % U32
  {
    if q > 0 {
      ModShift(x, q - 1);
      assert (q * U32 + x) == ((q - 1) * U32 + x) + U32;
    }
  }

  lemma FoldStep(sum: nat)
    ensures Fold(sum) == if sum < 0x1_0000 then sum else Fold(sum % 0x1_0000 + sum / 0x1_0000)
  {
  }

  /** Folding keeps the sum modulo 65535, and never turns a non-zero sum into zero. */
  lemma {:induction false} FoldKeepsResidue(sum: nat)
    ensures Fold(sum) % 0xFFFF == sum % 0xFFFF
    ensures sum > 0 ==> Fold(sum) > 0
    decreases sum
  {
    if sum >= 0x1_0000 {
      var q, r := sum / 0x1_0000, sum % 0x1_0000;
      assert sum == q * 0xFFFF + (q + r);
      Residue(q + r, q);
      FoldKeepsResidue(r + q);
    }
  }

  lemma {:induction false} Residue(x: nat, q: nat)
    ensures (q * 0xFFFF + x) % 0xFFFF == x % 0xFFFF
  {
    if q > 0 {
      Residue(x, q - 1);
      assert q * 0xFFFF + x == ((q - 1) * 0xFFFF + x) + 0xFFFF;
    }
  }

  lemma {:induction false} WordSumBound(b: seq<byte>)
    ensures WordSum(b) <= 65535 * ((|b| + 1) / 2)
    decreases |b|
  {
    if |b| >= 2 { WordSumBound(b[2..]); }
  }

  lemma {:induction false} WordSumConcat(a: seq<byte>, b: seq<byte>)
    requires |a| % 2 == 0
    ensures WordSum(a + b) == WordSum(a) + WordSum(b)
    decreases |a|
  {
    if a == [] {
      assert a + b == b;
    } else {
      assert (a + b)[2..] == a[2..] + b;
      WordSumConcat(a[2..], b);
    }
  }

  /** A buffer around a 16-bit word stored in machine order. */
  function Around(a: seq<byte>, word: nat, b: seq<byte>): seq<byte>
    requires word < 0x1_0000
  {
    a + [word % 256, word / 256] + b
  }

  /** For a buffer that cannot overflow the 32-bit sum: storing the checksum of the buffer
      with a zero field into that field makes the recomputed checksum zero. */
  lemma SelfVerifies(a: seq<byte>, b: seq<byte>)
    requires |a| % 2 == 0 && |a| + |b| + 2 < 0x1_0000
    requires WordSum(a) + WordSum(b) > 0
    ensures Checksum(Around(a, Checksum(Around(a, 0, b)), b)) == 0
  {
    hide Fold, WordSum, Wrap, Checksum, Around;
    var s := WordSum(a) + WordSum(b);
    SumsFit(a, b);
    ChecksumAround(a, 0, b);
    var c := 0xFFFF - Fold(s);
    ChecksumAround(a, c, b);
    FoldKeepsResidue(s);
    FoldKeepsResidue(s + c);
    FullResidue(s, Fold(s), c, Fold(s + c));
  }

  lemma SumsFit(a: seq<byte>, b: seq<byte>)
    requires |a| % 2 == 0 && |a| + |b| + 2 < 0x1_0000
    ensures WordSum(a) + WordSum(b) + 0xFFFF < U32
  {
    hide WordSum;
    WordSumBound(a);
    WordSumBound(b);
  }

  lemma ChecksumAround(a: seq<byte>, word: nat, b: seq<byte>)
    requires |a| % 2 == 0 && WordSum(a) + WordSum(b) + 0xFFFF < U32 && word < 0x1_0000
    ensures Checksum(Around(a, word, b)) == 0xFFFF - Fold(WordSum(a) + WordSum(b) + word)
  {
    hide Fold, WordSum, Wrap, Around;
    WordSumAround(a, word, b);
  }

  lemma WordSumAround(a: seq<byte>, word: nat, b: seq<byte>)
    requires |a| % 2 == 0 && word < 0x1_0000
    ensures WordSum(Around(a, word, b)) == WordSum(a) + WordSum(b) + word
  {
    var field: seq<byte> := [word % 256, word / 256];
    WordSumConcat(a, field + b);
    Assoc(a, field, b);
    assert (field + b)[2..] == b;
  }

  lemma FullResidue(s: nat, f: nat, c: nat, g: nat)
    requires 0 < f < 0x1_0000 && f % 0xFFFF == s % 0xFFFF && c == 0xFFFF - f
    requires 0 < g < 0x1_0000 && g % 0xFFFF == (s + c) % 0xFFFF
    ensures g == 0xFFFF
  {
    var k := s / 0xFFFF;
    assert s == k * 0xFFFF + s % 0xFFFF;
    assert f == 0xFFFF ==> s % 0xFFFF == 0;
    assert f < 0xFFFF ==> s % 0xFFFF == f;
    assert (s + c) % 0xFFFF == 0 by {
      if f == 0xFFFF { Residue(0, k); } else { Residue(0, k + 1); assert s + c == (k + 1) * 0xFFFF + 0; }
    }
  }

  // ---------------------------------------------------------------- jobs and frames

  /** struct dns_job: what a reply needs, copied out of the query's frame. */
  datatype Job = Job(clientMac: seq<byte>, serverMac: seq<byte>, clientIp: seq<byte>, serverIp: seq<byte>,
                     clientPort: seq<byte>, tos: byte, ttl: byte, query: seq<byte>, resp: seq<byte>) {
    predicate Valid() {
      && |clientMac| == 6 && |serverMac| == 6 && |clientIp| == 4 && |serverIp| == 4 && |clientPort| == 2
      && |query| <= MAX_MSG_LEN && |resp| <= MAX_MSG_LEN
    }
  }

  /** parse_frame, except for the allocation that may fail. */
  function ParseFrame(pkt: seq<byte>): (r: Option<Job>)
    ensures r.Some? ==> r.value.Valid() && 12 <= |r.value.query| && r.value.resp == []
  {
    if |pkt| < HEADERS || pkt[12..14] != [8, 0] then None
    else
      var ihl := pkt[14] % 16 * 4;
      if pkt[14] / 16 != 4 || pkt[14] % 16 < 5 || |pkt| < ETH_HLEN + ihl + UDP_HLEN || pkt[23] != 17 then None
      else
        var udp := ETH_HLEN + ihl;
        if Rd16(pkt, udp + 2) != 53 || Rd16(pkt, udp + 4) < UDP_HLEN then None
        else
          var avail := |pkt| - udp - UDP_HLEN;
          var dns := if Rd16(pkt, udp + 4) - UDP_HLEN > avail then avail else Rd16(pkt, udp + 4) - UDP_HLEN;
          if dns < 12 || dns > MAX_MSG_LEN then None
          else Some(Job(pkt[6..12], pkt[0..6], pkt[26..30], pkt[30..34], pkt[udp..udp + 2], pkt[15], 64,
                        pkt[udp + UDP_HLEN..udp + UDP_HLEN + dns], []))
  }

  /** The IPv4 header around its checksum field. */
  function IpBefore(j: Job): (r: seq<byte>)
    ensures |r| == 10
  {
    [0x45, j.tos] + Wr16(IP_HLEN + UDP_HLEN + |j.resp|) + [0, 0, 0x40, 0, j.ttl, 17]
  }

  function IpHeader(j: Job, check: nat): seq<byte>
    requires check < 0x1_0000
  {
    Around(IpBefore(j), check, j.serverIp + j.clientIp)
  }

  function EthHeader(j: Job): seq<byte> {
    j.clientMac + j.serverMac + [8, 0]
  }

  function UdpHeader(j: Job): seq<byte> {
    [0, 53] + j.clientPort + Wr16(UDP_HLEN + |j.resp|) + [0, 0]
  }

  /** The whole reply frame, with a given checksum. */
  function Frame(j: Job, check: nat): seq<byte>
    requires check < 0x1_0000
  {
    EthHeader(j) + IpHeader(j, check) + UdpHeader(j) + j.resp
  }

  function ReplyFrame(j: Job): seq<byte> {
    Frame(j, Checksum(IpHeader(j, 0)))
  }

  lemma HeaderSizes(j: Job, check: nat)
    requires j.Valid() && check < 0x1_0000
    ensures |EthHeader(j)| == ETH_HLEN && |IpHeader(j, check)| == IP_HLEN && |UdpHeader(j)| == UDP_HLEN
  {
  }

  /** build_response_frame. */
  method BuildResponseFrame(out: Buffer, j: Job)
    requires out.Valid() && out.len == 0 && j.Valid() && out.data.Length >= HEADERS + |j.resp|
    modifies out`len, out.data
    ensures out.Valid() && out.Contents() == ReplyFrame(j)
    ensures out.len == HEADERS + |j.resp|
  {
    hide Checksum, EthHeader, IpHeader, UdpHeader, Wr16, Job.Valid;
    HeaderSizes(j, Checksum(IpHeader(j, 0)));
    out.Put(EthHeader(j));
    PutIpHeader(out, j);
    out.Put(UdpHeader(j));
    out.Put(j.resp);
  }

  /** The fields in place, the checksum last over a field that holds zero. */
  method PutIpHeader(out: Buffer, j: Job)
    requires out.Valid() && j.Valid() && out.data.Length >= out.len + IP_HLEN
    modifies out`len, out.data
    ensures out.Valid() && out.Contents() == old(out.Contents()) + IpHeader(j, Checksum(IpHeader(j, 0)))
    ensures out.len == old(out.len) + IP_HLEN
  {
    hide Checksum, IpHeader, Wr16, Job.Valid;
    ghost var before := out.Contents();
    var start := out.len;
    HeaderSizes(j, 0);
    out.Put(IpHeader(j, 0));
    var header := out.data[start..out.len];
    assert header == out.Contents()[start..] == IpHeader(j, 0);
    var check := Ipv4Checksum(header);
    HeaderSizes(j, check);
    FieldFilledIn(before, j, check);
    out.Patch(start + 10, [check % 256, check / 256]);
  }

  lemma FieldFilledIn(before: seq<byte>, j: Job, check: nat)
    requires j.Valid() && check < 0x1_0000
    ensures var c := before + IpHeader(j, 0);
            && |IpHeader(j, 0)| == IP_HLEN
            && c[..|before| + 10] + [check % 256, check / 256] + c[|before| + 12..] == before + IpHeader(j, check)
  {
    hide Wr16;
    var c := before + IpHeader(j, 0);
    assert c[..|before| + 10] == before + IpBefore(j);
    assert c[|before| + 12..] == j.serverIp + j.clientIp;
  }

  /** Recomputing the checksum over every header that is built gives zero. */
  lemma HeaderVerifies(j: Job)
    requires j.Valid()
    ensures |ReplyFrame(j)| == HEADERS + |j.resp|
    ensures Checksum(ReplyFrame(j)[ETH_HLEN..ETH_HLEN + IP_HLEN]) == 0
  {
    hide Checksum, EthHeader, UdpHeader, Around, Wr16;
    var c := Checksum(IpHeader(j, 0));
    HeaderSizes(j, c);
    assert ReplyFrame(j)[ETH_HLEN..ETH_HLEN + IP_HLEN] == IpHeader(j, c);
    NonZero(IpBefore(j));
    SelfVerifies(IpBefore(j), j.serverIp + j.clientIp);
  }

  lemma NonZero(b: seq<byte>)
    requires |b| >= 2 && b[0] > 0
    ensures WordSum(b) > 0
  {
  }

  /** A reply goes back the way its query came: the addresses and ports of the query's own
      headers, reversed, and lengths that match the payload.  Every byte of it but the two of
      the header checksum is told. */
  lemma ReplyReversesQuery(pkt: seq<byte>, resp: seq<byte>)
    requires ParseFrame(pkt).Some? && |resp| <= MAX_MSG_LEN
    ensures var f := ReplyFrame(ParseFrame(pkt).value.(resp := resp));
            var udp := ETH_HLEN + pkt[14] % 16 * 4;
            && |f| == 42 + |resp|
            && f[0..6] == pkt[6..12] && f[6..12] == pkt[0..6] && f[12..14] == [8, 0]
            && f[14] == 0x45 && f[15] == pkt[15] && f[18..22] == [0, 0, 0x40, 0] && f[22] == 64 && f[23] == 17
            && f[26..30] == pkt[30..34] && f[30..34] == pkt[26..30]
            && f[36..38] == pkt[udp..udp + 2] && Rd16(f, 34) == 53 && f[40..42] == [0, 0]
            && Rd16(f, 16) == 28 + |resp| && Rd16(f, 38) == 8 + |resp|
            && f[42..] == resp
  {
    hide Checksum;
    var j := ParseFrame(pkt).value.(resp := resp);
    PartsOfFrame(j, Checksum(IpHeader(j, 0)));
  }

  lemma PartsOfFrame(j: Job, check: nat)
    requires j.Valid() && check < 0x1_0000
    ensures var f := Frame(j, check);
            && |f| == 42 + |j.resp|
            && f[0..6] == j.clientMac && f[6..12] == j.serverMac && f[12..14] == [8, 0]
            && f[14] == 0x45 && f[15] == j.tos && f[18..22] == [0, 0, 0x40, 0] && f[22] == j.ttl && f[23] == 17
            && f[26..30] == j.serverIp && f[30..34] == j.clientIp
            && f[36..38] == j.clientPort && Rd16(f, 34) == 53 && f[40..42] == [0, 0]
            && Rd16(f, 16) == 28 + |j.resp| && Rd16(f, 38) == 8 + |j.resp|
            && f[42..] == j.resp
  {
    var eth, ip, udp, f := EthHeader(j), IpHeader(j, check), UdpHeader(j), Frame(j, check);
    HeaderSizes(j, check);
    assert f[0..14] == eth && f[14..34] == ip && f[34..42] == udp && f[42..] == j.resp by {
      hide EthHeader, IpHeader, UdpHeader;
    }
    EthParts(j);
    IpParts(j, check);
    UdpParts(j);
    hide *;
    assert f[0..6] == f[0..14][0..6] && f[6..12] == f[0..14][6..12] && f[12..14] == f[0..14][12..14];
    assert f[18..22] == f[14..34][4..8] && f[40..42] == f[34..42][6..8] && f[14] == f[14..34][0];
    assert f[26..30] == f[14..34][12..16] && f[30..34] == f[14..34][16..20];
    assert f[36..38] == f[34..42][2..4];
    assert f[15] == f[14..34][1] && f[22] == f[14..34][8] && f[23] == f[14..34][9];
    Shifted(f, 14, 34, 2);
    Shifted(f, 34, 42, 0);
    Shifted(f, 34, 42, 4);
  }

  lemma Shifted(f: seq<byte>, from: nat, to: nat, off: nat)
    requires from <= to <= |f| && from + off + 2 <= to
    ensures Rd16(f, from + off) == Rd16(f[from..to], off)
  {
  }

  lemma EthParts(j: Job)
    requires j.Valid()
    ensures |EthHeader(j)| == 14 && EthHeader(j)[0..6] == j.clientMac && EthHeader(j)[6..12] == j.serverMac
    ensures EthHeader(j)[12..14] == [8, 0]
  {
  }

  lemma IpParts(j: Job, check: nat)
    requires j.Valid() && check < 0x1_0000
    ensures var ip := IpHeader(j, check);
            && |ip| == 20 && ip[0] == 0x45 && ip[1] == j.tos && ip[4..8] == [0, 0, 0x40, 0] && ip[8] == j.ttl
            && ip[9] == 17 && ip[12..16] == j.serverIp && ip[16..20] == j.clientIp
            && Rd16(ip, 2) == 28 + |j.resp|
  {
    var ip, len := IpHeader(j, check), Wr16(IP_HLEN + UDP_HLEN + |j.resp|);
    assert ip[2] == len[0] && ip[3] == len[1];
  }

  lemma UdpParts(j: Job)
    requires j.Valid()
    ensures var udp := UdpHeader(j);
            && |udp| == 8 && udp[2..4] == j.clientPort && udp[6..8] == [0, 0]
            && Rd16(udp, 0) == 53 && Rd16(udp, 4) == 8 + |j.resp|
  {
    var udp, len := UdpHeader(j), Wr16(UDP_HLEN + |j.resp|);
    assert udp[4] == len[0] && udp[5] == len[1];
  }

  // ---------------------------------------------------------------- queries

  /** A frame as a client sends it: an IPv4 header with or without options, whatever stands in
      the fields that do not matter, a UDP datagram to port 53, and perhaps padding. */
  datatype ClientFrame = ClientFrame(toMac: seq<byte>, fromMac: seq<byte>, tos: byte, middle: seq<byte>,
                                     check: seq<byte>, fromIp: seq<byte>, toIp: seq<byte>, options: seq<byte>,
                                     fromPort: seq<byte>, udpCheck: seq<byte>, query: seq<byte>,
                                     padding: seq<byte>) {
    predicate Valid() {
      && |toMac| == 6 && |fromMac| == 6 && |middle| == 7 && |check| == 2 && |fromIp| == 4 && |toIp| == 4
      && |options| <= 40 && |options| % 4 == 0 && |fromPort| == 2 && |udpCheck| == 2 && |query| <= 65527
    }

    function Ip(): seq<byte>
      requires Valid()
    {
      [(0x45 + |options| / 4) as byte, tos] + middle + [17] + check + fromIp + toIp + options
    }

    function Bytes(): seq<byte>
      requires Valid()
    {
      toMac + fromMac + [8, 0] + Ip() + (fromPort + [0, 53] + Wr16(8 + |query|) + udpCheck) + (query + padding)
    }
  }

  /** Every such frame whose query has 12 to 1500 bytes is accepted, and everything a reply needs
      is taken from its place; with any other length it is refused. */
  lemma ClientFrameParses(f: ClientFrame)
    requires f.Valid()
    ensures ParseFrame(f.Bytes()) ==
            if 12 <= |f.query| <= 1500
            then Some(Job(f.fromMac, f.toMac, f.fromIp, f.toIp, f.fromPort, f.tos, 64, f.query, []))
            else None
  {
    hide Wr16, Rd16;
    var pkt, n := f.Bytes(), 34 + |f.options|;
    ClientParts(f);
    ClientUdp(f);
    assert pkt[14] % 16 * 4 == 20 + |f.options| && pkt[14] / 16 == 4;
  }

  lemma ClientParts(f: ClientFrame)
    requires f.Valid()
    ensures var pkt := f.Bytes();
            && |pkt| == 42 + |f.options| + |f.query| + |f.padding|
            && pkt[0..6] == f.toMac && pkt[6..12] == f.fromMac && pkt[12..14] == [8, 0]
            && pkt[14] == 0x45 + |f.options| / 4 && pkt[15] == f.tos && pkt[23] == 17
            && pkt[26..30] == f.fromIp && pkt[30..34] == f.toIp
  {
    hide Wr16;
    var pkt, ip := f.Bytes(), f.Ip();
    assert pkt[14..34 + |f.options|] == ip;
    assert ip[12..16] == f.fromIp && ip[16..20] == f.toIp && ip[9] == 17;
    assert pkt[26..30] == pkt[14..34 + |f.options|][12..16] && pkt[30..34] == pkt[14..34 + |f.options|][16..20];
    assert pkt[23] == pkt[14..34 + |f.options|][9];
  }

  lemma ClientUdp(f: ClientFrame)
    requires f.Valid()
    ensures var pkt, n := f.Bytes(), 34 + |f.options|;
            && n + 8 + |f.query| <= |pkt|
            && pkt[n..n + 2] == f.fromPort && Rd16(pkt, n + 2) == 53 && Rd16(pkt, n + 4) == 8 + |f.query|
            && pkt[n + 8..n + 8 + |f.query|] == f.query
  {
    hide Wr16, Rd16;
    var pkt, n, len := f.Bytes(), 34 + |f.options|, Wr16(8 + |f.query|);
    var head := f.toMac + f.fromMac + [8, 0] + f.Ip();
    assert |head| == n;
    var udp := f.fromPort + [0, 53] + len + f.udpCheck;
    assert At(pkt, 0, head + udp + (f.query + f.padding));
    AtSplit(pkt, 0, head + udp, f.query + f.padding);
    AtSplit(pkt, n + 8, f.query, f.padding);
    AtSplit(pkt, 0, head, udp);
    AtSplit(pkt, n, f.fromPort + [0, 53] + len, f.udpCheck);
    AtSplit(pkt, n, f.fromPort + [0, 53], len);
    AtSplit(pkt, n, f.fromPort, [0, 53]);
    assert [0, 53] == Wr16(53) by { FiftyThree(); }
    Rd16OfWr16(pkt, n + 2, 53);
    Rd16OfWr16(pkt, n + 4, 8 + |f.query|);
  }

  lemma FiftyThree()
    ensures Wr16(53) == [0, 53]
  {
  }

  /** Nothing else is accepted: an accepted frame is IPv4 and UDP to port 53, and its query is
      the UDP payload as far as there are bytes for it. */
  lemma AcceptedIsQuery(pkt: seq<byte>)
    requires ParseFrame(pkt).Some?
    ensures var udp := 14 + pkt[14] % 16 * 4;
            && |pkt| >= udp + 8 && pkt[12..14] == [8, 0] && pkt[14] / 16 == 4 && pkt[14] % 16 >= 5 && pkt[23] == 17
            && Rd16(pkt, udp + 2) == 53 && 12 <= |ParseFrame(pkt).value.query| <= 1500
            && |ParseFrame(pkt).value.query| == Min(Rd16(pkt, udp + 4) - 8, |pkt| - udp - 8)
            && At(pkt, udp + 8, ParseFrame(pkt).value.query)
  {
  }
}
