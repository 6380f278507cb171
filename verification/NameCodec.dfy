/** The name half of dns_msg.c: labels on the wire, compression pointers, and the
    loops of dns_name_encode and dns_name_decode. */
module NameCodec {
  import opened Names
  import opened Buffers

  const MAX_LABEL := 63
  const MAX_NAME := 255
  const MAX_PTR_JUMPS := 32

  // ---------------------------------------------------------------- encoding

  /** A single trailing dot is ignored; "" and "." are both the root. */
  function Trim(name: seq<byte>): seq<byte> {
    if name != [] && name[|name| - 1] == DOT then name[..|name| - 1] else name
  }

  predicate LabelsOk(ls: seq<seq<byte>>) {
    forall i :: 0 <= i < |ls| ==> 1 <= |ls[i]| <= MAX_LABEL
  }

  /** Each label behind its length byte. */
  function LabelBytes(ls: seq<seq<byte>>): seq<byte>
    requires LabelsOk(ls)
  {
    if ls == [] then [] else [|ls[0]| as byte] + ls[0] + LabelBytes(ls[1..])
  }

  /** The wire form of a name, defined label by label: it exists when every label has
      1..63 bytes and the whole is at most 256 bytes with the root label. */
  function WireName(name: seq<byte>): Option<seq<byte>> {
    var ls := Labels(Trim(name));
    if LabelsOk(ls) && |LabelBytes(ls)| + 1 <= MAX_NAME + 1 then Some(LabelBytes(ls) + [0]) else None
  }

  lemma {:induction false} LabelBytesLength(ls: seq<seq<byte>>)
    requires LabelsOk(ls) && |ls| >= 1
    ensures |LabelBytes(ls)| == |Join(ls)| + 1
    decreases |ls|
  {
    if |ls| > 1 {
      LabelBytesLength(ls[1..]);
    } else {
      assert ls[1..] == [];
    }
  }

  /** A name can be encoded if and only if, but for a trailing dot, it is empty or has at most
      254 characters and labels of 1 to 63. */
  lemma EncodableExactly(name: seq<byte>)
    ensures var t := Trim(name);
            WireName(name).Some? <==>
            t == [] || (|t| <= 254 && forall i :: 0 <= i < |Split(t)| ==> 1 <= |Split(t)[i]| <= 63)
  {
    hide Split, LabelBytes, Join;
    var t := Trim(name);
    if t != [] {
      JoinSplit(t);
      if LabelsOk(Split(t)) { LabelBytesLength(Split(t)); }
    } else {
      assert LabelBytes([]) == [] by { NoLabels(); }
    }
  }

  lemma NoLabels()
    ensures LabelBytes([]) == []
  {
  }

  /** Fits(name, cap) is what dns_name_encode demands of its buffer. */
  predicate Fits(name: seq<byte>, cap: nat) {
    WireName(name).Some? && |WireName(name).value| <= cap
  }

  /** The bytes the scan of dns_name_encode yields from a non-empty rest of the text. */
  function ScanBytes(s: seq<byte>): Option<seq<byte>>
    decreases |s|
  {
    var l := FirstDot(s);
    if l == 0 || l > MAX_LABEL then None
    else
      var piece := [l as byte] + s[..l];
      if l == |s| || l + 1 == |s| then Some(piece)
      else
        var rest := ScanBytes(s[l + 1..]);
        if rest.None? then None else Some(piece + rest.value)
  }

  /** Below the first dot a text and its trimmed form agree, and a cut at that dot
      commutes with trimming. */
  lemma {:induction false} TrimAtFirstDot(s: seq<byte>)
    requires s != []
    ensures var t, l := Trim(s), FirstDot(s);
            && FirstDot(t) == l <= |t| && t[..l] == s[..l]
            && (l < |t| <==> l + 1 < |s|)
            && (l < |t| ==> Trim(s[l + 1..]) == t[l + 1..])
  {
    hide FirstDot;
    var t := Trim(s);
    if t != s {
      assert s == t + [DOT] + [];
      FirstDotOfConcat(t, []);
    }
  }

  lemma {:induction false} LabelBytesCons(l: seq<byte>, ls: seq<seq<byte>>)
    ensures LabelsOk([l] + ls) <==> 1 <= |l| <= MAX_LABEL && LabelsOk(ls)
    ensures LabelsOk([l] + ls) ==> LabelBytes([l] + ls) == [|l| as byte] + l + LabelBytes(ls)
  {
    var all := [l] + ls;
    assert all[0] == l && all[1..] == ls;
    assert forall i :: 0 <= i < |ls| ==> all[i + 1] == ls[i];
  }

  /** The scan yields the labels of the trimmed text, or fails because one is bad. */
  lemma {:induction false} ScanIsLabels(s: seq<byte>)
    requires s != []
    ensures var ls := Split(Trim(s));
            ScanBytes(s) == if LabelsOk(ls) then Some(LabelBytes(ls)) else None
    decreases |s|
  {
    var t, l := Trim(s), FirstDot(s);
    TrimAtFirstDot(s);
    if l < |t| {
      LabelBytesCons(t[..l], Split(t[l + 1..]));
      ScanIsLabels(s[l + 1..]);
    } else {
      LabelBytesCons(t, []);
      assert t[..l] == t && [t] + [] == [t];
      assert 1 <= l <= MAX_LABEL ==> [l as byte] + t + LabelBytes([]) == [l as byte] + s[..l];
    }
  }

  /** One turn of the scan at position p. */
  lemma {:induction false} ScanTurn(name: seq<byte>, p: nat)
    requires p < |name|
    ensures var l := FirstDot(name[p..]);
            && p + l <= |name|
            && (l == 0 || l > MAX_LABEL ==> ScanBytes(name[p..]).None?)
            && (1 <= l <= MAX_LABEL ==>
                  var piece := [l as byte] + name[p..p + l];
                  if p + l + 1 >= |name| then ScanBytes(name[p..]) == Some(piece)
                  else
                    var rest := ScanBytes(name[p + l + 1..]);
                    ScanBytes(name[p..]) == if rest.None? then None else Some(piece + rest.value))
  {
    hide FirstDot;
    var s := name[p..];
    var l := FirstDot(s);
    assert s[..l] == name[p..p + l];
    if p + l + 1 < |name| {
      assert s[l + 1..] == name[p + l + 1..];
    }
  }

  /** The loop of dns_name_encode, on a text that is not the root. */
  method EncodeLabels(name: seq<byte>, out: Buffer, cap: nat) returns (ok: bool)
    requires out.Valid() && out.len + cap <= out.data.Length && name != []
    modifies out`len, out.data
    ensures out.Valid()
    ensures ok <==> ScanBytes(name).Some? && |ScanBytes(name).value| + 1 <= cap
    ensures out.Contents() == old(out.Contents()) + if ok then ScanBytes(name).value else []
  {
    hide FirstDot, ScanBytes;
    ghost var start, w := out.Contents(), [];
    ghost var whole := ScanBytes(name);
    var begin, p := out.len, 0;
    assert name[0..] == name;
    while true
      invariant 0 <= p < |name| && out.Valid()
      invariant whole.Some? <==> ScanBytes(name[p..]).Some?
      invariant whole.Some? ==> whole.value == w + ScanBytes(name[p..]).value
      invariant out.len == begin + |w| && |w| <= cap
      invariant out.Contents() == start + w
      decreases |name| - p
    {
      var l := FirstDot(name[p..]);
      ScanTurn(name, p);
      if l == 0 || l > MAX_LABEL || out.len - begin + 1 + l + 1 > cap {
        out.Rewind(begin);
        return false;
      }
      var piece := [l as byte] + name[p..p + l];
      out.Put(piece);
      Assoc(start, w, piece);
      if p + l == |name| || p + l + 1 == |name| { return true; }
      if whole.Some? { Assoc(w, piece, ScanBytes(name[p + l + 1..]).value); }
      w := w + piece;
      p := p + l + 1;
    }
  }

  /** dns_name_encode: label by label behind the cursor, in a window of `cap` bytes.  It
      succeeds exactly when the wire form exists and fits; the cursor moves past the
      name on success and stays on failure. */
  method EncodeName(name: seq<byte>, out: Buffer, cap: nat) returns (ok: bool)
    requires out.Valid() && out.len + cap <= out.data.Length
    modifies out`len, out.data
    ensures out.Valid()
    ensures ok <==> Fits(name, cap)
    ensures out.Contents() == old(out.Contents()) + if ok then WireName(name).value else []
  {
    if name == [] || (|name| == 1 && name[0] == DOT) {
      if cap < 1 { return false; }
      out.Put([0]);
      return true;
    }
    var begin := out.len;
    ScanIsLabels(name);
    ok := EncodeLabels(name, out, cap);
    if ok {
      out.Put([0]);
      Assoc(old(out.Contents()), ScanBytes(name).value, [0]);
      if out.len - begin > MAX_NAME + 1 {
        out.Rewind(begin);
        ok := false;
      }
    }
  }

  // ---------------------------------------------------------------- decoding

  datatype Decoded = Decoded(text: seq<byte>, next: nat)

  function Dotted(text: seq<byte>): seq<byte> {
    if text == [] then [] else text + [DOT]
  }

  /** Where a pointer's two bytes lead. */
  function Target(hi: byte, lo: byte): nat
    requires hi >= 192
  {
    (hi - 192) * 256 + lo
  }

  /** The state of dns_name_decode's loop: the offset, the pointers taken, the text so
      far, and where the stream goes on once a pointer has been followed. */
  datatype Walk = Walk(off: nat, jumps: nat, text: seq<byte>, after: Option<nat>)

  datatype Step = Stop | Done(name: Decoded) | Go(to: Walk)

  /** One turn of the loop, but for the limit on pointers. */
  function Turn(msg: seq<byte>, cap: nat, w: Walk): (s: Step)
    ensures s.Go? ==> w.off < |msg|
    ensures s.Go? ==> || (s.to.jumps == w.jumps && w.off < s.to.off && |w.text| < |s.to.text| <= MAX_NAME + 1)
                      || (s.to.jumps == w.jumps + 1 && s.to.off < w.off && s.to.text == w.text)
  {
    if w.off >= |msg| then Stop
    else
      var l := msg[w.off];
      if l == 0 then
        Done(Decoded(w.text, if w.after.Some? then w.after.value else w.off + 1))
      else if l >= 192 then
        if w.off + 1 >= |msg| || Target(l, msg[w.off + 1]) >= w.off then Stop
        else
          var after := if w.after.None? then Some(w.off + 2) else w.after;
          Go(Walk(Target(l, msg[w.off + 1]), w.jumps + 1, w.text, after))
      else if l > MAX_LABEL || w.off + 1 + l > |msg| then Stop
      else if |Dotted(w.text)| + l + 1 > cap || |w.text| + l > MAX_NAME then Stop
      else Go(w.(off := w.off + 1 + l, text := Dotted(w.text) + Lower(msg[w.off + 1..w.off + 1 + l])))
  }

  /** One turn of the loop. */
  function Next(msg: seq<byte>, cap: nat, w: Walk): (s: Step)
    ensures s.Go? ==> s.to.jumps > w.jumps || (s.to.jumps == w.jumps && w.off < s.to.off && w.off < |msg|)
    ensures s.Go? ==> s.to.jumps <= MAX_PTR_JUMPS || s.to.jumps == w.jumps
  {
    var s := Turn(msg, cap, w);
    if s.Go? && s.to.jumps > w.jumps && s.to.jumps > MAX_PTR_JUMPS then Stop else s
  }

  /** The whole walk; (jumps left, bytes left) shrinks at every turn. */
  function DecodeFrom(msg: seq<byte>, cap: nat, w: Walk): Option<Decoded>
    decreases MAX_PTR_JUMPS - w.jumps, |msg| - w.off
  {
    match Next(msg, cap, w)
    case Stop => None
    case Done(d) => Some(d)
    case Go(to) => DecodeFrom(msg, cap, to)
  }

  function Start(off: nat): Walk {
    Walk(off, 0, [], None)
  }

  /** dns_name_decode into a buffer of `cap` bytes. */
  function Decode(msg: seq<byte>, off: nat, cap: nat): Option<Decoded> {
    if cap == 0 then None else DecodeFrom(msg, cap, Start(off))
  }

  lemma WalkOn(msg: seq<byte>, cap: nat, w: Walk)
    ensures DecodeFrom(msg, cap, w) ==
            match Next(msg, cap, w)
            case Stop => None
            case Done(d) => Some(d)
            case Go(to) => DecodeFrom(msg, cap, to)
  {
  }

  /** dns_name_decode: one loop that follows pointers.  It ends on every message, and the
      text with its terminating NUL fits the caller's buffer. */
  method DecodeName(msg: seq<byte>, start: nat, out: Buffer) returns (r: Option<Decoded>)
    requires out.Valid() && out.len == 0
    modifies out`len, out.data
    ensures r == Decode(msg, start, out.data.Length)
    ensures out.Valid() && (r.Some? ==> out.Contents() == r.value.text + [0])
  {
    hide DecodeFrom;
    var cap := out.data.Length;
    if cap == 0 { return None; }
    var off, jumps := start, 0;
    var after: Option<nat> := None;
    ghost var text: seq<byte> := [];
    while true
      invariant out.Valid() && out.len < cap && 0 <= jumps <= MAX_PTR_JUMPS && 0 <= off
      invariant out.Contents() == text
      invariant Decode(msg, start, cap) == DecodeFrom(msg, cap, Walk(off, jumps, text, after))
      decreases MAX_PTR_JUMPS - jumps, |msg| - off
    {
      WalkOn(msg, cap, Walk(off, jumps, text, after));
      if off >= |msg| { return None; }
      var l := msg[off];
      if l == 0 {
        if after.None? { after := Some(off + 1); }
        break;
      }
      if l >= 192 {
        if off + 1 >= |msg| { return None; }
        jumps := jumps + 1;
        if jumps > MAX_PTR_JUMPS { return None; }
        var target := Target(l, msg[off + 1]);
        if after.None? { after := Some(off + 2); }
        if target >= off { return None; }
        off := target;
        continue;
      }
      if l >= 64 { return None; }
      if off + 1 + l > |msg| { return None; }
      if out.len + (if out.len > 0 then 1 else 0) + l + 1 > cap { return None; }
      if out.len + l > MAX_NAME { return None; }
      if out.len > 0 { out.Put([DOT]); }
      assert out.Contents() == Dotted(text);
      out.Put(Lower(msg[off + 1..off + 1 + l]));
      text := out.Contents();
      off := off + 1 + l;
    }
    var n := out.len;
    out.Put([0]);
    r := Some(Decoded(out.data[..n], after.value));
    assert out.data[..n] == out.Contents()[..n] == text;
  }

  /** Every successful decode stays inside the message and its buffer, and the bytes it
      takes in the stream exceed the text it yields by at most three. */
  lemma {:induction false} DecodeFromBounds(msg: seq<byte>, cap: nat, w: Walk)
    requires |w.text| < cap && DecodeFrom(msg, cap, w).Some?
    ensures var d := DecodeFrom(msg, cap, w).value;
            && |w.text| <= |d.text| < cap
            && (w.after.Some? ==> d.next == w.after.value)
            && (w.after.None? ==> w.off < d.next <= |msg|)
            && (w.after.None? ==> d.next - w.off <= |d.text| - |w.text| + 2 + (if w.text == [] then 1 else 0))
    decreases MAX_PTR_JUMPS - w.jumps, |msg| - w.off
  {
    if Next(msg, cap, w).Go? {
      DecodeFromBounds(msg, cap, Next(msg, cap, w).to);
    }
  }

  /** With the 256-byte buffer every caller passes, a decoded name has at most 255
      characters and its end lies strictly after its start and inside the message. */
  lemma DecodeBounds(msg: seq<byte>, off: nat)
    requires Decode(msg, off, MAX_NAME + 1).Some?
    ensures var d := Decode(msg, off, MAX_NAME + 1).value;
            |d.text| <= 255 && off < d.next <= |msg| && d.next - off <= |d.text| + 3
  {
    DecodeFromBounds(msg, MAX_NAME + 1, Start(off));
  }

  // ---------------------------------------------------------------- the pointer limit

  datatype Uncounted = Uncounted(name: Decoded, pointers: nat)

  /** The same walk without the limit on pointers.  It ends too: a label makes the text
      longer, which stops at 255 characters, and a pointer leads backward. */
  function WalkFreely(msg: seq<byte>, cap: nat, w: Walk): (r: Option<Uncounted>)
    ensures r.Some? ==> r.value.pointers >= w.jumps
    decreases MAX_NAME + 1 - |w.text|, w.off
  {
    match Turn(msg, cap, w)
    case Stop => None
    case Done(d) => Some(Uncounted(d, w.jumps))
    case Go(to) => WalkFreely(msg, cap, to)
  }

  lemma {:induction false} CountedWalk(msg: seq<byte>, cap: nat, w: Walk)
    requires w.jumps <= MAX_PTR_JUMPS
    ensures var u := WalkFreely(msg, cap, w);
            DecodeFrom(msg, cap, w) == if u.Some? && u.value.pointers <= MAX_PTR_JUMPS then Some(u.value.name) else None
    decreases MAX_NAME + 1 - |w.text|, w.off
  {
    hide Turn;
    match Turn(msg, cap, w) {
      case Stop =>
      case Done(d) =>
      case Go(to) => if to.jumps <= MAX_PTR_JUMPS { CountedWalk(msg, cap, to); }
    }
  }

  /** What the pointer limit does, for all messages: it never matters for termination, and
      decoding agrees with the unlimited walk if and only if that walk fails anyway or
      follows at most 32 pointers; beyond that it fails. */
  lemma PointerLimitExactly(msg: seq<byte>, off: nat, cap: nat)
    requires cap > 0
    ensures var u := WalkFreely(msg, cap, Start(off));
            && (Decode(msg, off, cap) == (if u.Some? then Some(u.value.name) else None)
              <==> u.None? || u.value.pointers <= 32)
            && (u.Some? && u.value.pointers > 32 ==> Decode(msg, off, cap).None?)
  {
    CountedWalk(msg, cap, Start(off));
  }

  /** Where a name stands, how often pointers were followed before and where the stream goes
      on does not change what it reads as. */
  lemma {:induction false} WalkAfterPointer(msg: seq<byte>, cap: nat, w: Walk, next: nat)
    ensures var u := WalkFreely(msg, cap, w);
            WalkFreely(msg, cap, Walk(w.off, w.jumps + 1, w.text, Some(next))) ==
            if u.None? then None else Some(Uncounted(Decoded(u.value.name.text, next), u.value.pointers + 1))
    decreases MAX_NAME + 1 - |w.text|, w.off
  {
    if Turn(msg, cap, w).Go? {
      WalkAfterPointer(msg, cap, Turn(msg, cap, w).to, next);
    }
  }

  lemma {:induction false} WalkIsLower(msg: seq<byte>, cap: nat, w: Walk)
    requires Lower(w.text) == w.text && WalkFreely(msg, cap, w).Some?
    ensures Lower(WalkFreely(msg, cap, w).value.name.text) == WalkFreely(msg, cap, w).value.name.text
    decreases MAX_NAME + 1 - |w.text|, w.off
  {
    if Turn(msg, cap, w).Go? {
      var to := Turn(msg, cap, w).to;
      TurnIsLower(msg, cap, w);
      WalkIsLower(msg, cap, to);
    }
  }

  lemma TurnIsLower(msg: seq<byte>, cap: nat, w: Walk)
    requires Lower(w.text) == w.text && Turn(msg, cap, w).Go?
    ensures Lower(Turn(msg, cap, w).to.text) == Turn(msg, cap, w).to.text
  {
    assert LowerByte(DOT) == DOT;
  }

  /** The walk reads no byte outside lo to hi. */
  predicate Inside(msg: seq<byte>, cap: nat, w: Walk, lo: nat, hi: nat)
    decreases MAX_NAME + 1 - |w.text|, w.off
  {
    && lo <= w.off < hi
    && match Turn(msg, cap, w)
       case Stop => true
       case Done(_) => true
       case Go(to) => (if to.jumps == w.jumps then to.off <= hi else w.off + 2 <= hi) && Inside(msg, cap, to, lo, hi)
  }

  lemma SameTurn(a: seq<byte>, b: seq<byte>, cap: nat, w: Walk, lo: nat, hi: nat)
    requires lo <= hi <= |a| && At(b, lo, a[lo..hi]) && lo <= w.off < hi && !Turn(a, cap, w).Stop?
    requires Turn(a, cap, w).Go? ==>
               if Turn(a, cap, w).to.jumps == w.jumps then Turn(a, cap, w).to.off <= hi else w.off + 2 <= hi
    ensures Turn(b, cap, w) == Turn(a, cap, w)
  {
    var v := a[lo..hi];
    assert forall k :: lo <= k < hi ==> b[k] == v[k - lo] == a[k];
    var l := a[w.off];
    if 0 < l <= MAX_LABEL {
      assert b[w.off + 1..w.off + 1 + l] == a[w.off + 1..w.off + 1 + l];
    }
  }

  /** A name whose walk stays inside a stretch of bytes reads the same wherever those bytes
      stand at the same place. */
  lemma {:induction false} SameBytesSameName(a: seq<byte>, b: seq<byte>, cap: nat, w: Walk, lo: nat, hi: nat)
    requires lo <= hi <= |a| && At(b, lo, a[lo..hi]) && Inside(a, cap, w, lo, hi) && WalkFreely(a, cap, w).Some?
    ensures WalkFreely(b, cap, w) == WalkFreely(a, cap, w)
    decreases MAX_NAME + 1 - |w.text|, w.off
  {
    hide Turn, At;
    SameTurn(a, b, cap, w, lo, hi);
    if Turn(a, cap, w).Go? {
      SameBytesSameName(a, b, cap, Turn(a, cap, w).to, lo, hi);
    }
  }

  /** A root label and n pointers behind it, each to the one before. */
  function PointerChain(n: nat): (r: seq<byte>)
    requires n <= 8000
    ensures |r| == 1 + 2 * n
  {
    if n == 0 then [0] else PointerChain(n - 1) + [192 + LastOf(n - 1) / 256, LastOf(n - 1) % 256]
  }

  /** Where the last name of a chain begins. */
  function LastOf(n: nat): nat {
    if n == 0 then 0 else 2 * n - 1
  }

  lemma {:induction false} ChainWalk(n: nat, k: nat, cap: nat, w: Walk)
    requires k <= n <= 8000 && w.off == LastOf(k) && w.text == []
    ensures var u := WalkFreely(PointerChain(n), cap, w);
            u.Some? && u.value.pointers == w.jumps + k && u.value.name.text == []
    decreases k
  {
    ChainPrefix(n, k);
    if k > 0 {
      var to := Walk(LastOf(k - 1), w.jumps + 1, [], if w.after.None? then Some(w.off + 2) else w.after);
      assert Turn(PointerChain(n), cap, w) == Go(to);
      ChainWalk(n, k - 1, cap, to);
    }
  }

  lemma {:induction false} ChainPrefix(n: nat, k: nat)
    requires k <= n <= 8000
    ensures PointerChain(k) <= PointerChain(n)
    decreases n
  {
    if k < n { ChainPrefix(n - 1, k); }
  }

  /** The limit acts: a chain of n pointers is well formed, and decodes exactly up to n = 32. */
  lemma LongChainsFail(n: nat, cap: nat)
    requires n <= 8000 && cap > 0
    ensures WalkFreely(PointerChain(n), cap, Start(LastOf(n))).Some?
    ensures Decode(PointerChain(n), LastOf(n), cap).Some? <==> n <= 32
  {
    hide PointerChain, WalkFreely, DecodeFrom;
    ChainWalk(n, n, cap, Start(LastOf(n)));
    CountedWalk(PointerChain(n), cap, Start(LastOf(n)));
  }

  /** "a.a.a...": the text after n rounds. */
  function Rounds(n: nat): (r: seq<byte>)
    ensures |r| == if n == 0 then 0 else 2 * n - 1
  {
    if n == 0 then [] else Dotted(Rounds(n - 1)) + [97]
  }

  /** Where the walk is after k turns. */
  function After(msg: seq<byte>, cap: nat, w: Walk, k: nat): Option<Walk>
    decreases k
  {
    if k == 0 then Some(w)
    else match Next(msg, cap, w)
         case Go(to) => After(msg, cap, to, k - 1)
         case _ => None
  }

  function AtStart(n: nat): Walk {
    Walk(0, n, Rounds(n), if n == 0 then None else Some(4))
  }

  /** A strictly backward pointer can lead back to an offset already visited: decoding this
      message is at offset 0 again after each of the 32 pointers it may follow, with a longer
      text each time, and then fails. */
  lemma BackwardPointerRevisits(n: nat)
    requires n <= MAX_PTR_JUMPS
    ensures var msg: seq<byte> := [1, 97, 192, 0];
            && After(msg, 256, Start(0), 2 * n) == Some(AtStart(n)) && AtStart(n).off == 0
            && Decode(msg, 0, 256) == None
  {
    hide After, DecodeFrom, Rounds;
    RoundsPass(0, n);
    RoundsEnd(0);
    NoRounds();
  }

  lemma NoRounds()
    ensures Rounds(0) == []
  {
  }

  lemma {:induction false} RoundsPass(m: nat, k: nat)
    requires m + k <= MAX_PTR_JUMPS
    ensures After([1, 97, 192, 0], 256, AtStart(m), 2 * k) == Some(AtStart(m + k))
    decreases k
  {
    hide Next, Rounds, After;
    var msg: seq<byte> := [1, 97, 192, 0];
    var w := AtStart(m);
    AfterTurn(msg, w, 2 * k);
    if k > 0 {
      var mid := w.(off := 2, text := Rounds(m + 1));
      LabelTurn(m, w);
      PointerTurn(mid);
      AfterTurn(msg, mid, 2 * k - 1);
      RoundsPass(m + 1, k - 1);
    }
  }

  lemma AfterTurn(msg: seq<byte>, w: Walk, k: nat)
    ensures k == 0 ==> After(msg, 256, w, k) == Some(w)
    ensures k > 0 && Next(msg, 256, w).Go? ==> After(msg, 256, w, k) == After(msg, 256, Next(msg, 256, w).to, k - 1)
  {
    hide Next;
  }

  lemma {:induction false} RoundsEnd(n: nat)
    requires n <= MAX_PTR_JUMPS
    ensures DecodeFrom([1, 97, 192, 0], 256, AtStart(n)) == None
    decreases MAX_PTR_JUMPS - n
  {
    hide Next, Rounds;
    LabelTurn(n, AtStart(n));
    PointerTurn(AtStart(n).(off := 2, text := Rounds(n + 1)));
    if n < MAX_PTR_JUMPS { RoundsEnd(n + 1); }
  }

  lemma LabelTurn(n: nat, w: Walk)
    requires n <= MAX_PTR_JUMPS && w.off == 0 && w.text == Rounds(n)
    ensures Next([1, 97, 192, 0], 256, w) == Go(w.(off := 2, text := Rounds(n + 1)))
  {
    var msg: seq<byte> := [1, 97, 192, 0];
    assert msg[1..2] == [97];
    LowerOfA();
  }

  lemma LowerOfA()
    ensures Lower([97]) == [97]
  {
  }

  lemma PointerTurn(w: Walk)
    requires w.off == 2
    ensures Next([1, 97, 192, 0], 256, w) ==
            if w.jumps >= MAX_PTR_JUMPS then Stop
            else Go(Walk(0, w.jumps + 1, w.text, if w.after.None? then Some(4) else w.after))
  {
  }

  // ---------------------------------------------------------------- round trip

  /** The text a run of labels adds to what is already written. */
  function AppendLabels(text: seq<byte>, ls: seq<seq<byte>>): seq<byte>
    decreases |ls|
  {
    if ls == [] then text else AppendLabels(Dotted(text) + Lower(ls[0]), ls[1..])
  }

  lemma {:induction false} AppendLabelsLength(text: seq<byte>, ls: seq<seq<byte>>)
    requires LabelsOk(ls)
    ensures |AppendLabels(text, ls)| == |text| + |LabelBytes(ls)| - (if text == [] && ls != [] then 1 else 0)
    decreases |ls|
  {
    if ls != [] {
      AppendLabelsLength(Dotted(text) + Lower(ls[0]), ls[1..]);
    }
  }

  lemma {:induction false} AppendLabelsIsJoin(text: seq<byte>, ls: seq<seq<byte>>)
    requires LabelsOk(ls) && ls != []
    ensures AppendLabels(text, ls) == Dotted(text) + Lower(Join(ls))
    decreases |ls|
  {
    var t := Dotted(text) + Lower(ls[0]);
    if |ls| == 1 {
      assert AppendLabels(t, ls[1..]) == t;
    } else {
      hide Lower;
      AppendLabelsIsJoin(t, ls[1..]);
      LowerJoined(ls[0], Join(ls[1..]));
      Assoc(Dotted(text), Lower(ls[0]) + [DOT], Lower(Join(ls[1..])));
      Assoc(Dotted(text), Lower(ls[0]), [DOT]);
      assert |ls[0]| > 0 && Dotted(t) == t + [DOT];
    }
  }

  /** One label on the wire is one turn of the walk, or its end if the text is full. */
  lemma {:induction false} LabelStep(msg: seq<byte>, w: Walk, l: seq<byte>)
    requires 1 <= |l| <= MAX_LABEL && At(msg, w.off, [|l| as byte] + l)
    ensures Next(msg, MAX_NAME + 1, w) ==
            if |Dotted(w.text) + Lower(l)| <= MAX_NAME
            then Go(w.(off := w.off + 1 + |l|, text := Dotted(w.text) + Lower(l)))
            else Stop
  {
    AtSplit(msg, w.off, [|l| as byte], l);
    assert msg[w.off..w.off + 1][0] == |l|;
  }

  /** The root label ends the walk. */
  lemma RootStep(msg: seq<byte>, w: Walk)
    requires At(msg, w.off, [0])
    ensures Next(msg, MAX_NAME + 1, w) == Done(Decoded(w.text, if w.after.Some? then w.after.value else w.off + 1))
  {
    assert msg[w.off..w.off + 1][0] == 0;
  }

  /** Where a walk over labels and the root label ends. */
  function AfterLabels(w: Walk, ls: seq<seq<byte>>): nat
    requires LabelsOk(ls)
  {
    if w.after.Some? then w.after.value else w.off + |LabelBytes(ls)| + 1
  }

  /** A run of labels decodes to its text, and fails exactly when that text is longer
      than 255 characters. */
  lemma {:induction false} DecodeLabels(msg: seq<byte>, w: Walk, ls: seq<seq<byte>>)
    requires LabelsOk(ls) && |w.text| <= MAX_NAME
    requires At(msg, w.off, LabelBytes(ls) + [0])
    ensures DecodeFrom(msg, 256, w) ==
            if |AppendLabels(w.text, ls)| <= 255
            then Some(Decoded(AppendLabels(w.text, ls), AfterLabels(w, ls)))
            else None
    decreases |ls|
  {
    hide Next, At;
    if ls == [] {
      assert LabelBytes(ls) + [0] == [0];
      RootStep(msg, w);
    } else {
      var head, tail := [|ls[0]| as byte] + ls[0], LabelBytes(ls[1..]) + [0];
      var text' := Dotted(w.text) + Lower(ls[0]);
      assert LabelBytes(ls) + [0] == head + tail;
      AtSplit(msg, w.off, head, tail);
      LabelStep(msg, w, ls[0]);
      AppendLabelsLength(text', ls[1..]);
      if |text'| <= MAX_NAME {
        DecodeLabels(msg, w.(off := w.off + 1 + |ls[0]|, text := text'), ls[1..]);
      }
    }
  }

  /** The canonical text of a name: lower case, no trailing dot. */
  function Canonical(name: seq<byte>): seq<byte> {
    Lower(Trim(name))
  }

  lemma {:induction false} CanonicalFromLabels(t: seq<byte>)
    requires LabelsOk(Labels(t))
    ensures AppendLabels([], Labels(t)) == Lower(t)
  {
    if t != [] {
      AppendLabelsIsJoin([], Labels(t));
      JoinSplit(t);
      assert Dotted([]) + Lower(t) == Lower(t);
    }
  }

  /** Decoding an encoded name gives back its canonical text, whatever surrounds it and
      after any number of pointers that lead to it. */
  lemma {:induction false} DecodeWireName(msg: seq<byte>, w: Walk, name: seq<byte>)
    requires WireName(name).Some? && w.text == []
    requires At(msg, w.off, WireName(name).value)
    ensures DecodeFrom(msg, MAX_NAME + 1, w) ==
            Some(Decoded(Canonical(name), if w.after.Some? then w.after.value else w.off + |WireName(name).value|))
  {
    hide At, AppendLabels, DecodeFrom;
    var ls := Labels(Trim(name));
    CanonicalFromLabels(Trim(name));
    AppendLabelsLength([], ls);
    DecodeLabels(msg, w, ls);
  }

  /** decode(encode(name)) is the name in lower case without its trailing dot, and the
      decoder stops exactly behind what the encoder wrote. */
  lemma {:induction false} RoundTrip(msg: seq<byte>, off: nat, name: seq<byte>)
    requires WireName(name).Some? && At(msg, off, WireName(name).value)
    ensures Decode(msg, off, MAX_NAME + 1) == Some(Decoded(Canonical(name), off + |WireName(name).value|))
  {
    hide At, WireName, Canonical, DecodeFrom;
    DecodeWireName(msg, Start(off), name);
  }

  /** A backward pointer stands for the name it points at. */
  lemma {:induction false} PointerStandsForTarget(msg: seq<byte>, off: nat, name: seq<byte>)
    requires off + 2 <= |msg| && msg[off] >= 192 && Target(msg[off], msg[off + 1]) < off
    requires WireName(name).Some? && At(msg, Target(msg[off], msg[off + 1]), WireName(name).value)
    ensures Decode(msg, off, MAX_NAME + 1) == Some(Decoded(Canonical(name), off + 2))
  {
    hide At, WireName, Canonical;
    var to := Walk(Target(msg[off], msg[off + 1]), 1, [], Some(off + 2));
    assert Next(msg, MAX_NAME + 1, Start(off)) == Go(to);
    DecodeWireName(msg, to, name);
  }
}
