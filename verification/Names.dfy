/** Domain names as dns_msg.c handles them.

    A C string is the sequence of its bytes before the terminating NUL.  Names are
    dotted text; on the wire they are length-prefixed labels.  This module holds the
    text side: case folding, equality, label splitting and zone containment. */
module Names {

  type byte = x: int | 0 <= x < 256

  datatype Option<+T> = None | Some(value: T)

  const DOT: byte := 46

  /** tolower() in the C locale. */
  function LowerByte(c: byte): byte {
    if 65 <= c <= 90 then c + 32 else c
  }

  function Lower(s: seq<byte>): (r: seq<byte>)
    ensures |r| == |s|
    ensures forall i :: 0 <= i < |s| ==> r[i] == LowerByte(s[i])
  {
    seq(|s|, i requires 0 <= i < |s| => LowerByte(s[i]))
  }

  /** The meaning of dns_name_equal: equal up to ASCII case. */
  predicate NameEq(a: seq<byte>, b: seq<byte>) {
    Lower(a) == Lower(b)
  }

  /** Two names are equal if and only if they differ at most in the case of letters. */
  lemma CaseExactly(a: seq<byte>, b: seq<byte>)
    ensures NameEq(a, b) <==>
            |a| == |b| && forall i :: 0 <= i < |a| ==> a[i] == b[i] || CasePair(a[i], b[i]) || CasePair(b[i], a[i])
  {
    if NameEq(a, b) {
      assert |Lower(a)| == |Lower(b)|;
      forall i | 0 <= i < |a| ensures a[i] == b[i] || CasePair(a[i], b[i]) || CasePair(b[i], a[i]) {
        assert Lower(a)[i] == Lower(b)[i];
      }
    }
  }

  /** A capital ASCII letter and its small one. */
  predicate CasePair(upper: byte, lower: byte) {
    65 <= upper <= 90 && lower == upper + 32
  }

  /** dns_name_equal: the byte loop decides equality up to case. */
  method EqualNames(a: seq<byte>, b: seq<byte>) returns (eq: bool)
    ensures eq <==> NameEq(a, b)
  {
    var i := 0;
    while i < |a| && i < |b|
      invariant i <= |a| && i <= |b|
      invariant forall k :: 0 <= k < i ==> LowerByte(a[k]) == LowerByte(b[k])
    {
      if LowerByte(a[i]) != LowerByte(b[i]) {
        assert Lower(a)[i] != Lower(b)[i];
        return false;
      }
      i := i + 1;
    }
    assert |a| == |b| ==> Lower(a) == Lower(b);
    return i == |a| && i == |b|;
  }

  /** dns_name_in_bailiwick: `name` is `zone` or lies under it.  The root is []. */
  predicate InBailiwick(name: seq<byte>, zone: seq<byte>) {
    if zone == [] then true
    else if |name| == |zone| then NameEq(name, zone)
    else if |name| < |zone| + 2 then false
    else name[|name| - |zone| - 1] == DOT && NameEq(name[|name| - |zone|..], zone)
  }

  // ---------------------------------------------------------------- labels

  /** Position of the first dot, or the length of the text (strchr / strlen). */
  function FirstDot(s: seq<byte>): (d: nat)
    ensures d <= |s|
    ensures forall k :: 0 <= k < d ==> s[k] != DOT
    ensures d < |s| ==> s[d] == DOT
  {
    if s == [] then 0
    else if s[0] == DOT then 0
    else 1 + FirstDot(s[1..])
  }

  /** The text cut at every dot; always at least one piece, possibly empty. */
  function Split(s: seq<byte>): (ls: seq<seq<byte>>)
    ensures |ls| >= 1
    decreases |s|
  {
    var d := FirstDot(s);
    if d == |s| then [s] else [s[..d]] + Split(s[d + 1..])
  }

  /** The pieces put back with dots between them. */
  function Join(ls: seq<seq<byte>>): seq<byte>
    requires |ls| >= 1
  {
    if |ls| == 1 then ls[0] else ls[0] + [DOT] + Join(ls[1..])
  }

  /** Labels of a name; the root has none. */
  function Labels(s: seq<byte>): seq<seq<byte>> {
    if s == [] then [] else Split(s)
  }

  predicate NoEmptyLabels(s: seq<byte>) {
    forall i :: 0 <= i < |Labels(s)| ==> Labels(s)[i] != []
  }

  predicate IsSuffix<T(==)>(small: seq<T>, big: seq<T>) {
    |small| <= |big| && big[|big| - |small|..] == small
  }

  lemma {:induction false} JoinSplit(s: seq<byte>)
    ensures Join(Split(s)) == s
    decreases |s|
  {
    var d := FirstDot(s);
    if d < |s| {
      JoinSplit(s[d + 1..]);
      assert Split(s)[1..] == Split(s[d + 1..]);
      assert s == s[..d] + [DOT] + s[d + 1..];
    }
  }

  lemma {:induction false} FirstDotOfConcat(p: seq<byte>, z: seq<byte>)
    ensures FirstDot(p + [DOT] + z) == FirstDot(p)
  {
    if p != [] && p[0] != DOT {
      assert (p + [DOT] + z)[1..] == p[1..] + [DOT] + z;
      FirstDotOfConcat(p[1..], z);
    }
  }

  /** A dot between two texts is a cut between their labels. */
  lemma {:induction false} SplitConcat(p: seq<byte>, z: seq<byte>)
    ensures Split(p + [DOT] + z) == Split(p) + Split(z)
    decreases |p|
  {
    hide FirstDot, Split;
    var w := p + [DOT] + z;
    var d := FirstDot(p);
    FirstDotOfConcat(p, z);
    SplitStep(w);
    SplitStep(p);
    if d == |p| {
      assert w[..d] == p && w[d + 1..] == z;
    } else {
      var rest := p[d + 1..];
      assert w[..d] == p[..d] && w[d + 1..] == rest + [DOT] + z;
      SplitConcat(rest, z);
      Assoc([p[..d]], Split(rest), Split(z));
    }
  }

  lemma SplitStep(s: seq<byte>)
    ensures var d := FirstDot(s); Split(s) == if d == |s| then [s] else [s[..d]] + Split(s[d + 1..])
  {
    hide FirstDot;
  }

  lemma {:induction false} JoinConcat(a: seq<seq<byte>>, b: seq<seq<byte>>)
    requires |a| >= 1 && |b| >= 1
    ensures Join(a + b) == Join(a) + [DOT] + Join(b)
  {
    if |a| > 1 {
      assert (a + b)[1..] == a[1..] + b;
      JoinConcat(a[1..], b);
    } else {
      assert (a + b)[1..] == b;
    }
  }

  lemma {:induction false} LabelSuffixGivesText(n: seq<byte>, z: seq<byte>)
    requires IsSuffix(Split(z), Split(n)) && |Split(z)| < |Split(n)|
    ensures |n| > |z| && n[|n| - |z| - 1] == DOT && n[|n| - |z|..] == z
  {
    hide Split, Join;
    var ns, zs := Split(n), Split(z);
    var k := |ns| - |zs|;
    JoinSplit(n);
    JoinSplit(z);
    assert ns == ns[..k] + zs;
    JoinConcat(ns[..k], zs);
    var p := Join(ns[..k]);
    assert n == p + [DOT] + z;
    assert |n| - |z| - 1 == |p|;
  }

  lemma {:induction false} TextGivesLabelSuffix(p: seq<byte>, z: seq<byte>)
    ensures IsSuffix(Split(z), Split(p + [DOT] + z))
  {
    SplitConcat(p, z);
  }

  /** The zone's labels end the name's labels exactly when the text is the zone or
      ends with a dot and the zone. */
  lemma {:induction false} LabelSuffixIsTextSuffix(n: seq<byte>, z: seq<byte>)
    ensures IsSuffix(Split(z), Split(n)) <==>
            n == z || (|n| > |z| && n[|n| - |z| - 1] == DOT && n[|n| - |z|..] == z)
  {
    hide Split, Join;
    if IsSuffix(Split(z), Split(n)) {
      if |Split(z)| < |Split(n)| {
        LabelSuffixGivesText(n, z);
      } else {
        assert Split(n)[0..] == Split(n);
        JoinSplit(n);
        JoinSplit(z);
      }
    }
    if |n| > |z| && n[|n| - |z| - 1] == DOT && n[|n| - |z|..] == z {
      var p := n[..|n| - |z| - 1];
      assert n == p + [DOT] + z;
      TextGivesLabelSuffix(p, z);
    }
  }

  /** Zone containment is label-suffix containment, up to case, on every text except
      the one family where the name is a single dot in front of the zone. */
  lemma BailiwickIsLabelSuffix(name: seq<byte>, zone: seq<byte>)
    ensures InBailiwick(name, zone) <==>
            zone == [] || (IsSuffix(Labels(Lower(zone)), Labels(Lower(name))) && |name| != |zone| + 1)
  {
    var n, z := Lower(name), Lower(zone);
    LabelSuffixIsTextSuffix(n, z);
    if zone != [] {
      if |name| >= |zone| {
        var c := |name| - |zone|;
        assert n[c..] == Lower(name[c..]);
        if c > 0 { assert n[c - 1] == DOT <==> name[c - 1] == DOT; }
        if c == 0 { assert name[c..] == name && n[c..] == n; }
      }
      if name == [] { assert |Labels(n)| == 0; }
    }
  }

  lemma LeadingDotIsEmptyLabel(s: seq<byte>)
    requires s != [] && s[0] == DOT
    ensures !NoEmptyLabels(s)
  {
    assert Labels(s)[0] == [];
  }

  /** On names without empty labels containment is exactly label-suffix containment. */
  lemma BailiwickOnWellFormedNames(name: seq<byte>, zone: seq<byte>)
    requires NoEmptyLabels(name)
    ensures InBailiwick(name, zone) <==> IsSuffix(Labels(Lower(zone)), Labels(Lower(name)))
  {
    BailiwickIsLabelSuffix(name, zone);
    var n, z := Lower(name), Lower(zone);
    if zone == [] {
      assert Labels(z) == [];
      assert Labels(n)[|Labels(n)|..] == [];
    } else if name != [] && |name| == |zone| + 1 && IsSuffix(Labels(z), Labels(n)) {
      LabelSuffixIsTextSuffix(n, z);
      assert n[0] == DOT && name[0] == DOT;
      LeadingDotIsEmptyLabel(name);
    }
  }

  /** The text family on which the containment test and label suffixes disagree. */
  lemma BailiwickMissesLeadingDot(zone: seq<byte>)
    requires zone != []
    ensures !InBailiwick([DOT] + zone, zone)
    ensures IsSuffix(Labels(Lower(zone)), Labels(Lower([DOT] + zone)))
  {
    var z := Lower(zone);
    assert Lower([DOT] + zone) == [] + [DOT] + z;
    LabelSuffixIsTextSuffix(Lower([DOT] + zone), z);
  }

  lemma LowerSlice(s: seq<byte>, i: nat, j: nat)
    requires i <= j <= |s|
    ensures Lower(s[i..j]) == Lower(s)[i..j]
  {
  }

  lemma LowerJoined(a: seq<byte>, b: seq<byte>)
    ensures Lower(a + [DOT] + b) == Lower(a) + [DOT] + Lower(b)
  {
  }

  lemma NameEqSlice(a: seq<byte>, b: seq<byte>, i: nat, j: nat)
    requires NameEq(a, b) && i <= j <= |a|
    ensures |a| == |b| && NameEq(a[i..j], b[i..j])
    ensures forall k :: 0 <= k < |a| ==> (a[k] == DOT <==> b[k] == DOT)
  {
    assert |Lower(a)| == |Lower(b)|;
    LowerSlice(a, i, j);
    LowerSlice(b, i, j);
    forall k | 0 <= k < |a| ensures a[k] == DOT <==> b[k] == DOT {
      assert Lower(a)[k] == Lower(b)[k];
    }
  }

  /** Containment composes: a name under a zone under another zone is under both. */
  lemma BailiwickTransitive(n: seq<byte>, mid: seq<byte>, top: seq<byte>)
    requires InBailiwick(n, mid) && InBailiwick(mid, top)
    ensures InBailiwick(n, top)
  {
    if top != [] && mid != [] {
      var tail := n[|n| - |mid|..];
      assert |n| == |mid| ==> tail == n;
      NameEqSlice(tail, mid, |mid| - |top|, |mid|);
      assert tail[|mid| - |top|..|mid|] == n[|n| - |top|..];
      assert mid[|mid| - |top|..|mid|] == mid[|mid| - |top|..];
      if |mid| == |top| {
        assert mid[0..] == mid;
      } else {
        assert tail[|mid| - |top| - 1] == n[|n| - |top| - 1];
      }
      if |n| == |top| { assert n[0..] == n; }
    }
  }

  /** The bytes `w` stand in `msg` at `off`. */
  predicate At(msg: seq<byte>, off: nat, w: seq<byte>) {
    off + |w| <= |msg| && msg[off..off + |w|] == w
  }

  lemma AtSplit(msg: seq<byte>, off: nat, a: seq<byte>, b: seq<byte>)
    ensures At(msg, off, a + b) <==> At(msg, off, a) && At(msg, off + |a|, b)
  {
    if off + |a| + |b| <= |msg| {
      var whole := msg[off..off + |a| + |b|];
      assert whole[..|a|] == msg[off..off + |a|];
      assert whole[|a|..] == msg[off + |a|..off + |a| + |b|];
      assert (a + b)[..|a|] == a && (a + b)[|a|..] == b;
      assert whole == whole[..|a|] + whole[|a|..];
    }
  }

  function Min(a: nat, b: nat): (r: nat)
    ensures r <= a && r <= b && (r == a || r == b)
  {
    if a < b then a else b
  }

  /** The first n elements, or all of them. */
  function Cut<T>(s: seq<T>, n: nat): seq<T> {
    if |s| <= n then s else s[..n]
  }

  lemma CutIsFront<T>(s: seq<T>, n: nat)
    ensures Cut(s, n) <= s && |Cut(s, n)| == Min(|s|, n)
  {
  }

  /** All elements but one. */
  function Without<T>(s: seq<T>, i: nat): seq<T>
    requires i < |s|
  {
    s[..i] + s[i + 1..]
  }

  lemma Assoc<T>(a: seq<T>, b: seq<T>, c: seq<T>)
    ensures a + (b + c) == a + b + c
  {
  }

  lemma PrefixCons<T>(a: seq<T>, x: seq<T>, y: seq<T>)
    requires x <= y
    ensures a + x <= a + y
  {
  }
}
