/** Capability reports compared apart from their operable channels (c/src/agent.c, from line 424). */
module CapsIdentity {
  import opened Bytes
  import Tlvs
  import opened RadioCaps

  type Tlv = Tlvs.Tlv
  type Report = seq<Tlv>

  const BASIC: byte := 0x85
  const BUFFER := 256

  // ----- one value

  /** The classes with their channel lists erased. */
  function Strip(cs: seq<Class>): (r: seq<Class>)
    ensures |r| == |cs|
  {
    seq(|cs|, i requires 0 <= i < |cs| => cs[i].(channels := []))
  }

  function ChannelsOf(cs: seq<Class>): (r: seq<seq<byte>>)
    ensures |r| == |cs|
  {
    seq(|cs|, i requires 0 <= i < |cs| => cs[i].channels)
  }

  /** Each class and its EIRP, as basic_identity copies them. */
  function ClassPairs(cs: seq<Class>): seq<byte> {
    if cs == [] then []
    else
      var n := |cs| - 1;
      ClassPairs(cs[..n]) + [cs[n].kind, ToOctet(cs[n].maxEirp)]
  }

  predicate FitsBuffer(v: seq<byte>, size: nat) {
    WellFormed(v) && HEADER + 2 * (v[7] as int) <= size
  }

  function ClassesOf(v: seq<byte>): seq<Class>
    requires WellFormed(v)
  {
    ClassesAt(v, HEADER, v[7]).value
  }

  /** basic_identity: the value apart from its channel lists, unless malformed or too long. */
  function IdentityOf(v: seq<byte>, size: nat): Option<seq<byte>> {
    if FitsBuffer(v, size) then Some(v[..HEADER] + ClassPairs(ClassesOf(v))) else None
  }

  /** The radio a value describes, every channel list erased. */
  function Erase(v: seq<byte>): Radio
    requires WellFormed(v)
  {
    Radio(v[..6], v[6], Strip(ClassesOf(v)))
  }

  lemma {:induction false} PairsIffStrip(cs: seq<Class>, ds: seq<Class>)
    requires |cs| == |ds|
    ensures |ClassPairs(cs)| == 2 * |cs|
    ensures ClassPairs(cs) == ClassPairs(ds) <==> Strip(cs) == Strip(ds)
    decreases |cs|
  {
    if cs != [] {
      var n := |cs| - 1;
      var a, b := ClassPairs(cs[..n]), ClassPairs(ds[..n]);
      PairsIffStrip(cs[..n], ds[..n]);
      PairsIffStrip(ds[..n], ds[..n]);
      OctetsOfPair(cs[n], ds[n]);
      SplitEqual(a, b, [cs[n].kind, ToOctet(cs[n].maxEirp)], [ds[n].kind, ToOctet(ds[n].maxEirp)]);
      StripSnoc(cs, ds);
    }
  }

  lemma OctetsOfPair(c: Class, d: Class)
    ensures c.kind == d.kind && ToOctet(c.maxEirp) == ToOctet(d.maxEirp) <==> c.(channels := []) == d.(channels := [])
  {
  }

  lemma StripSnoc(cs: seq<Class>, ds: seq<Class>)
    requires |cs| == |ds| > 0
    ensures var n := |cs| - 1;
            Strip(cs) == Strip(ds)
            <==> Strip(cs[..n]) == Strip(ds[..n]) && cs[n].(channels := []) == ds[n].(channels := [])
  {
    var n := |cs| - 1;
    var a, b, c, d := Strip(cs[..n]), Strip(ds[..n]), Strip(cs), Strip(ds);
    assert c == a + [cs[n].(channels := [])] && d == b + [ds[n].(channels := [])];
    assert c[..n] == a && d[..n] == b && c[n] == cs[n].(channels := []) && d[n] == ds[n].(channels := []);
  }

  lemma SplitEqual(a: seq<byte>, b: seq<byte>, x: seq<byte>, y: seq<byte>)
    requires |a| == |b| && |x| == |y| == 2
    ensures a + x == b + y <==> a == b && x[0] == y[0] && x[1] == y[1]
  {
    if a + x == b + y {
      assert (a + x)[..|a|] == a && (b + y)[..|a|] == b;
      assert (a + x)[|a|] == x[0] && (b + y)[|a|] == y[0];
      assert (a + x)[|a| + 1] == x[1] && (b + y)[|a| + 1] == y[1];
    }
  }

  lemma {:induction false} ClassCount(v: seq<byte>)
    requires WellFormed(v)
    ensures |ClassesOf(v)| == v[7] && Encodable(ClassesOf(v)) && v[HEADER..] == EncodeClasses(ClassesOf(v))
  {
    ClassesIffEncoded(v, HEADER, v[7], ClassesOf(v));
  }

  lemma {:induction false} PairAt(cs: seq<Class>, k: nat)
    requires k < |cs|
    ensures |ClassPairs(cs)| == 2 * |cs|
    ensures ClassPairs(cs)[2 * k] == cs[k].kind && ClassPairs(cs)[2 * k + 1] == ToOctet(cs[k].maxEirp)
    decreases |cs|
  {
    var n := |cs| - 1;
    PairsIffStrip(cs[..n], cs[..n]);
    if k < n {
      PairAt(cs[..n], k);
    }
  }

  /** The identity, octet by octet: the value's first eight, then each class and its EIRP. */
  lemma {:induction false} IdentityOctets(v: seq<byte>, size: nat, k: nat)
    requires FitsBuffer(v, size) && k < v[7]
    ensures var id := IdentityOf(v, size).value;
            && |ClassesOf(v)| == v[7] && ClassOctets(v, 8, ClassesOf(v))
            && |id| == 8 + 2 * (v[7] as int) && id[..8] == v[..8]
            && id[8 + 2 * k] == ClassesOf(v)[k].kind && id[9 + 2 * k] == ToOctet(ClassesOf(v)[k].maxEirp)
  {
    ClassCount(v);
    OctetsIffEncoded(v, 8, ClassesOf(v));
    PairAt(ClassesOf(v), k);
  }

  /** A value has an identity if and only if it holds as many classes as its header says, and two octets of each fit. */
  lemma {:induction false} IdentityIff(v: seq<byte>, size: nat)
    ensures IdentityOf(v, size).Some?
       <==> 8 <= |v| && 8 + 2 * (v[7] as int) <= size && exists cs :: |cs| == v[7] && ClassOctets(v, 8, cs)
  {
    if 8 <= |v| {
      forall cs
        ensures ClassesAt(v, 8, v[7]) == Some(cs) <==> |cs| == v[7] && ClassOctets(v, 8, cs)
      {
        ClassesIffEncoded(v, 8, v[7], cs);
        OctetsIffEncoded(v, 8, cs);
      }
    }
  }

  /** Two values have the same identity exactly when they agree once the channel lists are erased. */
  lemma {:induction false} IdentityIffErased(v: seq<byte>, w: seq<byte>, size: nat)
    requires FitsBuffer(v, size) && FitsBuffer(w, size)
    ensures IdentityOf(v, size) == IdentityOf(w, size) <==> Erase(v) == Erase(w)
  {
    var cs, ds := ClassesOf(v), ClassesOf(w);
    ClassCount(v);
    ClassCount(w);
    HeaderEqual(v, w);
    PairsEqual(v[..HEADER], w[..HEADER], ClassPairs(cs), ClassPairs(ds));
    if |cs| == |ds| {
      PairsIffStrip(cs, ds);
    }
  }

  lemma HeaderEqual(v: seq<byte>, w: seq<byte>)
    requires HEADER <= |v| && HEADER <= |w|
    ensures v[..HEADER] == w[..HEADER] <==> v[..6] == w[..6] && v[6] == w[6] && v[7] == w[7]
  {
    assert v[..HEADER] == v[..6] + [v[6], v[7]] && w[..HEADER] == w[..6] + [w[6], w[7]];
    assert v[..6] == v[..HEADER][..6] && w[..6] == w[..HEADER][..6];
    assert v[6] == v[..HEADER][6] && w[6] == w[..HEADER][6] && v[7] == v[..HEADER][7] && w[7] == w[..HEADER][7];
  }

  lemma PairsEqual(a: seq<byte>, b: seq<byte>, x: seq<byte>, y: seq<byte>)
    requires |a| == |b|
    ensures a + x == b + y <==> a == b && x == y
  {
    if a + x == b + y {
      assert (a + x)[..|a|] == a && (b + y)[..|a|] == b;
      assert (a + x)[|a|..] == x && (b + y)[|a|..] == y;
    }
  }

  /** Of two values with the same identity, the octets differ exactly when the channel lists do. */
  lemma {:induction false} DifferIffChannels(v: seq<byte>, w: seq<byte>)
    requires WellFormed(v) && WellFormed(w) && Erase(v) == Erase(w)
    ensures v != w <==> ChannelsOf(ClassesOf(v)) != ChannelsOf(ClassesOf(w))
  {
    var cs, ds := ClassesOf(v), ClassesOf(w);
    ClassCount(v);
    ClassCount(w);
    if ChannelsOf(cs) == ChannelsOf(ds) {
      forall i | 0 <= i < |cs|
        ensures cs[i] == ds[i]
      {
        assert ChannelsOf(cs)[i] == ChannelsOf(ds)[i] && Strip(cs)[i] == Strip(ds)[i];
      }
      assert cs == ds;
      HeaderEqual(v, w);
      assert v == v[..HEADER] + v[HEADER..] && w == w[..HEADER] + w[HEADER..];
    }
  }

  // ----- whole reports

  predicate SameTlv(p: Tlv, q: Tlv) {
    && p.kind == q.kind
    && if p.kind == BASIC then
         IdentityOf(p.value, BUFFER).Some? && IdentityOf(p.value, BUFFER) == IdentityOf(q.value, BUFFER)
       else p.value == q.value
  }

  /** same_identity. */
  predicate SameIdentity(x: Report, y: Report) {
    |x| == |y| && forall i :: 0 <= i < |x| ==> SameTlv(x[i], y[i])
  }

  /** A report the comparison can handle: its radios are well formed and fit the buffer. */
  predicate Comparable(x: Report) {
    forall i :: 0 <= i < |x| && x[i].kind == 0x85 ==> FitsBuffer(x[i].value, 256)
  }

  datatype Kept = Whole(t: Tlv) | Erased(radio: Radio) | Unusable

  function KeptOf(t: Tlv): Kept {
    if t.kind != 0x85 then Whole(t)
    else if FitsBuffer(t.value, 256) then Erased(Erase(t.value))
    else Unusable
  }

  /** The report with every channel list erased. */
  function ErasedReport(x: Report): (r: seq<Kept>)
    ensures |r| == |x| && forall i :: 0 <= i < |x| ==> r[i] == KeptOf(x[i])
  {
    seq(|x|, i requires 0 <= i < |x| => KeptOf(x[i]))
  }

  lemma SameTlvIffKept(p: Tlv, q: Tlv)
    ensures SameTlv(p, q) <==> KeptOf(p) == KeptOf(q) && KeptOf(p) != Unusable
  {
    if p.kind == BASIC && q.kind == BASIC && FitsBuffer(p.value, BUFFER) && FitsBuffer(q.value, BUFFER) {
      IdentityIffErased(p.value, q.value, BUFFER);
    }
  }

  /** Reports have the same identity exactly when they are comparable and equal after erasing the channel lists. */
  lemma {:induction false} SameIdentityIffErased(x: Report, y: Report)
    ensures SameIdentity(x, y) <==> Comparable(x) && Comparable(y) && ErasedReport(x) == ErasedReport(y)
  {
    forall i | 0 <= i < |x| && i < |y|
      ensures SameTlv(x[i], y[i]) <==> KeptOf(x[i]) == KeptOf(y[i]) && KeptOf(x[i]) != Unusable
    {
      SameTlvIffKept(x[i], y[i]);
    }
    if SameIdentity(x, y) {
      forall i | 0 <= i < |x|
        ensures KeptOf(x[i]) == KeptOf(y[i]) && KeptOf(x[i]) != Unusable
      {
        assert SameTlv(x[i], y[i]);
      }
    }
    if Comparable(x) && Comparable(y) && ErasedReport(x) == ErasedReport(y) {
      forall i | 0 <= i < |x|
        ensures SameTlv(x[i], y[i])
      {
        assert ErasedReport(x)[i] == ErasedReport(y)[i];
      }
    }
  }

  /** On comparable reports the comparison is an equivalence; no other report is even its own like. */
  lemma {:induction false} SameIdentityEquivalence(x: Report, y: Report, z: Report)
    ensures SameIdentity(x, x) <==> Comparable(x)
    ensures SameIdentity(x, y) ==> SameIdentity(y, x)
    ensures SameIdentity(x, y) && SameIdentity(y, z) ==> SameIdentity(x, z)
  {
    SameIdentityIffErased(x, x);
    SameIdentityIffErased(x, y);
    SameIdentityIffErased(y, x);
    SameIdentityIffErased(y, z);
    SameIdentityIffErased(x, z);
  }

  // ----- the radios that moved

  /** operable_moved's test of one pair of TLVs. */
  predicate Changed(p: Tlv, q: Tlv) {
    p.kind == BASIC && q.kind == BASIC && |p.value| >= 6 && p.value != q.value
  }

  /** The RUIDs operable_moved has collected after `i` TLVs. */
  function Moved(x: Report, y: Report, i: nat, max: nat): (r: seq<seq<byte>>)
    requires i <= |x| && i <= |y|
    requires forall k :: 0 <= k < i && Changed(x[k], y[k]) ==> |y[k].value| >= 6
    ensures |r| <= max
  {
    if i == 0 then []
    else
      var before := Moved(x, y, i - 1, max);
      if |before| < max && Changed(x[i - 1], y[i - 1]) then before + [y[i - 1].value[..6]] else before
  }

  /** The radio's channel lists differ between the two reports. */
  predicate ChannelsDiffer(p: Tlv, q: Tlv) {
    && p.kind == 0x85 && q.kind == 0x85 && WellFormed(p.value) && WellFormed(q.value)
    && ChannelsOf(ClassesOf(p.value)) != ChannelsOf(ClassesOf(q.value))
  }

  /** The RUIDs of the radios whose channel lists differ, in report order. */
  function DifferingRadios(x: Report, y: Report, i: nat): seq<seq<byte>>
    requires i <= |x| && i <= |y|
  {
    if i == 0 then []
    else
      DifferingRadios(x, y, i - 1)
      + (if ChannelsDiffer(x[i - 1], y[i - 1]) then [y[i - 1].value[..6]] else [])
  }

  lemma ChangedIffDiffer(p: Tlv, q: Tlv)
    requires SameTlv(p, q)
    ensures Changed(p, q) <==> ChannelsDiffer(p, q)
    ensures Changed(p, q) ==> |q.value| >= 6 && q.value[..6] == p.value[..6]
  {
    if p.kind == BASIC {
      IdentityIffErased(p.value, q.value, BUFFER);
      DifferIffChannels(p.value, q.value);
    }
  }

  lemma SameIsUsable(x: Report, y: Report)
    requires SameIdentity(x, y)
    ensures forall k :: 0 <= k < |x| && Changed(x[k], y[k]) ==> |y[k].value| >= 6
  {
    forall k | 0 <= k < |x|
      ensures Changed(x[k], y[k]) ==> |y[k].value| >= 6
    {
      assert SameTlv(x[k], y[k]);
      ChangedIffDiffer(x[k], y[k]);
    }
  }

  /** Between reports of one identity, the radios reported are the first that moved, in order, up to the cap. */
  lemma {:induction false} MovedExactly(x: Report, y: Report, i: nat, max: nat)
    requires SameIdentity(x, y) && i <= |x|
    requires forall k :: 0 <= k < |x| && Changed(x[k], y[k]) ==> |y[k].value| >= 6
    ensures var all := DifferingRadios(x, y, i); Moved(x, y, i, max) == all[..Min(max, |all|)]
    decreases i
  {
    if i > 0 {
      MovedExactly(x, y, i - 1, max);
      assert SameTlv(x[i - 1], y[i - 1]);
      ChangedIffDiffer(x[i - 1], y[i - 1]);
    }
  }

  // ----- the loops

  /** The classes of a value are those before `off` and those the walk still finds. */
  ghost predicate Walked(v: seq<byte>, off: nat, left: nat, done: seq<Class>, whole: Option<seq<Class>>) {
    if off > |v| then whole.None?
    else
      var rest := ClassesAt(v, off, left);
      if rest.None? then whole.None? else whole == Some(done + rest.value)
  }

  lemma WalkedNext(v: seq<byte>, off: nat, left: nat, done: seq<Class>, whole: Option<seq<Class>>) returns (c: Class)
    requires left > 0 && off + 3 <= |v| && Walked(v, off, left, done, whole)
    ensures c.kind == v[off] && ToOctet(c.maxEirp) == v[off + 1]
    ensures Walked(v, off + 3 + v[off + 2], left - 1, done + [c], whole)
  {
    var end := off + 3 + v[off + 2];
    if end > |v| {
      c := Class(v[off], FromOctet(v[off + 1]), []);
    } else {
      c := Class(v[off], FromOctet(v[off + 1]), v[off + 3..end]);
      var rest := ClassesAt(v, end, left - 1);
      if rest.Some? {
        assert done + ([c] + rest.value) == (done + [c]) + rest.value;
      }
    }
  }

  lemma ClassPairsSnoc(cs: seq<Class>, c: Class)
    ensures ClassPairs(cs + [c]) == ClassPairs(cs) + [c.kind, ToOctet(c.maxEirp)]
  {
    assert (cs + [c])[..|cs|] == cs;
  }

  /** basic_identity. */
  method BasicIdentity(v: seq<byte>, size: nat) returns (out: Option<seq<byte>>)
    ensures out == IdentityOf(v, size)
  {
    if |v| < HEADER || size < HEADER {
      return None;
    }
    var off: nat, id := HEADER, v[..HEADER];
    ghost var whole, done: seq<Class>, left := ClassesAt(v, HEADER, v[7]), [], v[7];
    WalkedStart(v);
    for k := 0 to v[7]
      invariant left == v[7] - k && |done| == k
      invariant Walked(v, off, left, done, whole)
      invariant id == v[..HEADER] + ClassPairs(done) && |id| == HEADER + 2 * k <= size
    {
      if off + 3 > |v| || |id| + 2 > size {
        if off + 3 > |v| {
          StoppedShort(v, off, left, done, whole);
        }
        return None;
      }
      var c := WalkedNext(v, off, left, done, whole);
      ClassPairsSnoc(done, c);
      id := id + [v[off], v[off + 1]];
      off := off + 3 + v[off + 2];
      done, left := done + [c], left - 1;
    }
    WalkedEnd(v, off, done, whole);
    return if off == |v| then Some(id) else None;
  }

  lemma WalkedStart(v: seq<byte>)
    requires HEADER <= |v|
    ensures Walked(v, HEADER, v[7], [], ClassesAt(v, HEADER, v[7]))
  {
    var rest := ClassesAt(v, HEADER, v[7]);
    if rest.Some? {
      assert [] + rest.value == rest.value;
    }
  }

  lemma StoppedShort(v: seq<byte>, off: nat, left: nat, done: seq<Class>, whole: Option<seq<Class>>)
    requires left > 0 && Walked(v, off, left, done, whole) && off + 3 > |v|
    ensures whole.None?
  {
  }

  lemma WalkedEnd(v: seq<byte>, off: nat, done: seq<Class>, whole: Option<seq<Class>>)
    requires Walked(v, off, 0, done, whole)
    ensures if off == |v| then whole == Some(done) else whole.None?
  {
    assert done + [] == done;
  }

  /** same_identity. */
  method CompareReports(x: Report, y: Report) returns (same: bool)
    ensures same <==> SameIdentity(x, y)
  {
    if |x| != |y| {
      return false;
    }
    for i := 0 to |x|
      invariant forall j :: 0 <= j < i ==> SameTlv(x[j], y[j])
    {
      var p, q := x[i], y[i];
      if p.kind != q.kind {
        return false;
      }
      if p.kind == BASIC {
        var ip := BasicIdentity(p.value, BUFFER);
        var iq := BasicIdentity(q.value, BUFFER);
        if ip.None? || ip != iq {
          assert !SameTlv(x[i], y[i]);
          return false;
        }
      } else if p.value != q.value {
        assert !SameTlv(x[i], y[i]);
        return false;
      }
    }
    return true;
  }

  /** operable_moved, for two reports of one identity: the first radios whose channel lists differ. */
  method OperableMoved(x: Report, y: Report, max: nat) returns (out: seq<seq<byte>>)
    requires SameIdentity(x, y)
    ensures var all := DifferingRadios(x, y, |x|); out == all[..Min(max, |all|)]
  {
    out := [];
    SameIsUsable(x, y);
    var i := 0;
    while i < |x| && i < |y| && |out| < max
      invariant i <= |x| && out == Moved(x, y, i, max)
    {
      if Changed(x[i], y[i]) {
        out := out + [y[i].value[..6]];
      }
      i := i + 1;
    }
    MovedExactly(x, y, |x|, max);
    if i < |x| {
      FullStays(x, y, i, |x|, max);
    }
  }

  lemma {:induction false} FullStays(x: Report, y: Report, i: nat, j: nat, max: nat)
    requires i <= j <= |x| && j <= |y|
    requires forall k :: 0 <= k < j && Changed(x[k], y[k]) ==> |y[k].value| >= 6
    requires |Moved(x, y, i, max)| == max
    ensures Moved(x, y, j, max) == Moved(x, y, i, max)
    decreases j - i
  {
    if i < j {
      FullStays(x, y, i, j - 1, max);
    }
  }
}
