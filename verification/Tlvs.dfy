/** The TLVs of a CMDU payload: encoding, sizes and the payload parser (c/src/cmdu.c). */
module Tlvs {
  import opened Bytes

  const MAX_VALUE := 0x3FFF
  const MAX_TLVS := 256
  const END: seq<byte> := [0, 0, 0]

  datatype Tlv = Tlv(kind: byte, value: seq<byte>)

  predicate Encodable(t: Tlv) {
    t.kind != 0 && |t.value| <= MAX_VALUE
  }

  predicate AllEncodable(ts: seq<Tlv>) {
    forall i :: 0 <= i < |ts| ==> Encodable(ts[i])
  }

  /** Octets of one TLV on the wire. */
  function TlvSize(t: Tlv): nat {
    3 + |t.value|
  }

  function Size(ts: seq<Tlv>): nat {
    if ts == [] then 0 else TlvSize(ts[0]) + Size(ts[1..])
  }

  function EncodeTlv(t: Tlv): (r: seq<byte>)
    requires |t.value| <= MAX_VALUE
    ensures |r| == TlvSize(t)
  {
    [t.kind] + U16(|t.value|) + t.value
  }

  function Encode(ts: seq<Tlv>): (r: seq<byte>)
    requires AllEncodable(ts)
    ensures |r| == Size(ts)
  {
    if ts == [] then [] else EncodeTlv(ts[0]) + Encode(ts[1..])
  }

  lemma {:induction false} SizeAppend(a: seq<Tlv>, b: seq<Tlv>)
    ensures Size(a + b) == Size(a) + Size(b)
  {
    if a == [] {
      assert a + b == b;
    } else {
      assert (a + b)[0] == a[0] && (a + b)[1..] == a[1..] + b;
      SizeAppend(a[1..], b);
    }
  }

  lemma {:induction false} EncodeAppend(a: seq<Tlv>, t: Tlv)
    requires AllEncodable(a) && Encodable(t)
    ensures AllEncodable(a + [t])
    ensures Encode(a + [t]) == Encode(a) + EncodeTlv(t)
  {
    if a == [] {
      assert a + [t] == [t];
      assert Encode([t]) == EncodeTlv(t) + Encode([]);
    } else {
      assert (a + [t])[0] == a[0] && (a + [t])[1..] == a[1..] + [t];
      EncodeAppend(a[1..], t);
      assert Encode(a + [t]) == EncodeTlv(a[0]) + (Encode(a[1..]) + EncodeTlv(t));
    }
  }

  /** The length field of the TLV header at `at`: its two reserved bits are masked off. */
  function LengthAt(p: seq<byte>, at: nat): (n: nat)
    requires at + 3 <= |p|
    ensures n <= MAX_VALUE
  {
    FromU16(p[at + 1], p[at + 2]) % 0x4000
  }

  /** The low six bits of the first octet, then the second. */
  function Masked(hi: nat, lo: nat): nat {
    hi % 64 * 256 + lo
  }

  /** The length field, octet by octet: the reserved bits are the top two. */
  lemma LengthOctets(p: seq<byte>, at: nat)
    requires at + 3 <= |p|
    ensures LengthAt(p, at) == Masked(p[at + 1], p[at + 2])
  {
    var hi, lo := p[at + 1], p[at + 2];
    assert FromU16(hi, lo) == hi / 64 * 0x4000 + Masked(hi, lo);
  }

  /**
   * What a fragment payload denotes from offset `at` on, `count` TLVs of it being taken
   * already: a final fragment ends in an end marker with padding allowed after it, another
   * one holds at least one TLV and no end marker.
   */
  function Parse(p: seq<byte>, at: nat, final: bool, count: nat): Option<seq<Tlv>>
    requires at <= |p|
    decreases |p| - at
  {
    if at == |p| then
      if final || count == 0 then None else Some([])
    else if at + 3 > |p| then None
    else if p[at] == 0 then
      if LengthAt(p, at) != 0 || !final then None else Some([])
    else
      var end := at + 3 + LengthAt(p, at);
      if end > |p| || count >= MAX_TLVS then None
      else Cons(Tlv(p[at], p[at + 3..end]), Parse(p, end, final, count + 1))
  }

  function Cons(t: Tlv, rest: Option<seq<Tlv>>): Option<seq<Tlv>> {
    if rest.None? then None else Some([t] + rest.value)
  }

  /**
   * The payload grammar, led by the TLV list: each TLV's kind, masked length and value in
   * turn, then the end marker (and any padding) of a final fragment, or nothing.
   */
  ghost predicate Spells(p: seq<byte>, at: nat, final: bool, ts: seq<Tlv>)
    requires at <= |p|
    decreases |ts|
  {
    if ts == [] then
      if final then at + 3 <= |p| && p[at] == 0 && LengthAt(p, at) == 0 else at == |p|
    else
      var end := at + TlvSize(ts[0]);
      && end <= |p| && ts[0].kind != 0
      && p[at] == ts[0].kind && LengthAt(p, at) == |ts[0].value| && p[at + 3..end] == ts[0].value
      && Spells(p, end, final, ts[1..])
  }

  /** The parser accepts exactly the grammar, within the TLV limit, and yields the one list spelt. */
  lemma {:induction false} ParseIffSpells(p: seq<byte>, at: nat, final: bool, count: nat, ts: seq<Tlv>)
    requires at <= |p| && count <= MAX_TLVS
    ensures Parse(p, at, final, count) == Some(ts)
       <==> Spells(p, at, final, ts) && count + |ts| <= MAX_TLVS && (final || count + |ts| > 0)
    decreases |p| - at
  {
    if at + 3 <= |p| && p[at] != 0 && at + 3 + LengthAt(p, at) <= |p| && count < MAX_TLVS {
      var end := at + 3 + LengthAt(p, at);
      if ts != [] {
        ParseIffSpells(p, end, final, count + 1, ts[1..]);
        assert ts == [ts[0]] + ts[1..];
      }
      var rest := Parse(p, end, final, count + 1);
      if rest.Some? {
        assert ([Tlv(p[at], p[at + 3..end])] + rest.value)[1..] == rest.value;
      }
    }
  }

  /** A spelt list is encodable, and the payload is no shorter than its encoding. */
  lemma {:induction false} SpellsBounds(p: seq<byte>, at: nat, final: bool, ts: seq<Tlv>)
    requires at <= |p| && Spells(p, at, final, ts)
    ensures AllEncodable(ts)
    ensures at + Size(ts) + (if final then 3 else 0) <= |p|
    decreases |ts|
  {
    if ts != [] {
      SpellsBounds(p, at + TlvSize(ts[0]), final, ts[1..]);
    }
  }

  lemma EncodedHead(p: seq<byte>, at: nat, ts: seq<Tlv>, rest: seq<byte>, final: bool)
    requires ts != [] && Encodable(ts[0]) && at <= |p| && p[at..] == EncodeTlv(ts[0]) + rest
    ensures var end := at + TlvSize(ts[0]);
            && end <= |p| && p[end..] == rest
            && (Spells(p, end, final, ts[1..]) ==> Spells(p, at, final, ts))
  {
    var t := ts[0];
    var q := EncodeTlv(t) + rest;
    assert q[0] == t.kind && q[1] == U16(|t.value|)[0] && q[2] == U16(|t.value|)[1];
    assert q[3..TlvSize(t)] == t.value && q[TlvSize(t)..] == rest;
    assert p[at] == p[at..][0] && p[at + 1] == p[at..][1] && p[at + 2] == p[at..][2];
    assert p[at + 3..at + TlvSize(t)] == p[at..][3..TlvSize(t)];
    assert p[at + TlvSize(t)..] == p[at..][TlvSize(t)..];
  }

  /** A fragment's tail after its TLVs: nothing, or the end marker and any padding. */
  predicate IsTail(final: bool, tail: seq<byte>) {
    if final then END <= tail else tail == []
  }

  lemma TailSpells(p: seq<byte>, at: nat, final: bool, tail: seq<byte>)
    requires at <= |p| && p[at..] == tail && IsTail(final, tail)
    ensures Spells(p, at, final, [])
  {
    if final {
      assert p[at] == tail[0] && p[at + 1] == tail[1] && p[at + 2] == tail[2];
      assert tail[0] == END[0] && tail[1] == END[1] && tail[2] == END[2];
    }
  }

  /** Every encoded list is spelt by its encoding and a fitting tail. */
  lemma {:induction false} EncodeSpells(p: seq<byte>, at: nat, ts: seq<Tlv>, final: bool, tail: seq<byte>)
    requires AllEncodable(ts) && at <= |p| && p[at..] == Encode(ts) + tail && IsTail(final, tail)
    ensures Spells(p, at, final, ts)
    decreases |ts|
  {
    if ts == [] {
      assert [] + tail == tail;
      TailSpells(p, at, final, tail);
    } else {
      EncodedNext(p, at, ts, final, tail);
      EncodeSpells(p, at + TlvSize(ts[0]), ts[1..], final, tail);
    }
  }

  lemma {:induction false} EncodedNext(p: seq<byte>, at: nat, ts: seq<Tlv>, final: bool, tail: seq<byte>)
    requires ts != [] && AllEncodable(ts) && at <= |p| && p[at..] == Encode(ts) + tail
    ensures var end := at + TlvSize(ts[0]);
            && end <= |p| && p[end..] == Encode(ts[1..]) + tail
            && (Spells(p, end, final, ts[1..]) ==> Spells(p, at, final, ts))
  {
    Associative(EncodeTlv(ts[0]), Encode(ts[1..]), tail);
    EncodedHead(p, at, ts, Encode(ts[1..]) + tail, final);
  }

  /** From `at` on, octet by octet: each TLV's kind, length and value, then three zeros if final, and no more. */
  ghost predicate Octets(p: seq<byte>, at: nat, ts: seq<Tlv>, final: bool)
    requires at <= |p|
    decreases |ts|
  {
    if ts == [] then p[at..] == if final then [0, 0, 0] else []
    else OctetsOf(p, at, ts[0]) && Octets(p, at + 3 + |ts[0].value|, ts[1..], final)
  }

  predicate OctetsOf(p: seq<byte>, at: nat, t: Tlv) {
    var n := |t.value|;
    && at + 3 + n <= |p| && p[at] == t.kind && p[at + 1] == n / 256 && p[at + 2] == n % 256
    && p[at + 3..at + 3 + n] == t.value
  }

  lemma HeadOctets(p: seq<byte>, at: nat, t: Tlv, rest: seq<byte>)
    requires at <= |p| && Encodable(t) && p[at..] == EncodeTlv(t) + rest
    ensures OctetsOf(p, at, t) && p[at + 3 + |t.value|..] == rest
  {
    var q, n := EncodeTlv(t) + rest, |t.value|;
    U16Octets(n);
    assert q == [t.kind, U16(n)[0], U16(n)[1]] + (t.value + rest);
    assert p[at] == p[at..][0] && p[at + 1] == p[at..][1] && p[at + 2] == p[at..][2];
    DropSlice(p, at, 3, 3 + n);
    assert q[3..3 + n] == t.value && q[3 + n..] == rest;
  }

  lemma DropSlice(p: seq<byte>, at: nat, i: nat, j: nat)
    requires i <= j && at + j <= |p|
    ensures p[at + i..at + j] == p[at..][i..j] && p[at + j..] == p[at..][j..]
  {
  }

  /** What is sent of a list of TLVs, octet by octet. */
  lemma {:induction false} EncodedOctets(p: seq<byte>, at: nat, ts: seq<Tlv>, final: bool)
    requires AllEncodable(ts) && at <= |p| && p[at..] == Encode(ts) + Ending(final)
    ensures Octets(p, at, ts, final)
    decreases |ts|
  {
    if ts != [] {
      EncodedFirst(p, at, ts, final);
      EncodedOctets(p, at + 3 + |ts[0].value|, ts[1..], final);
    }
  }

  lemma {:induction false} EncodedFirst(p: seq<byte>, at: nat, ts: seq<Tlv>, final: bool)
    requires ts != [] && AllEncodable(ts) && at <= |p| && p[at..] == Encode(ts) + Ending(final)
    ensures OctetsOf(p, at, ts[0]) && p[at + 3 + |ts[0].value|..] == Encode(ts[1..]) + Ending(final)
  {
    Associative(EncodeTlv(ts[0]), Encode(ts[1..]), Ending(final));
    HeadOctets(p, at, ts[0], Encode(ts[1..]) + Ending(final));
  }

  /** The end marker of a final fragment. */
  function Ending(final: bool): seq<byte> {
    if final then END else []
  }

  /** The TLVs of a whole fragment payload (parse_tlvs). */
  function Payload(p: seq<byte>, final: bool): Option<seq<Tlv>> {
    Parse(p, 0, final, 0)
  }

  /** Parsing undoes encoding, whatever padding follows a final fragment's end marker. */
  lemma PayloadEncoded(ts: seq<Tlv>, final: bool, tail: seq<byte>)
    requires AllEncodable(ts) && |ts| <= MAX_TLVS
    requires IsTail(final, tail) && (final || ts != [])
    ensures Payload(Encode(ts) + tail, final) == Some(ts)
  {
    var p := Encode(ts) + tail;
    assert p[0..] == p;
    EncodeSpells(p, 0, ts, final, tail);
    ParseIffSpells(p, 0, final, 0, ts);
  }

  /** What the parser yields is encodable and within the TLV limit. */
  lemma PayloadBounds(p: seq<byte>, final: bool)
    requires Payload(p, final).Some?
    ensures var ts := Payload(p, final).value;
            AllEncodable(ts) && |ts| <= MAX_TLVS && Size(ts) <= |p|
  {
    var ts := Payload(p, final).value;
    ParseIffSpells(p, 0, final, 0, ts);
    SpellsBounds(p, 0, final, ts);
  }

  /** `rest` completes the TLVs taken so far to `whole`. */
  ghost predicate Completes(whole: Option<seq<Tlv>>, taken: seq<Tlv>, rest: Option<seq<Tlv>>) {
    if rest.None? then whole.None? else whole.Some? && taken + rest.value == whole.value
  }

  lemma CompletesNext(whole: Option<seq<Tlv>>, taken: seq<Tlv>, t: Tlv, rest: Option<seq<Tlv>>)
    requires Completes(whole, taken, Cons(t, rest))
    ensures Completes(whole, taken + [t], rest)
  {
    if rest.Some? {
      assert taken + ([t] + rest.value) == (taken + [t]) + rest.value;
    }
  }

  lemma {:induction false} TakeNext(p: seq<byte>, at: nat, final: bool, taken: seq<Tlv>, whole: Option<seq<Tlv>>,
                                    t: Tlv, len: nat)
    requires at + 3 <= |p| && p[at] != 0 && len == LengthAt(p, at) && at + 3 + len <= |p| && |taken| < MAX_TLVS
    requires t == Tlv(p[at], p[at + 3..at + 3 + len]) && Completes(whole, taken, Parse(p, at, final, |taken|))
    ensures Completes(whole, taken + [t], Parse(p, at + 3 + len, final, |taken + [t]|))
  {
    CompletesNext(whole, taken, t, Parse(p, at + 3 + len, final, |taken| + 1));
  }

  /** parse_tlvs: the loop over the payload, proved against `Parse`. */
  method ParseTlvs(p: seq<byte>, final: bool) returns (r: Option<seq<Tlv>>)
    ensures r == Payload(p, final)
  {
    var offset, tlvs := 0, [];
    ghost var whole := Payload(p, final);
    while offset < |p|
      invariant 0 <= offset <= |p|
      invariant Completes(whole, tlvs, Parse(p, offset, final, |tlvs|))
    {
      if |p| - offset < 3 {
        return None;
      }
      var kind := p[offset];
      var len := FromU16(p[offset + 1], p[offset + 2]) % 0x4000;
      if kind == 0 {
        if len != 0 || !final {
          return None;
        }
        assert tlvs + [] == tlvs;
        return Some(tlvs);
      }
      if offset + 3 + len > |p| || |tlvs| >= MAX_TLVS {
        return None;
      }
      var t := Tlv(kind, p[offset + 3..offset + 3 + len]);
      TakeNext(p, offset, final, tlvs, whole, t, len);
      tlvs := tlvs + [t];
      offset := offset + 3 + len;
    }
    if final || tlvs == [] {
      return None;
    }
    assert tlvs + [] == tlvs;
    return Some(tlvs);
  }
}
