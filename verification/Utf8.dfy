/** UTF-8 as the printer reads it (utf8_next, c/src/canon.c) and as RFC 3629 writes it. */
module Utf8 {
  import opened Bytes

  /** A C string: the octets before its terminating NUL. */
  predicate NoNul(s: seq<byte>) {
    forall i :: 0 <= i < |s| ==> s[i] != 0
  }

  /** The octet at `i`: the terminator just past the end. */
  function At(s: seq<byte>, i: nat): byte {
    if i < |s| then s[i] else 0
  }

  datatype Lead = BadLead | Lead(bits: nat, more: nat)

  function LeadOf(b: byte): Lead {
    if b < 0x80 then Lead(b, 0)
    else if 0xC0 <= b < 0xE0 then Lead(b - 0xC0, 1)
    else if 0xE0 <= b < 0xF0 then Lead(b - 0xE0, 2)
    else if 0xF0 <= b < 0xF8 then Lead(b - 0xF0, 3)
    else BadLead
  }

  predicate Continuation(b: byte) {
    0x80 <= b < 0xC0
  }

  /** The value after `more` continuation octets from `i` on. */
  function Continued(s: seq<byte>, i: nat, more: nat, c: nat): Option<nat>
    decreases more
  {
    if more == 0 then Some(c)
    else if !Continuation(At(s, i)) then None
    else Continued(s, i + 1, more - 1, c * 64 + (At(s, i) - 0x80))
  }

  datatype Next = Bad | Next(code: nat, at: nat)

  /** One code point from `i` on, and where the next begins. */
  function NextCode(s: seq<byte>, i: nat): Next {
    var lead := LeadOf(At(s, i));
    if lead.BadLead? then Bad
    else
      var c := Continued(s, i + 1, lead.more, lead.bits);
      if c.None? then Bad else Next(c.value, i + 1 + lead.more)
  }

  /** utf8_next. */
  method Utf8Next(s: seq<byte>, at: nat) returns (r: Next)
    ensures r == NextCode(s, at)
  {
    var lead := LeadOf(At(s, at));
    if lead.BadLead? {
      return Bad;
    }
    var c: nat := lead.bits;
    for i := 0 to lead.more
      invariant Continued(s, at + 1, lead.more, lead.bits) == Continued(s, at + 1 + i, lead.more - i, c)
    {
      if !Continuation(At(s, at + 1 + i)) {
        return Bad;
      }
      c := c * 64 + (At(s, at + 1 + i) - 0x80);
    }
    return Next(c, at + 1 + lead.more);
  }

  lemma {:induction false} ContinuedWithin(s: seq<byte>, i: nat, more: nat, c: nat)
    requires Continued(s, i, more, c).Some? && i <= |s|
    ensures i + more <= |s|
    decreases more
  {
    if more > 0 {
      ContinuedWithin(s, i + 1, more - 1, c * 64 + (At(s, i) - 0x80));
    }
  }

  /** A code point never runs past the terminator. */
  lemma NextWithin(s: seq<byte>, i: nat)
    requires i < |s| && NextCode(s, i).Next?
    ensures i < NextCode(s, i).at <= |s|
  {
    var lead := LeadOf(At(s, i));
    ContinuedWithin(s, i + 1, lead.more, lead.bits);
  }

  /** What the printer's escapes have to cover: more than Unicode's range. */
  const CODE_LIMIT := 0x20_0000

  lemma NextBounded(s: seq<byte>, i: nat)
    requires NextCode(s, i).Next?
    ensures NextCode(s, i).code < CODE_LIMIT
  {
    var lead := LeadOf(At(s, i));
    if lead.more == 1 {
      Continued1(s, i + 1, lead.bits);
    } else if lead.more == 2 {
      assert Continued(s, i + 2, 1, lead.bits * 64 + (At(s, i + 1) - 0x80)).Some?;
      Continued2(s, i + 1, lead.bits);
    } else if lead.more == 3 {
      var c := lead.bits * 64 + (At(s, i + 1) - 0x80);
      assert Continued(s, i + 2, 2, c).Some?;
      assert Continued(s, i + 3, 1, c * 64 + (At(s, i + 2) - 0x80)).Some?;
      Continued3(s, i + 1, lead.bits);
    }
  }

  /** The code points of a C string from `i` on, if utf8_next accepts them all. */
  function Codes(s: seq<byte>, i: nat): (r: Option<seq<nat>>)
    requires i <= |s|
    ensures r.Some? ==> forall k :: 0 <= k < |r.value| ==> r.value[k] < CODE_LIMIT
    decreases |s| - i
  {
    if i == |s| then Some([])
    else
      var n := NextCode(s, i);
      if n.Bad? then None
      else
        NextWithin(s, i);
        NextBounded(s, i);
        var rest := Codes(s, n.at);
        if rest.None? then None else Some([n.code] + rest.value)
  }

  // ----- RFC 3629

  /** A Unicode scalar value. */
  predicate Scalar(c: nat) {
    c < 0xD800 || 0xE000 <= c < 0x11_0000
  }

  predicate Scalars(cs: seq<nat>) {
    forall i :: 0 <= i < |cs| ==> Scalar(cs[i])
  }

  function EncodeCode(c: nat): (r: seq<byte>)
    requires Scalar(c)
    ensures 1 <= |r| <= 4
  {
    if c < 0x80 then [c]
    else if c < 0x800 then [0xC0 + c / 64, 0x80 + c % 64]
    else if c < 0x1_0000 then [0xE0 + c / 4096, 0x80 + c / 64 % 64, 0x80 + c % 64]
    else [0xF0 + c / 262144, 0x80 + c / 4096 % 64, 0x80 + c / 64 % 64, 0x80 + c % 64]
  }

  function EncodeCodes(cs: seq<nat>): seq<byte>
    requires Scalars(cs)
  {
    if cs == [] then [] else EncodeCode(cs[0]) + EncodeCodes(cs[1..])
  }

  /** The octets are the UTF-8 of some scalar values. */
  ghost predicate WellFormed(s: seq<byte>) {
    exists cs: seq<nat> :: Scalars(cs) && EncodeCodes(cs) == s
  }

  lemma Digits64(c: nat)
    requires c < 0x20_0000
    ensures c == c / 64 * 64 + c % 64
    ensures c == (c / 4096 * 64 + c / 64 % 64) * 64 + c % 64
    ensures c == ((c / 262144 * 64 + c / 4096 % 64) * 64 + c / 64 % 64) * 64 + c % 64
  {
    assert c / 4096 == c / 64 / 64 && c / 262144 == c / 4096 / 64;
  }

  /** The string has this code point's encoding at `i`. */
  predicate HasCode(s: seq<byte>, i: nat, c: nat)
    requires Scalar(c)
  {
    i + |EncodeCode(c)| <= |s| && s[i..i + |EncodeCode(c)|] == EncodeCode(c)
  }

  lemma AtSlice(s: seq<byte>, i: nat, e: seq<byte>, k: nat)
    requires i + |e| <= |s| && s[i..i + |e|] == e && k < |e|
    ensures At(s, i + k) == e[k]
  {
    assert s[i..i + |e|][k] == s[i + k];
  }

  /** utf8_next undoes RFC 3629's encoding. */
  lemma NextEncoded(s: seq<byte>, i: nat, c: nat)
    requires Scalar(c) && HasCode(s, i, c)
    ensures NextCode(s, i) == Next(c, i + |EncodeCode(c)|)
  {
    var e := EncodeCode(c);
    Digits64(c);
    AtSlice(s, i, e, 0);
    if |e| == 2 {
      AtSlice(s, i, e, 1);
      Continued1(s, i + 1, e[0] - 0xC0);
    } else if |e| == 3 {
      AtSlice(s, i, e, 1);
      AtSlice(s, i, e, 2);
      Continued2(s, i + 1, e[0] - 0xE0);
    } else if |e| == 4 {
      AtSlice(s, i, e, 1);
      AtSlice(s, i, e, 2);
      AtSlice(s, i, e, 3);
      Continued3(s, i + 1, e[0] - 0xF0);
    }
  }

  lemma Continued1(s: seq<byte>, i: nat, c: nat)
    requires Continuation(At(s, i))
    ensures Continued(s, i, 1, c) == Some(c * 64 + (At(s, i) - 0x80))
  {
    assert Continued(s, i + 1, 0, c * 64 + (At(s, i) - 0x80)) == Some(c * 64 + (At(s, i) - 0x80));
  }

  lemma Continued2(s: seq<byte>, i: nat, c: nat)
    requires Continuation(At(s, i)) && Continuation(At(s, i + 1))
    ensures Continued(s, i, 2, c) == Some((c * 64 + (At(s, i) - 0x80)) * 64 + (At(s, i + 1) - 0x80))
  {
    Continued1(s, i + 1, c * 64 + (At(s, i) - 0x80));
  }

  lemma Continued3(s: seq<byte>, i: nat, c: nat)
    requires Continuation(At(s, i)) && Continuation(At(s, i + 1)) && Continuation(At(s, i + 2))
    ensures Continued(s, i, 3, c)
         == Some(((c * 64 + (At(s, i) - 0x80)) * 64 + (At(s, i + 1) - 0x80)) * 64 + (At(s, i + 2) - 0x80))
  {
    Continued2(s, i + 1, c * 64 + (At(s, i) - 0x80));
  }

  lemma SliceHead(s: seq<byte>, i: nat, e: seq<byte>, rest: seq<byte>)
    requires i <= |s| && s[i..] == e + rest
    ensures i + |e| <= |s| && s[i..i + |e|] == e && s[i + |e|..] == rest
  {
    assert s[i..i + |e|] == s[i..][..|e|] && s[i + |e|..] == s[i..][|e|..];
  }

  /** The first code point of the text at `i`, and where the rest of it is. */
  lemma HeadRead(s: seq<byte>, i: nat, c: nat, rest: seq<byte>) returns (j: nat)
    requires Scalar(c) && i <= |s| && s[i..] == EncodeCode(c) + rest
    ensures i < j <= |s| && NextCode(s, i) == Next(c, j) && s[j..] == rest
  {
    j := i + |EncodeCode(c)|;
    SliceHead(s, i, EncodeCode(c), rest);
    NextEncoded(s, i, c);
  }

  lemma CodesNext(s: seq<byte>, i: nat, c: nat, j: nat, cs: seq<nat>)
    requires i < j <= |s| && NextCode(s, i) == Next(c, j) && Codes(s, j) == Some(cs)
    ensures Codes(s, i) == Some([c] + cs)
  {
  }

  /** The code points of well-formed text are the ones it encodes. */
  lemma {:induction false} CodesEncoded(s: seq<byte>, i: nat, cs: seq<nat>)
    requires i <= |s| && Scalars(cs) && s[i..] == EncodeCodes(cs)
    ensures Codes(s, i) == Some(cs)
    decreases |cs|
  {
    if cs != [] {
      var c, rest := cs[0], cs[1..];
      var j := HeadRead(s, i, c, EncodeCodes(rest));
      CodesEncoded(s, j, rest);
      CodesNext(s, i, c, j, rest);
      assert cs == [c] + rest;
    }
  }

  // ----- octet by octet

  /** A continuation octet: its top bits are 10. */
  predicate TopBits10(b: byte) {
    0x80 <= b <= 0xBF
  }

  /** What utf8_next makes of any four octets, well-formed or not. */
  function Meaning(a: nat, b: byte, c: byte, d: byte, i: nat): Next {
    if a <= 0x7F then Next(a, i + 1)
    else if 0xC0 <= a <= 0xDF && TopBits10(b) then Next((a - 0xC0) * 64 + (b - 0x80), i + 2)
    else if 0xE0 <= a <= 0xEF && TopBits10(b) && TopBits10(c) then
      Next(((a - 0xE0) * 64 + (b - 0x80)) * 64 + (c - 0x80), i + 3)
    else if 0xF0 <= a <= 0xF7 && TopBits10(b) && TopBits10(c) && TopBits10(d) then
      Next((((a - 0xF0) * 64 + (b - 0x80)) * 64 + (c - 0x80)) * 64 + (d - 0x80), i + 4)
    else Bad
  }

  /** The next code point, or its refusal, from the next four octets alone, zero past the end of the string. */
  lemma {:induction false} NextExactly(s: seq<byte>, i: nat)
    ensures NextCode(s, i) == Meaning(At(s, i), At(s, i + 1), At(s, i + 2), At(s, i + 3), i)
  {
    var lead := LeadOf(At(s, i));
    if lead.Lead? && lead.more == 1 {
      TakesOne(s, i + 1, lead.bits);
    } else if lead.Lead? && lead.more == 2 {
      TakesTwo(s, i + 1, lead.bits);
    } else if lead.Lead? && lead.more == 3 {
      TakesThree(s, i + 1, lead.bits);
    }
  }

  lemma TakesOne(s: seq<byte>, i: nat, c: nat)
    ensures Continued(s, i, 1, c) == if TopBits10(At(s, i)) then Some(c * 64 + (At(s, i) - 0x80)) else None
  {
    if TopBits10(At(s, i)) {
      Continued1(s, i, c);
    }
  }

  lemma TakesTwo(s: seq<byte>, i: nat, c: nat)
    ensures Continued(s, i, 2, c) ==
            if TopBits10(At(s, i)) && TopBits10(At(s, i + 1)) then
              Some((c * 64 + (At(s, i) - 0x80)) * 64 + (At(s, i + 1) - 0x80))
            else None
  {
    if TopBits10(At(s, i)) {
      TakesOne(s, i + 1, c * 64 + (At(s, i) - 0x80));
    }
  }

  lemma TakesThree(s: seq<byte>, i: nat, c: nat)
    ensures Continued(s, i, 3, c) ==
            if TopBits10(At(s, i)) && TopBits10(At(s, i + 1)) && TopBits10(At(s, i + 2)) then
              Some(((c * 64 + (At(s, i) - 0x80)) * 64 + (At(s, i + 1) - 0x80)) * 64 + (At(s, i + 2) - 0x80))
            else None
  {
    if TopBits10(At(s, i)) {
      TakesTwo(s, i + 1, c * 64 + (At(s, i) - 0x80));
    }
  }
}
