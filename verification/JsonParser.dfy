/** A parser for RFC 8259 texts over the values of this model: its numbers are the integers. */
module JsonParser {
  import opened Bytes
  import opened Utf8
  import opened JsonText

  // ----- characters

  predicate IsSpace(c: char) {
    c == ' ' || c == '\t' || c == '\n' || c == '\r'
  }

  /** The first index from `i` on that is no white space. */
  function SkipSpace(t: string, i: nat): (j: nat)
    requires i <= |t|
    ensures i <= j <= |t|
    decreases |t| - i
  {
    if i < |t| && IsSpace(t[i]) then SkipSpace(t, i + 1) else i
  }

  predicate CharAt(t: string, i: nat, c: char) {
    i < |t| && t[i] == c
  }

  predicate MatchAt(t: string, i: nat, s: string, k: nat) {
    k < |s| && i + k < |t| && t[i + k] == s[k]
  }

  /** The text `s` stands at index `i`. */
  predicate Has(t: string, i: nat, s: string) {
    i + |s| <= |t| && forall k: nat :: k < |s| ==> MatchAt(t, i, s, k)
  }

  function HexValue(c: char): Option<nat> {
    if '0' <= c <= '9' then Some(c as int - 48)
    else if 'a' <= c <= 'f' then Some(c as int - 87)
    else if 'A' <= c <= 'F' then Some(c as int - 55)
    else None
  }

  /** Four hexadecimal digits. */
  function Hex4At(t: string, i: nat): (r: Option<nat>)
    ensures r.Some? ==> i + 4 <= |t| && r.value < 0x1_0000
  {
    if i + 4 > |t| then None
    else
      var a, b, c, d := HexValue(t[i]), HexValue(t[i + 1]), HexValue(t[i + 2]), HexValue(t[i + 3]);
      if a.Some? && b.Some? && c.Some? && d.Some? then
        Some(((a.value * 16 + b.value) * 16 + c.value) * 16 + d.value)
      else None
  }

  /** A \uXXXX escape, or two that make a surrogate pair, at `i`; a lone surrogate is refused. */
  function UnicodeEscape(t: string, i: nat): (r: Next)
    ensures r.Next? ==> i < r.at <= |t| && Scalar(r.code)
  {
    var h := if Has(t, i, "\\u") then Hex4At(t, i + 2) else None;
    if h.None? then Bad
    else if h.value < 0xD800 || 0xE000 <= h.value then Next(h.value, i + 6)
    else if h.value >= 0xDC00 then Bad
    else
      var l := if Has(t, i + 6, "\\u") then Hex4At(t, i + 8) else None;
      if l.None? || l.value < 0xDC00 || 0xE000 <= l.value then Bad
      else Next(0x1_0000 + (h.value - 0xD800) * 1024 + (l.value - 0xDC00), i + 12)
  }

  function ShortMeaning(c: char): Option<nat> {
    if c == '\"' then Some(34)
    else if c == '\\' then Some(92)
    else if c == '/' then Some(47)
    else if c == 'b' then Some(8)
    else if c == 'f' then Some(12)
    else if c == 'n' then Some(10)
    else if c == 'r' then Some(13)
    else if c == 't' then Some(9)
    else None
  }

  /** One character of a string, not its closing quote. */
  function CharOf(t: string, i: nat): (r: Next)
    requires i < |t|
    ensures r.Next? ==> i < r.at <= |t| && Scalar(r.code)
  {
    if t[i] == '\\' then
      if i + 1 < |t| && ShortMeaning(t[i + 1]).Some? then Next(ShortMeaning(t[i + 1]).value, i + 2)
      else UnicodeEscape(t, i)
    else if t[i] as int < 0x20 then Bad
    else Next(t[i] as int, i + 1)
  }

  // ----- strings

  datatype Parsed<+T> = Failed | Parsed(value: T, at: nat)

  /** The code points up to the closing quote. */
  function CharsFrom(t: string, i: nat): (r: Parsed<seq<nat>>)
    ensures r.Parsed? ==> i < r.at <= |t| && Scalars(r.value)
    decreases |t| - i
  {
    if i >= |t| then Failed
    else if t[i] == '\"' then Parsed([], i + 1)
    else
      var c := CharOf(t, i);
      if c.Bad? then Failed
      else
        var rest := CharsFrom(t, c.at);
        if rest.Failed? then Failed else Parsed([c.code] + rest.value, rest.at)
  }

  function StringAt(t: string, i: nat): (r: Parsed<seq<byte>>)
    ensures r.Parsed? ==> i < r.at <= |t| && WellFormed(r.value)
  {
    if !CharAt(t, i, '\"') then Failed
    else
      var cs := CharsFrom(t, i + 1);
      if cs.Failed? then Failed else Parsed(EncodeCodes(cs.value), cs.at)
  }

  // ----- numbers

  predicate IsDigit(c: char) {
    '0' <= c <= '9'
  }

  function DigitsEnd(t: string, i: nat): (j: nat)
    requires i <= |t|
    ensures i <= j <= |t| && forall k :: i <= k < j ==> IsDigit(t[k])
    decreases |t| - i
  {
    if i < |t| && IsDigit(t[i]) then DigitsEnd(t, i + 1) else i
  }

  function NumberValue(s: string): nat
    requires forall k :: 0 <= k < |s| ==> IsDigit(s[k])
  {
    if s == "" then 0
    else
      assert IsDigit(s[|s| - 1]);
      NumberValue(s[..|s| - 1]) * 10 + (s[|s| - 1] as int - 48)
  }

  /** What may not follow an integer: a fraction or an exponent would make it another number. */
  predicate EndsInteger(t: string, i: nat) {
    !CharAt(t, i, '.') && !CharAt(t, i, 'e') && !CharAt(t, i, 'E')
  }

  /** A run of digits without a leading zero. */
  function NaturalAt(t: string, i: nat): (r: Parsed<nat>)
    ensures r.Parsed? ==> i < r.at <= |t|
  {
    if i >= |t| || !IsDigit(t[i]) then Failed
    else
      var j := if t[i] == '0' then i + 1 else DigitsEnd(t, i);
      if j > i && EndsInteger(t, j) then Parsed(NumberValue(t[i..j]), j) else Failed
  }

  function NumberAt(t: string, i: nat): (r: Parsed<Json>)
    ensures r.Parsed? ==> i < r.at <= |t|
  {
    var minus := CharAt(t, i, '-');
    var n := NaturalAt(t, if minus then i + 1 else i);
    if n.Failed? || n.value >= 10_000_000_000_000_000 then Failed
    else
      var size: int := n.value;
      Parsed(Number(if minus then -size else size), n.at)
  }

  // ----- values

  function ValueAt(t: string, i: nat): (r: Parsed<Json>)
    ensures r.Parsed? ==> i < r.at <= |t|
    decreases |t| - i, 0
  {
    if Has(t, i, "null") then Parsed(Null, i + 4)
    else if Has(t, i, "true") then Parsed(Bool(true), i + 4)
    else if Has(t, i, "false") then Parsed(Bool(false), i + 5)
    else if CharAt(t, i, '\"') then
      var s := StringAt(t, i);
      if s.Failed? then Failed else Parsed(String(s.value), s.at)
    else if CharAt(t, i, '[') then
      var j := SkipSpace(t, i + 1);
      if CharAt(t, j, ']') then Parsed(Array([]), j + 1)
      else
        var items := ItemsAt(t, j);
        if items.Failed? then Failed else Parsed(Array(items.value), items.at)
    else if CharAt(t, i, '{') then
      var j := SkipSpace(t, i + 1);
      if CharAt(t, j, '}') then Parsed(Object([]), j + 1)
      else
        var members := MembersAt(t, j);
        if members.Failed? then Failed else Parsed(Object(members.value), members.at)
    else NumberAt(t, i)
  }

  /** The items of an array from the first one's first character to the closing bracket. */
  function ItemsAt(t: string, i: nat): (r: Parsed<seq<Json>>)
    ensures r.Parsed? ==> i < r.at <= |t|
    decreases |t| - i, 1
  {
    var v := ValueAt(t, i);
    if v.Failed? then Failed
    else
      var j := SkipSpace(t, v.at);
      if CharAt(t, j, ']') then Parsed([v.value], j + 1)
      else if CharAt(t, j, ',') then
        var rest := ItemsAt(t, SkipSpace(t, j + 1));
        if rest.Failed? then Failed else Parsed([v.value] + rest.value, rest.at)
      else Failed
  }

  function MembersAt(t: string, i: nat): (r: Parsed<seq<Member>>)
    ensures r.Parsed? ==> i < r.at <= |t|
    decreases |t| - i, 1
  {
    var m := MemberAt(t, i);
    if m.Failed? then Failed
    else
      var j := SkipSpace(t, m.at);
      if CharAt(t, j, '}') then Parsed([m.value], j + 1)
      else if CharAt(t, j, ',') then
        var rest := MembersAt(t, SkipSpace(t, j + 1));
        if rest.Failed? then Failed else Parsed([m.value] + rest.value, rest.at)
      else Failed
  }

  function MemberAt(t: string, i: nat): (r: Parsed<Member>)
    ensures r.Parsed? ==> i < r.at <= |t|
    decreases |t| - i, 0
  {
    var k := StringAt(t, i);
    if k.Failed? then Failed
    else
      var j := SkipSpace(t, k.at);
      if !CharAt(t, j, ':') then Failed
      else
        var v := ValueAt(t, SkipSpace(t, j + 1));
        if v.Failed? then Failed else Parsed(Member(k.value, v.value), v.at)
  }

  /** A JSON text: one value with white space around it. */
  function ParseText(t: string): Option<Json> {
    var v := ValueAt(t, SkipSpace(t, 0));
    if v.Parsed? && SkipSpace(t, v.at) == |t| then Some(v.value) else None
  }
}
