/** Parsing undoes printing, in every layout. */
module JsonRoundTrip {
  import opened Bytes
  import opened Utf8
  import opened JsonText
  import opened JsonParser

  // ----- texts at offsets

  lemma HasBoth(t: string, i: nat, a: string, b: string)
    ensures Has(t, i, a + b) <==> Has(t, i, a) && Has(t, i + |a|, b)
  {
    var s := a + b;
    if Has(t, i, s) {
      forall k: nat | k < |a|
        ensures MatchAt(t, i, a, k)
      {
        assert MatchAt(t, i, s, k);
      }
      var j := i + |a|;
      forall k: nat | k < |b|
        ensures MatchAt(t, j, b, k)
      {
        assert MatchAt(t, i, s, |a| + k);
      }
    }
    if Has(t, i, a) && Has(t, i + |a|, b) {
      forall k: nat | k < |s|
        ensures MatchAt(t, i, s, k)
      {
        if k < |a| {
          assert MatchAt(t, i, a, k);
        } else {
          assert MatchAt(t, i + |a|, b, k - |a|);
        }
      }
    }
  }

  lemma HasAt(t: string, i: nat, s: string, k: nat)
    requires Has(t, i, s) && k < |s|
    ensures CharAt(t, i + k, s[k])
  {
    assert MatchAt(t, i, s, k);
  }

  lemma HasSlice(t: string, i: nat, s: string)
    requires Has(t, i, s)
    ensures t[i..i + |s|] == s
  {
    forall k | 0 <= k < |s|
      ensures t[i..i + |s|][k] == s[k]
    {
      HasAt(t, i, s, k);
    }
  }

  predicate AllSpace(w: string) {
    forall k :: 0 <= k < |w| ==> IsSpace(w[k])
  }

  lemma {:induction false} SkipAll(t: string, i: nat, w: string)
    requires Has(t, i, w) && AllSpace(w)
    requires i + |w| < |t| ==> !IsSpace(t[i + |w|])
    ensures i <= |t| && SkipSpace(t, i) == i + |w|
    decreases |w|
  {
    if w != "" {
      HasAt(t, i, w, 0);
      assert w == [w[0]] + w[1..];
      HasBoth(t, i, [w[0]], w[1..]);
      SkipAll(t, i + 1, w[1..]);
    }
  }

  // ----- strings

  lemma HexDigitValue(d: nat)
    requires d < 16
    ensures HexValue(HexDigit(d)) == Some(d)
  {
  }

  lemma HexReads(t: string, i: nat, a: nat, b: nat, c: nat, d: nat)
    requires a < 16 && b < 16 && c < 16 && d < 16 && Has(t, i, [HexDigit(a), HexDigit(b), HexDigit(c), HexDigit(d)])
    ensures Hex4At(t, i) == Some(((a * 16 + b) * 16 + c) * 16 + d)
  {
    var h := [HexDigit(a), HexDigit(b), HexDigit(c), HexDigit(d)];
    HasAt(t, i, h, 0);
    HasAt(t, i, h, 1);
    HasAt(t, i, h, 2);
    HasAt(t, i, h, 3);
    HexDigitValue(a);
    HexDigitValue(b);
    HexDigitValue(c);
    HexDigitValue(d);
  }

  lemma Hex4Value(t: string, i: nat, n: nat)
    requires n < 0x1_0000 && Has(t, i, Hex4(n))
    ensures Hex4At(t, i) == Some(n)
  {
    HexReads(t, i, n / 4096, n / 256 % 16, n / 16 % 16, n % 16);
    Nibbles(n);
  }

  lemma Nibbles(n: nat)
    requires n < 0x1_0000
    ensures ((n / 4096 * 16 + n / 256 % 16) * 16 + n / 16 % 16) * 16 + n % 16 == n
  {
    assert n / 256 == n / 16 / 16 && n / 4096 == n / 256 / 16;
  }

  lemma UnitRead(t: string, i: nat, n: nat, rest: string)
    requires n < 0x1_0000 && Has(t, i, "\\u" + Hex4(n) + rest)
    ensures Has(t, i, "\\u") && Hex4At(t, i + 2) == Some(n) && Has(t, i + 6, rest)
  {
    HasBoth(t, i, "\\u" + Hex4(n), rest);
    HasBoth(t, i, "\\u", Hex4(n));
    Hex4Value(t, i + 2, n);
  }

  lemma PairRead(t: string, i: nat, high: nat, low: nat)
    requires high < 0x1_0000 && low < 0x1_0000 && Has(t, i, "\\u" + Hex4(high) + "\\u" + Hex4(low))
    ensures Has(t, i, "\\u") && Hex4At(t, i + 2) == Some(high)
    ensures Has(t, i + 6, "\\u") && Hex4At(t, i + 8) == Some(low)
  {
    var a, b := "\\u" + Hex4(high), "\\u" + Hex4(low);
    assert a + "\\u" + Hex4(low) == a + b;
    UnitRead(t, i, high, b);
    assert b + "" == b;
    UnitRead(t, i + 6, low, "");
  }

  lemma LongEscapeRead(t: string, i: nat, c: nat)
    requires Scalar(c) && ShortEscape(c).None? && (c < 0x20 || 0x7F <= c) && Has(t, i, EscapeCode(c))
    ensures UnicodeEscape(t, i) == Next(c, i + |EscapeCode(c)|) && CharAt(t, i, '\\') && CharAt(t, i + 1, 'u')
  {
    if c < 0x1_0000 {
      UnitEscapeRead(t, i, c);
    } else {
      PairEscapeRead(t, i, c - 0x1_0000);
    }
    HasAt(t, i, "\\u", 0);
    HasAt(t, i, "\\u", 1);
  }

  lemma UnitEscapeRead(t: string, i: nat, c: nat)
    requires Scalar(c) && c < 0x1_0000 && Has(t, i, "\\u" + Hex4(c))
    ensures Has(t, i, "\\u") && UnicodeEscape(t, i) == Next(c, i + 6)
  {
    var e := "\\u" + Hex4(c);
    assert e + "" == e;
    UnitRead(t, i, c, "");
  }

  lemma PairEscapeRead(t: string, i: nat, v: nat)
    requires v < 0x10_0000 && Has(t, i, "\\u" + Hex4(0xD800 + v / 1024) + "\\u" + Hex4(0xDC00 + v % 1024))
    ensures Has(t, i, "\\u") && UnicodeEscape(t, i) == Next(0x1_0000 + v, i + 12)
  {
    PairRead(t, i, 0xD800 + v / 1024, 0xDC00 + v % 1024);
  }

  /** Every escape, and every character that needs none, reads back as its code point. */
  lemma CharRead(t: string, i: nat, c: nat)
    requires Scalar(c) && Has(t, i, EscapeCode(c))
    ensures i < |t| && t[i] != '\"' && CharOf(t, i) == Next(c, i + |EscapeCode(c)|)
  {
    var e := EscapeCode(c);
    HasAt(t, i, e, 0);
    if ShortEscape(c).Some? {
      HasAt(t, i, e, 1);
    } else if c < 0x20 || 0x7F <= c {
      LongEscapeRead(t, i, c);
    }
  }

  /** The character at `i` is read as `c`, the next one begins at `j`. */
  ghost predicate CharStep(t: string, i: nat, c: nat, j: nat) {
    forall rest: seq<nat>, end: nat ::
      CharsFrom(t, j) == Parsed(rest, end) ==> CharsFrom(t, i) == Parsed([c] + rest, end)
  }

  /** Wherever this text stands, the parser reads this one character of a string. */
  ghost predicate CharReads(c: nat, e: string) {
    forall t: string, i: nat :: Has(t, i, e) ==> CharStep(t, i, c, i + |e|)
  }

  lemma {:induction false} CharsRead(t: string, i: nat, cs: seq<nat>, pieces: seq<string>)
    requires |cs| == |pieces| && forall k :: 0 <= k < |cs| ==> CharReads(cs[k], pieces[k])
    requires Has(t, i, Concat(pieces)) && CharAt(t, i + |Concat(pieces)|, '\"')
    ensures CharsFrom(t, i) == Parsed(cs, i + |Concat(pieces)| + 1)
    decreases |cs|
  {
    if cs != [] {
      var e := pieces[0];
      HasBoth(t, i, e, Concat(pieces[1..]));
      assert CharReads(cs[0], e);
      assert CharStep(t, i, cs[0], i + |e|);
      CharsRead(t, i + |e|, cs[1..], pieces[1..]);
      assert cs == [cs[0]] + cs[1..];
    }
  }

  lemma EscapeReads(c: nat)
    requires Scalar(c)
    ensures CharReads(c, EscapeCode(c))
  {
    forall t: string, i: nat | Has(t, i, EscapeCode(c))
      ensures CharStep(t, i, c, i + |EscapeCode(c)|)
    {
      CharRead(t, i, c);
    }
  }

  lemma EscapedRead(t: string, i: nat, cs: seq<nat>)
    requires Scalars(cs) && Escapable(cs) && Has(t, i, Escaped(cs)) && CharAt(t, i + |Escaped(cs)|, '\"')
    ensures CharsFrom(t, i) == Parsed(cs, i + |Escaped(cs)| + 1)
  {
    var pieces := seq(|cs|, k requires 0 <= k < |cs| => EscapeCode(cs[k]));
    forall k | 0 <= k < |cs|
      ensures CharReads(cs[k], pieces[k])
    {
      EscapeReads(cs[k]);
    }
    CharsRead(t, i, cs, pieces);
  }

  lemma BetweenQuotes(t: string, i: nat, e: string)
    requires Has(t, i, "\"" + (e + "\""))
    ensures CharAt(t, i, '\"') && Has(t, i + 1, e) && CharAt(t, i + 1 + |e|, '\"')
  {
    HasBoth(t, i, "\"", e + "\"");
    HasBoth(t, i + 1, e, "\"");
    HasAt(t, i, "\"", 0);
    HasAt(t, i + 1 + |e|, "\"", 0);
  }

  lemma {:induction false} QuotedRead(t: string, i: nat, cs: seq<nat>)
    requires Scalars(cs) && Has(t, i, "\"" + (Escaped(cs) + "\""))
    ensures StringAt(t, i) == Parsed(EncodeCodes(cs), i + |Escaped(cs)| + 2) && CharAt(t, i, '\"')
  {
    BetweenQuotes(t, i, Escaped(cs));
    EscapedRead(t, i + 1, cs);
  }

  /** A well-formed string reads back as its own octets. */
  lemma StringRead(t: string, i: nat, s: seq<byte>)
    requires WellFormed(s) && Codes(s, 0).Some? && Has(t, i, Quoted(s))
    ensures StringAt(t, i) == Parsed(s, i + |Quoted(s)|) && CharAt(t, i, '\"')
  {
    var cs := CodesOf(s);
    QuotedRead(t, i, cs);
  }

  /** A well-formed string's code points, which spell it. */
  lemma CodesOf(s: seq<byte>) returns (cs: seq<nat>)
    requires WellFormed(s)
    ensures Codes(s, 0) == Some(cs) && Scalars(cs) && EncodeCodes(cs) == s
  {
    cs :| Scalars(cs) && EncodeCodes(cs) == s;
    assert s[0..] == s;
    CodesEncoded(s, 0, cs);
  }

  // ----- numbers

  lemma {:induction false} DigitsAreDigits(n: nat)
    ensures forall k :: 0 <= k < |Digits(n)| ==> IsDigit(Digits(n)[k])
    ensures NumberValue(Digits(n)) == n
    ensures n > 0 ==> Digits(n)[0] != '0'
    ensures n == 0 ==> Digits(n) == "0"
    decreases n
  {
    var ds := Digits(n);
    if n >= 10 {
      DigitsAreDigits(n / 10);
      assert ds[..|ds| - 1] == Digits(n / 10);
    } else {
      assert ds[..0] == "";
    }
  }

  lemma {:induction false} DigitsEndAt(t: string, i: nat, j: nat)
    requires i <= j <= |t| && forall k :: i <= k < j ==> IsDigit(t[k])
    requires j < |t| ==> !IsDigit(t[j])
    ensures DigitsEnd(t, i) == j
    decreases j - i
  {
    if i < j {
      DigitsEndAt(t, i + 1, j);
    }
  }

  /** What follows a value in printed text: nothing, or punctuation. */
  predicate Terminated(t: string, i: nat) {
    i < |t| ==> t[i] in {',', ']', '}', '\n'}
  }

  lemma NaturalRead(t: string, i: nat, n: nat)
    requires Has(t, i, Digits(n)) && Terminated(t, i + |Digits(n)|)
    ensures NaturalAt(t, i) == Parsed(n, i + |Digits(n)|) && i < |t| && IsDigit(t[i])
  {
    var ds := Digits(n);
    var j := i + |ds|;
    DigitsAreDigits(n);
    HasAt(t, i, ds, 0);
    forall k | i <= k < j
      ensures IsDigit(t[k])
    {
      HasAt(t, i, ds, k - i);
    }
    DigitsEndAt(t, i, j);
    HasSlice(t, i, ds);
  }

  lemma NegativeRead(t: string, i: nat, n: Integral, ds: string)
    requires n < 0 && ds == Digits(-n) && Has(t, i, "-" + ds) && Terminated(t, i + 1 + |ds|)
    ensures NumberAt(t, i) == Parsed(Number(n), i + 1 + |ds|) && i < |t| && t[i] == '-'
  {
    HasBoth(t, i, "-", ds);
    HasAt(t, i, "-", 0);
    NaturalRead(t, i + 1, -n);
  }

  lemma NumberRead(t: string, i: nat, n: Integral)
    requires Has(t, i, Decimal(n)) && Terminated(t, i + |Decimal(n)|)
    ensures NumberAt(t, i) == Parsed(Number(n), i + |Decimal(n)|)
    ensures i < |t| && (t[i] == '-' || IsDigit(t[i]))
  {
    if n < 0 {
      NegativeRead(t, i, n, Digits(-n));
    } else {
      NaturalRead(t, i, n);
    }
  }

  // ----- layout

  lemma {:induction false} IndentIsSpace(n: nat)
    ensures AllSpace(Indent(n))
  {
    if n > 0 {
      IndentIsSpace(n - 1);
    }
  }

  /** The white space that starts an item, after the comma if it is not the first. */
  function StartSpace(style: Style, depth: nat, first: bool): (w: string)
    ensures AllSpace(w)
  {
    IndentIsSpace(depth + 1);
    match style
    case Compact => ""
    case Default => if first then "" else " "
    case Indent2 => "\n" + Indent(depth + 1)
  }

  lemma ItemStartSplit(style: Style, depth: nat, first: bool)
    ensures ItemStart(style, depth, first) == (if first then "" else ",") + StartSpace(style, depth, first)
  {
  }

  function EndSpace(style: Style, depth: nat): (w: string)
    ensures AllSpace(w)
  {
    IndentIsSpace(depth);
    if style == Indent2 then "\n" + Indent(depth) else ""
  }

  /** The closing bracket is what the space before it leads to. */
  lemma EndRead(t: string, i: nat, style: Style, depth: nat, close: char)
    requires Has(t, i, End(style, depth, close)) && close in {']', '}'}
    ensures i < |t| && Terminated(t, i)
    ensures SkipSpace(t, i) == i + |End(style, depth, close)| - 1 && CharAt(t, SkipSpace(t, i), close)
  {
    var w := EndSpace(style, depth);
    assert End(style, depth, close) == w + [close];
    HasBoth(t, i, w, [close]);
    HasAt(t, i + |w|, [close], 0);
    SkipAll(t, i, w);
    HasAt(t, i, w + [close], 0);
  }

  /** An item's start leads to its first character. */
  lemma StartRead(t: string, i: nat, style: Style, depth: nat, first: bool)
    requires Has(t, i, ItemStart(style, depth, first))
    requires var j := i + |ItemStart(style, depth, first)|; j < |t| && !IsSpace(t[j])
    ensures first ==> i <= |t| && SkipSpace(t, i) == i + |ItemStart(style, depth, first)|
    ensures !first ==> i < |t| && CharAt(t, i, ',') && SkipSpace(t, i) == i
    ensures !first ==> i < |t| && SkipSpace(t, i + 1) == i + |ItemStart(style, depth, first)|
  {
    var w := StartSpace(style, depth, first);
    ItemStartSplit(style, depth, first);
    if first {
      assert "" + w == w;
      SkipAll(t, i, w);
    } else {
      HasBoth(t, i, ",", w);
      HasAt(t, i, ",", 0);
      SkipAll(t, i + 1, w);
    }
  }

  // ----- values

  /** Every string of the value is well-formed UTF-8. */
  ghost predicate Sound(v: Json) {
    match v
    case String(s) => WellFormed(s)
    case Array(items) => forall i :: 0 <= i < |items| ==> Sound(items[i])
    case Object(members) => forall i :: 0 <= i < |members| ==> WellFormed(members[i].key) && Sound(members[i].value)
    case _ => true
  }

  ghost predicate ItemsSound(items: seq<Json>) {
    forall i :: 0 <= i < |items| ==> Sound(items[i])
  }

  ghost predicate MembersSound(members: seq<Member>) {
    forall i :: 0 <= i < |members| ==> WellFormed(members[i].key) && Sound(members[i].value)
  }

  lemma NotLiteral(t: string, i: nat)
    requires i < |t| && t[i] !in {'n', 't', 'f'}
    ensures !Has(t, i, "null") && !Has(t, i, "true") && !Has(t, i, "false")
  {
    if Has(t, i, "null") {
      HasAt(t, i, "null", 0);
    }
    if Has(t, i, "true") {
      HasAt(t, i, "true", 0);
    }
    if Has(t, i, "false") {
      HasAt(t, i, "false", 0);
    }
  }

  lemma LiteralRead(t: string, i: nat, v: Json, style: Style, depth: nat)
    requires v.Null? || v.Bool?
    requires Has(t, i, Print(v, style, depth))
    ensures ValueAt(t, i) == Parsed(v, i + |Print(v, style, depth)|) && i < |t| && !IsSpace(t[i])
  {
    HasAt(t, i, Print(v, style, depth), 0);
    if v == Bool(true) {
      if Has(t, i, "null") {
        HasAt(t, i, "null", 0);
      }
    } else if v == Bool(false) {
      if Has(t, i, "null") {
        HasAt(t, i, "null", 0);
      }
      if Has(t, i, "true") {
        HasAt(t, i, "true", 0);
      }
    }
  }

  /** The first character of a printed value: no space, no closing bracket. */
  predicate Opens(c: char) {
    c in {'n', 't', 'f', '\"', '[', '{', '-'} || IsDigit(c)
  }

  lemma PrintOpens(v: Json, style: Style, depth: nat)
    requires Printable(v)
    ensures var p := Print(v, style, depth); |p| > 0 && Opens(p[0])
  {
    if v.Number? && v.n >= 0 {
      DigitsAreDigits(v.n);
    } else if v.Number? {
      DigitsAreDigits(-v.n);
    }
  }

  /** Wherever this text stands before punctuation, the parser reads this value and stops after it. */
  ghost predicate Reads(v: Json, s: string) {
    |s| > 0 && Opens(s[0]) && forall t: string, i: nat :: ReadsAt(v, s, t, i)
  }

  ghost predicate ReadsAt(v: Json, s: string, t: string, i: nat) {
    Has(t, i, s) && Terminated(t, i + |s|) ==> ValueAt(t, i) == Parsed(v, i + |s|)
  }

  ghost predicate MemberReads(m: Member, s: string) {
    |s| > 0 && Opens(s[0]) && forall t: string, i: nat :: MemberReadsAt(m, s, t, i)
  }

  ghost predicate MemberReadsAt(m: Member, s: string, t: string, i: nat) {
    Has(t, i, s) && Terminated(t, i + |s|) ==> MemberAt(t, i) == Parsed(m, i + |s|)
  }

  ghost predicate AllRead(items: seq<Json>, texts: seq<string>)
    decreases |items|
  {
    && |items| == |texts|
    && (items == [] || (Reads(items[0], texts[0]) && AllRead(items[1..], texts[1..])))
  }

  ghost predicate AllMembersRead(members: seq<Member>, texts: seq<string>)
    decreases |members|
  {
    && |members| == |texts|
    && (members == [] || (MemberReads(members[0], texts[0]) && AllMembersRead(members[1..], texts[1..])))
  }

  /** Where the texts of a container stand: each before punctuation, a comma and space between two. */
  ghost predicate Laid(t: string, i: nat, texts: seq<string>, close: char, end: nat)
    decreases |texts|
  {
    && texts != [] && Has(t, i, texts[0])
    && var j := i + |texts[0]|;
       && j < |t| && Terminated(t, j)
       && if |texts| == 1 then CharAt(t, SkipSpace(t, j), close) && end == SkipSpace(t, j) + 1
          else SkipSpace(t, j) == j && t[j] == ',' && Laid(t, SkipSpace(t, j + 1), texts[1..], close, end)
  }

  ghost predicate AllOpen(texts: seq<string>) {
    forall k :: 0 <= k < |texts| ==> |texts[k]| > 0 && Opens(texts[k][0])
  }

  /** An item after another: its comma, its space, its text, then the rest. */
  lemma {:induction false} NextItem(t: string, j: nat, style: Style, depth: nat, first: bool, text: string,
                                    more: string)
    requires |text| > 0 && Opens(text[0]) && Has(t, j, ItemStart(style, depth, first) + (text + more))
    ensures var k := j + |ItemStart(style, depth, first)|;
            && j < |t| && Has(t, k, text) && Has(t, k + |text|, more)
            && (if first then SkipSpace(t, j) == k && Opens(t[k])
                else t[j] == ',' && SkipSpace(t, j) == j && SkipSpace(t, j + 1) == k)
  {
    var start := ItemStart(style, depth, first);
    HasBoth(t, j, start, text + more);
    HasBoth(t, j + |start|, text, more);
    HasAt(t, j + |start|, text, 0);
    StartRead(t, j, style, depth, first);
  }

  lemma LaidNext(t: string, i: nat, texts: seq<string>, close: char, end: nat)
    requires |texts| > 1 && Has(t, i, texts[0])
    requires var j := i + |texts[0]|;
             j < |t| && t[j] == ',' && SkipSpace(t, j) == j && Laid(t, SkipSpace(t, j + 1), texts[1..], close, end)
    ensures Laid(t, i, texts, close, end)
  {
  }

  /** A container's end stands at `p`: perhaps space, then its closing bracket, the last before `q`. */
  ghost predicate Closes(t: string, p: nat, close: char, q: nat) {
    p < |t| && Terminated(t, p) && CharAt(t, SkipSpace(t, p), close) && q == SkipSpace(t, p) + 1
  }

  lemma LaidLast(t: string, i: nat, texts: seq<string>, close: char, q: nat)
    requires |texts| == 1 && Has(t, i, texts[0]) && Closes(t, i + |texts[0]|, close, q)
    ensures Laid(t, i, texts, close, q)
  {
  }

  /** The texts stand from `i` on as `Lines` puts them, the first one's start apart. */
  ghost predicate Follows(t: string, i: nat, texts: seq<string>, close: char, style: Style, depth: nat, q: nat) {
    && texts != [] && AllOpen(texts) && Has(t, i, texts[0])
    && var lines := Lines(texts[1..], style, depth, false);
       Has(t, i + |texts[0]|, lines) && Closes(t, i + |texts[0]| + |lines|, close, q)
  }

  lemma {:induction false} FollowsNext(t: string, i: nat, texts: seq<string>, close: char, style: Style, depth: nat,
                                       q: nat)
    requires Follows(t, i, texts, close, style, depth, q) && |texts| > 1
    ensures var j := i + |texts[0]|;
            && j < |t| && t[j] == ',' && SkipSpace(t, j) == j
            && Follows(t, SkipSpace(t, j + 1), texts[1..], close, style, depth, q)
  {
    var rest, j := texts[1..], i + |texts[0]|;
    NextItem(t, j, style, depth, false, rest[0], Lines(rest[1..], style, depth, false));
  }

  lemma {:induction false} LaidOut(t: string, i: nat, texts: seq<string>, close: char, style: Style, depth: nat, q: nat)
    requires Follows(t, i, texts, close, style, depth, q)
    ensures Laid(t, i, texts, close, q)
    decreases |texts|
  {
    if |texts| == 1 {
      assert Lines(texts[1..], style, depth, false) == "";
      LaidLast(t, i, texts, close, q);
    } else {
      FollowsNext(t, i, texts, close, style, depth, q);
      LaidOut(t, SkipSpace(t, i + |texts[0]| + 1), texts[1..], close, style, depth, q);
      LaidNext(t, i, texts, close, q);
    }
  }

  lemma {:induction false} FirstLaid(t: string, i: nat, texts: seq<string>, close: char, style: Style, depth: nat,
                                     lines: string, q: nat)
    requires texts != [] && AllOpen(texts) && close in {']', '}'} && lines == Lines(texts, style, depth, true)
    requires Has(t, i, lines) && Closes(t, i + |lines|, close, q)
    ensures i <= |t| && Inside(t, SkipSpace(t, i), texts, close, q)
  {
    FirstFollows(t, i, texts, close, style, depth, lines, q);
    LaidOut(t, SkipSpace(t, i), texts, close, style, depth, q);
  }

  lemma {:induction false} FirstFollows(t: string, i: nat, texts: seq<string>, close: char, style: Style, depth: nat,
                                        lines: string, q: nat)
    requires texts != [] && AllOpen(texts) && close in {']', '}'} && lines == Lines(texts, style, depth, true)
    requires Has(t, i, lines) && Closes(t, i + |lines|, close, q)
    ensures i <= |t| && !CharAt(t, SkipSpace(t, i), close) && Follows(t, SkipSpace(t, i), texts, close, style, depth, q)
  {
    var start, more := ItemStart(style, depth, true), Lines(texts[1..], style, depth, false);
    assert lines == start + (texts[0] + more) && |lines| == |start| + |texts[0]| + |more|;
    NextItem(t, i, style, depth, true, texts[0], more);
  }

  /** An opening bracket, and so no literal. */
  predicate Bracketed(t: string, i: nat, open: char) {
    CharAt(t, i, open) && !Has(t, i, "null") && !Has(t, i, "true") && !Has(t, i, "false")
  }

  lemma BracketRead(t: string, i: nat, open: char, body: string)
    requires open in {'[', '{'} && Has(t, i, [open] + body)
    ensures i < |t| && Bracketed(t, i, open) && Has(t, i + 1, body)
  {
    HasBoth(t, i, [open], body);
    HasAt(t, i, [open], 0);
    NotLiteral(t, i);
  }

  /** A container stands at `i`: its opening bracket, then its end or its laid-out texts. */
  ghost predicate LaidIn(t: string, i: nat, open: char, texts: seq<string>, close: char, end: nat) {
    Bracketed(t, i, open) && Inside(t, SkipSpace(t, i + 1), texts, close, end)
  }

  ghost predicate Inside(t: string, j: nat, texts: seq<string>, close: char, end: nat) {
    if texts == [] then CharAt(t, j, close) && j + 1 == end
    else !CharAt(t, j, close) && Laid(t, j, texts, close, end)
  }

  lemma ContainerText(open: char, texts: seq<string>, close: char, style: Style, depth: nat, lines: string, end: string)
    requires texts != [] && lines == Lines(texts, style, depth, true) && end == End(style, depth, close)
    ensures Container(open, texts, close, style, depth) == [open] + (lines + end)
    ensures |Container(open, texts, close, style, depth)| == 1 + |lines| + |end|
  {
  }

  lemma {:induction false} FilledLaid(t: string, i: nat, open: char, texts: seq<string>, close: char, style: Style,
                                      depth: nat,
                                      whole: string)
    requires texts != [] && AllOpen(texts) && open in {'[', '{'} && close in {']', '}'}
    requires whole == Container(open, texts, close, style, depth) && Has(t, i, whole)
    ensures LaidIn(t, i, open, texts, close, i + |whole|)
  {
    var lines, end := Lines(texts, style, depth, true), End(style, depth, close);
    ContainerText(open, texts, close, style, depth, lines, end);
    BracketRead(t, i, open, lines + end);
    FilledIn(t, i, open, texts, close, style, depth, lines, end, lines + end);
  }

  lemma {:induction false} FilledIn(t: string, i: nat, open: char, texts: seq<string>, close: char, style: Style,
                                    depth: nat, lines: string, end: string, body: string)
    requires texts != [] && AllOpen(texts) && open in {'[', '{'} && close in {']', '}'}
    requires lines == Lines(texts, style, depth, true) && end == End(style, depth, close) && body == lines + end
    requires Has(t, i + 1, body) && Bracketed(t, i, open)
    ensures LaidIn(t, i, open, texts, close, i + 1 + |body|)
  {
    BodyLaid(t, i + 1, texts, close, style, depth, lines, end, body, i + 1 + |body|);
  }

  lemma EndCloses(t: string, p: nat, style: Style, depth: nat, close: char)
    requires Has(t, p, End(style, depth, close)) && close in {']', '}'}
    ensures Closes(t, p, close, p + |End(style, depth, close)|)
  {
    EndRead(t, p, style, depth, close);
  }

  lemma {:induction false} BodyLaid(t: string, j: nat, texts: seq<string>, close: char, style: Style, depth: nat,
                                    lines: string, end: string, body: string, q: nat)
    requires texts != [] && AllOpen(texts) && close in {']', '}'}
    requires lines == Lines(texts, style, depth, true) && end == End(style, depth, close)
    requires body == lines + end && Has(t, j, body) && q == j + |body|
    ensures j <= |t| && Inside(t, SkipSpace(t, j), texts, close, q)
  {
    BodyParts(t, j, close, style, depth, lines, end, q);
    FirstLaid(t, j, texts, close, style, depth, lines, q);
  }

  lemma {:induction false} BodyParts(t: string, j: nat, close: char, style: Style, depth: nat, lines: string,
                                     end: string, q: nat)
    requires close in {']', '}'} && end == End(style, depth, close) && Has(t, j, lines + end)
    requires q == j + |lines + end|
    ensures Has(t, j, lines) && Closes(t, j + |lines|, close, q)
  {
    HasBoth(t, j, lines, end);
    EndCloses(t, j + |lines|, style, depth, close);
  }

  lemma {:induction false} EmptyLaid(t: string, i: nat, open: char, close: char)
    requires open in {'[', '{'} && close in {']', '}'} && Has(t, i, [open, close])
    ensures LaidIn(t, i, open, [], close, i + 2)
  {
    assert [open, close] == [open] + [close];
    BracketRead(t, i, open, [close]);
    HasAt(t, i + 1, [close], 0);
  }

  /** A printed container stands where its text does. */
  lemma {:induction false} ContainerLaid(t: string, i: nat, open: char, texts: seq<string>, close: char, style: Style,
                                         depth: nat,
                                         whole: string)
    requires AllOpen(texts) && open in {'[', '{'} && close in {']', '}'}
    requires whole == Container(open, texts, close, style, depth) && Has(t, i, whole)
    ensures LaidIn(t, i, open, texts, close, i + |whole|)
  {
    if texts == [] {
      EmptyLaid(t, i, open, close);
    } else {
      FilledLaid(t, i, open, texts, close, style, depth, whole);
    }
  }

  lemma LastItem(t: string, i: nat, v: Json, j: nat)
    requires j <= |t| && ValueAt(t, i) == Parsed(v, j) && CharAt(t, SkipSpace(t, j), ']')
    ensures ItemsAt(t, i) == Parsed([v], SkipSpace(t, j) + 1)
  {
  }

  lemma MoreItems(t: string, i: nat, v: Json, j: nat, rest: seq<Json>, end: nat)
    requires j < |t| && ValueAt(t, i) == Parsed(v, j) && SkipSpace(t, j) == j && t[j] == ','
    requires ItemsAt(t, SkipSpace(t, j + 1)) == Parsed(rest, end)
    ensures ItemsAt(t, i) == Parsed([v] + rest, end)
  {
    assert CharAt(t, j, ',') && !CharAt(t, j, ']');
  }

  lemma {:induction false} OneItemRead(t: string, i: nat, items: seq<Json>, texts: seq<string>, end: nat)
    requires |items| == 1 == |texts| && Reads(items[0], texts[0]) && Laid(t, i, texts, ']', end)
    ensures ItemsAt(t, i) == Parsed(items, end)
  {
    ValueReadAt(t, i, items[0], texts[0]);
    LastItem(t, i, items[0], i + |texts[0]|);
    assert items == [items[0]];
  }

  /** Before the last text: a comma, and the rest. */
  lemma LaidComma(t: string, i: nat, texts: seq<string>, close: char, end: nat)
    requires Laid(t, i, texts, close, end) && |texts| > 1
    ensures var j := i + |texts[0]|;
            && Has(t, i, texts[0]) && j < |t| && Terminated(t, j) && SkipSpace(t, j) == j && t[j] == ','
            && Laid(t, SkipSpace(t, j + 1), texts[1..], close, end)
  {
  }

  lemma {:induction false} ItemThenRest(t: string, i: nat, v: Json, s: string, rest: seq<Json>, all: seq<Json>,
                                        end: nat)
    requires Reads(v, s) && Has(t, i, s) && all == [v] + rest
    requires var j := i + |s|; j < |t| && Terminated(t, j) && SkipSpace(t, j) == j && t[j] == ','
    requires ItemsAt(t, SkipSpace(t, i + |s| + 1)) == Parsed(rest, end)
    ensures ItemsAt(t, i) == Parsed(all, end)
  {
    ValueReadAt(t, i, v, s);
    MoreItems(t, i, v, i + |s|, rest, end);
  }

  lemma {:induction false} NextItemRead(t: string, i: nat, items: seq<Json>, texts: seq<string>, end: nat)
    requires 1 < |items| == |texts| && Reads(items[0], texts[0]) && Laid(t, i, texts, ']', end)
    requires ItemsAt(t, SkipSpace(t, i + |texts[0]| + 1)) == Parsed(items[1..], end)
    ensures ItemsAt(t, i) == Parsed(items, end)
  {
    LaidComma(t, i, texts, ']', end);
    ItemThenRest(t, i, items[0], texts[0], items[1..], items, end);
  }

  lemma {:induction false} ItemsRead(t: string, i: nat, items: seq<Json>, texts: seq<string>, end: nat)
    requires AllRead(items, texts) && Laid(t, i, texts, ']', end)
    ensures ItemsAt(t, i) == Parsed(items, end)
    decreases |items|
  {
    if |items| == 1 {
      OneItemRead(t, i, items, texts, end);
    } else {
      ItemsRead(t, SkipSpace(t, i + |texts[0]| + 1), items[1..], texts[1..], end);
      NextItemRead(t, i, items, texts, end);
    }
  }

  lemma LastMember(t: string, i: nat, m: Member, j: nat)
    requires j <= |t| && MemberAt(t, i) == Parsed(m, j) && CharAt(t, SkipSpace(t, j), '}')
    ensures MembersAt(t, i) == Parsed([m], SkipSpace(t, j) + 1)
  {
  }

  lemma MoreMembers(t: string, i: nat, m: Member, j: nat, rest: seq<Member>, end: nat)
    requires j < |t| && MemberAt(t, i) == Parsed(m, j) && SkipSpace(t, j) == j && t[j] == ','
    requires MembersAt(t, SkipSpace(t, j + 1)) == Parsed(rest, end)
    ensures MembersAt(t, i) == Parsed([m] + rest, end)
  {
  }

  lemma {:induction false} OneMemberRead(t: string, i: nat, members: seq<Member>, texts: seq<string>, end: nat)
    requires |members| == 1 == |texts| && MemberReads(members[0], texts[0]) && Laid(t, i, texts, '}', end)
    ensures MembersAt(t, i) == Parsed(members, end)
  {
    MemberReadAt(t, i, members[0], texts[0]);
    LastMember(t, i, members[0], i + |texts[0]|);
    assert members == [members[0]];
  }

  lemma {:induction false} MemberThenRest(t: string, i: nat, m: Member, s: string, rest: seq<Member>, all: seq<Member>,
                                          end: nat)
    requires MemberReads(m, s) && Has(t, i, s) && all == [m] + rest
    requires var j := i + |s|; j < |t| && Terminated(t, j) && SkipSpace(t, j) == j && t[j] == ','
    requires MembersAt(t, SkipSpace(t, i + |s| + 1)) == Parsed(rest, end)
    ensures MembersAt(t, i) == Parsed(all, end)
  {
    MemberReadAt(t, i, m, s);
    MoreMembers(t, i, m, i + |s|, rest, end);
  }

  lemma {:induction false} NextMemberRead(t: string, i: nat, members: seq<Member>, texts: seq<string>, end: nat)
    requires 1 < |members| == |texts| && MemberReads(members[0], texts[0]) && Laid(t, i, texts, '}', end)
    requires MembersAt(t, SkipSpace(t, i + |texts[0]| + 1)) == Parsed(members[1..], end)
    ensures MembersAt(t, i) == Parsed(members, end)
  {
    LaidComma(t, i, texts, '}', end);
    MemberThenRest(t, i, members[0], texts[0], members[1..], members, end);
  }

  lemma {:induction false} MembersRead(t: string, i: nat, members: seq<Member>, texts: seq<string>, end: nat)
    requires AllMembersRead(members, texts) && Laid(t, i, texts, '}', end)
    ensures MembersAt(t, i) == Parsed(members, end)
    decreases |members|
  {
    if |members| == 1 {
      OneMemberRead(t, i, members, texts, end);
    } else {
      MembersRead(t, SkipSpace(t, i + |texts[0]| + 1), members[1..], texts[1..], end);
      NextMemberRead(t, i, members, texts, end);
    }
  }

  lemma MemberReadAt(t: string, i: nat, m: Member, s: string)
    requires MemberReads(m, s) && Has(t, i, s) && Terminated(t, i + |s|)
    ensures MemberAt(t, i) == Parsed(m, i + |s|)
  {
    assert MemberReadsAt(m, s, t, i);
  }

  lemma {:induction false} ReadsOpen(items: seq<Json>, texts: seq<string>)
    requires AllRead(items, texts)
    ensures AllOpen(texts)
    decreases |texts|
  {
    if texts != [] {
      ReadsOpen(items[1..], texts[1..]);
      assert forall k :: 1 <= k < |texts| ==> texts[k] == texts[1..][k - 1];
    }
  }

  lemma {:induction false} MembersOpen(members: seq<Member>, texts: seq<string>)
    requires AllMembersRead(members, texts)
    ensures AllOpen(texts)
    decreases |texts|
  {
    if texts != [] {
      MembersOpen(members[1..], texts[1..]);
      assert forall k :: 1 <= k < |texts| ==> texts[k] == texts[1..][k - 1];
    }
  }

  /** At an opening bracket the parser reads what the container's items are read as. */
  lemma ArrayGlue(t: string, i: nat, items: seq<Json>, end: nat)
    requires Bracketed(t, i, '[')
    requires var j := SkipSpace(t, i + 1);
             if items == [] then CharAt(t, j, ']') && j + 1 == end
             else !CharAt(t, j, ']') && ItemsAt(t, j) == Parsed(items, end)
    ensures ValueAt(t, i) == Parsed(Array(items), end)
  {
  }

  lemma ObjectGlue(t: string, i: nat, members: seq<Member>, end: nat)
    requires Bracketed(t, i, '{')
    requires var j := SkipSpace(t, i + 1);
             if members == [] then CharAt(t, j, '}') && j + 1 == end
             else !CharAt(t, j, '}') && MembersAt(t, j) == Parsed(members, end)
    ensures ValueAt(t, i) == Parsed(Object(members), end)
  {
  }

  lemma {:induction false} ArrayIn(t: string, i: nat, items: seq<Json>, texts: seq<string>, end: nat)
    requires AllRead(items, texts) && LaidIn(t, i, '[', texts, ']', end)
    ensures ValueAt(t, i) == Parsed(Array(items), end)
  {
    if texts != [] {
      ItemsRead(t, SkipSpace(t, i + 1), items, texts, end);
    }
    ArrayGlue(t, i, items, end);
  }

  lemma {:induction false} ObjectIn(t: string, i: nat, members: seq<Member>, texts: seq<string>, end: nat)
    requires AllMembersRead(members, texts) && LaidIn(t, i, '{', texts, '}', end)
    ensures ValueAt(t, i) == Parsed(Object(members), end)
  {
    if texts != [] {
      MembersRead(t, SkipSpace(t, i + 1), members, texts, end);
    }
    ObjectGlue(t, i, members, end);
  }

  /** Wherever the text stands, the container's texts stand in it. */
  ghost predicate LaysOut(s: string, open: char, texts: seq<string>, close: char) {
    |s| > 0 && s[0] == open && forall t: string, i: nat :: LaidWhere(s, open, texts, close, t, i)
  }

  ghost predicate LaidWhere(s: string, open: char, texts: seq<string>, close: char, t: string, i: nat) {
    Has(t, i, s) ==> LaidIn(t, i, open, texts, close, i + |s|)
  }

  lemma {:induction false} ContainerLaysOut(open: char, texts: seq<string>, close: char, style: Style, depth: nat)
    requires AllOpen(texts) && open in {'[', '{'} && close in {']', '}'}
    ensures LaysOut(Container(open, texts, close, style, depth), open, texts, close)
  {
    var s := Container(open, texts, close, style, depth);
    forall t: string, i: nat
      ensures LaidWhere(s, open, texts, close, t, i)
    {
      if Has(t, i, s) {
        ContainerLaid(t, i, open, texts, close, style, depth, s);
      }
    }
  }

  lemma {:induction false} ArrayReads(items: seq<Json>, texts: seq<string>, s: string)
    requires AllRead(items, texts) && LaysOut(s, '[', texts, ']')
    ensures Reads(Array(items), s)
  {
    forall t: string, i: nat
      ensures ReadsAt(Array(items), s, t, i)
    {
      assert LaidWhere(s, '[', texts, ']', t, i);
      if Has(t, i, s) {
        ArrayIn(t, i, items, texts, i + |s|);
      }
    }
  }

  lemma {:induction false} ObjectReads(members: seq<Member>, texts: seq<string>, s: string)
    requires AllMembersRead(members, texts) && LaysOut(s, '{', texts, '}')
    ensures Reads(Object(members), s)
  {
    forall t: string, i: nat
      ensures ReadsAt(Object(members), s, t, i)
    {
      assert LaidWhere(s, '{', texts, '}', t, i);
      if Has(t, i, s) {
        ObjectIn(t, i, members, texts, i + |s|);
      }
    }
  }

  lemma {:induction false} AllReadFrom(items: seq<Json>, texts: seq<string>)
    requires |items| == |texts| && forall k :: 0 <= k < |items| ==> Reads(items[k], texts[k])
    ensures AllRead(items, texts)
    decreases |items|
  {
    if items != [] {
      AllReadFrom(items[1..], texts[1..]);
    }
  }

  lemma {:induction false} AllMembersReadFrom(members: seq<Member>, texts: seq<string>)
    requires |members| == |texts| && forall k :: 0 <= k < |members| ==> MemberReads(members[k], texts[k])
    ensures AllMembersRead(members, texts)
    decreases |members|
  {
    if members != [] {
      AllMembersReadFrom(members[1..], texts[1..]);
    }
  }

  lemma KeySepRead(t: string, j: nat, style: Style)
    requires Has(t, j, KeySep(style)) && j + |KeySep(style)| < |t| && !IsSpace(t[j + |KeySep(style)|])
    ensures j < |t| && SkipSpace(t, j) == j && CharAt(t, j, ':') && SkipSpace(t, j + 1) == j + |KeySep(style)|
  {
    HasAt(t, j, KeySep(style), 0);
    if style != Compact {
      HasAt(t, j, KeySep(style), 1);
    }
  }

  lemma SeparatorRead(t: string, j: nat, style: Style, value: string)
    requires Has(t, j, KeySep(style) + value) && |value| > 0 && Opens(value[0])
    ensures j < |t| && SkipSpace(t, j) == j && CharAt(t, j, ':')
    ensures SkipSpace(t, j + 1) == j + |KeySep(style)| && Has(t, j + |KeySep(style)|, value)
  {
    HasBoth(t, j, KeySep(style), value);
    HasAt(t, j + |KeySep(style)|, value, 0);
    KeySepRead(t, j, style);
  }

  lemma MemberPartsRead(t: string, i: nat, m: Member, j: nat, k: nat, value: string)
    requires j < |t| && StringAt(t, i) == Parsed(m.key, j) && SkipSpace(t, j) == j && CharAt(t, j, ':')
    requires SkipSpace(t, j + 1) == k && Has(t, k, value) && Reads(m.value, value) && Terminated(t, k + |value|)
    ensures MemberAt(t, i) == Parsed(m, k + |value|)
  {
    ValueReadAt(t, k, m.value, value);
    MemberGlue(t, i, m, j, k, k + |value|);
  }

  lemma KeyedRead(t: string, i: nat, m: Member, j: nat, style: Style, value: string)
    requires StringAt(t, i) == Parsed(m.key, j) && Has(t, j, KeySep(style) + value)
    requires Reads(m.value, value) && Terminated(t, j + |KeySep(style)| + |value|)
    ensures MemberAt(t, i) == Parsed(m, j + |KeySep(style)| + |value|)
  {
    SeparatorRead(t, j, style, value);
    MemberPartsRead(t, i, m, j, j + |KeySep(style)|, value);
  }

  lemma ValueReadAt(t: string, i: nat, v: Json, s: string)
    requires Reads(v, s) && Has(t, i, s) && Terminated(t, i + |s|)
    ensures ValueAt(t, i) == Parsed(v, i + |s|)
  {
    assert ReadsAt(v, s, t, i);
  }

  lemma MemberGlue(t: string, i: nat, m: Member, j: nat, k: nat, end: nat)
    requires j < |t| && StringAt(t, i) == Parsed(m.key, j) && SkipSpace(t, j) == j && CharAt(t, j, ':')
    requires SkipSpace(t, j + 1) == k && ValueAt(t, k) == Parsed(m.value, end)
    ensures MemberAt(t, i) == Parsed(m, end)
  {
  }

  lemma {:induction false} MemberTextRead(t: string, i: nat, m: Member, style: Style, value: string)
    requires Codes(m.key, 0).Some? && WellFormed(m.key) && Reads(m.value, value)
    requires Has(t, i, MemberText(m.key, style, value)) && Terminated(t, i + |MemberText(m.key, style, value)|)
    ensures MemberAt(t, i) == Parsed(m, i + |MemberText(m.key, style, value)|)
  {
    var q := Quoted(m.key);
    HasBoth(t, i, q, KeySep(style) + value);
    StringRead(t, i, m.key);
    KeyedRead(t, i, m, i + |q|, style, value);
  }

  /** A member's key, separator and value read back. */
  lemma {:induction false} MemberTextReads(m: Member, style: Style, value: string)
    requires Codes(m.key, 0).Some? && WellFormed(m.key) && Reads(m.value, value)
    ensures MemberReads(m, MemberText(m.key, style, value))
  {
    var s := MemberText(m.key, style, value);
    forall t: string, i: nat
      ensures MemberReadsAt(m, s, t, i)
    {
      if Has(t, i, s) && Terminated(t, i + |s|) {
        MemberTextRead(t, i, m, style, value);
      }
    }
  }

  lemma {:induction false} ArrayPrinted(items: seq<Json>, style: Style, depth: nat)
    requires Printable(Array(items))
    requires forall k :: 0 <= k < |items| ==> Reads(items[k], Print(items[k], style, depth + 1))
    ensures Reads(Array(items), Print(Array(items), style, depth))
  {
    var texts := seq(|items|, k requires 0 <= k < |items| => Print(items[k], style, depth + 1));
    AllReadFrom(items, texts);
    ReadsOpen(items, texts);
    ContainerLaysOut('[', texts, ']', style, depth);
    ArrayReads(items, texts, Container('[', texts, ']', style, depth));
  }

  lemma {:induction false} ObjectPrinted(ms: seq<Member>, style: Style, depth: nat)
    requires Printable(Object(ms))
    requires forall k :: 0 <= k < |ms| ==>
               MemberReads(ms[k], MemberText(ms[k].key, style, Print(ms[k].value, style, depth + 1)))
    ensures Reads(Object(ms), Print(Object(ms), style, depth))
  {
    var texts := seq(|ms|, k requires 0 <= k < |ms| =>
      MemberText(ms[k].key, style, Print(ms[k].value, style, depth + 1)));
    AllMembersReadFrom(ms, texts);
    MembersOpen(ms, texts);
    ContainerLaysOut('{', texts, '}', style, depth);
    ObjectReads(ms, texts, Container('{', texts, '}', style, depth));
  }

  /** Every printed value reads back as itself, in every layout and at every depth. */
  lemma {:induction false} PrintReads(v: Json, style: Style, depth: nat)
    requires Printable(v) && Sound(v)
    ensures Reads(v, Print(v, style, depth))
    decreases v
  {
    match v
    case Array(items) =>
      forall k | 0 <= k < |items|
        ensures Reads(items[k], Print(items[k], style, depth + 1))
      {
        PrintReads(items[k], style, depth + 1);
      }
      ArrayPrinted(items, style, depth);
    case Object(ms) =>
      forall k | 0 <= k < |ms|
        ensures MemberReads(ms[k], MemberText(ms[k].key, style, Print(ms[k].value, style, depth + 1)))
      {
        PrintReads(ms[k].value, style, depth + 1);
        MemberTextReads(ms[k], style, Print(ms[k].value, style, depth + 1));
      }
      ObjectPrinted(ms, style, depth);
    case _ =>
      ScalarReads(v, style, depth);
  }

  lemma {:induction false} ScalarRead(t: string, i: nat, v: Json, style: Style, depth: nat)
    requires Printable(v) && Sound(v) && !v.Array? && !v.Object?
    requires Has(t, i, Print(v, style, depth)) && Terminated(t, i + |Print(v, style, depth)|)
    ensures ValueAt(t, i) == Parsed(v, i + |Print(v, style, depth)|)
  {
    match v
    case Number(n) =>
      NumberRead(t, i, n);
      NotLiteral(t, i);
    case String(o) =>
      StringRead(t, i, o);
      NotLiteral(t, i);
    case _ => LiteralRead(t, i, v, style, depth);
  }

  lemma {:induction false} ScalarReads(v: Json, style: Style, depth: nat)
    requires Printable(v) && Sound(v) && !v.Array? && !v.Object?
    ensures Reads(v, Print(v, style, depth))
  {
    var s := Print(v, style, depth);
    PrintOpens(v, style, depth);
    forall t: string, i: nat
      ensures ReadsAt(v, s, t, i)
    {
      if Has(t, i, s) && Terminated(t, i + |s|) {
        ScalarRead(t, i, v, style, depth);
      }
    }
  }

  lemma {:induction false} ParsePrinted(v: Json, style: Style)
    requires Printable(v) && Sound(v)
    ensures ParseText(Print(v, style, 0)) == Some(v)
  {
    var t := Print(v, style, 0);
    PrintReads(v, style, 0);
    assert Has(t, 0, t) && Terminated(t, |t|);
    ValueReadAt(t, 0, v, t);
  }
}
