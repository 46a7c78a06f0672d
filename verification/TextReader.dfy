/** A reader of printed text that checks every character's place, and what it makes of dump's (c/src/canon.c). */
module TextReader {
  import opened Bytes
  import opened Utf8
  import opened JsonText
  import opened Canonical
  import JsonParser
  import JsonRoundTrip

  // ----- a reader of the text

  /** Where a reader is: outside strings, inside one, after a backslash, or with hexadecimal digits to come. */
  datatype Mode = Outside | Inside | Escape | Hex(left: nat, value: nat)

  /**
   * What a reader has met: its mode, the brackets open, the last character that is no white space
   * outside strings, the white space since, and all that is not such white space. It is lost at the
   * first character that is out of place.
   */
  datatype Reader = Reader(mode: Mode, depth: nat, prev: char, gap: string, kept: string) | Lost

  predicate White(c: char) {
    c == ' ' || c == '\t' || c == '\n' || c == '\r'
  }

  predicate Opener(c: char) {
    c == '[' || c == '{'
  }

  predicate Closer(c: char) {
    c == ']' || c == '}'
  }

  function Spaces(n: nat): string {
    if n == 0 then "" else Spaces(n - 1) + " "
  }

  /** A new line, two spaces to each level. */
  function NewLine(depth: nat): string {
    "\n" + Spaces(2 * depth)
  }

  /** The white space before a character that closes nothing. */
  function Lead(style: Style, prev: char, depth: nat): string {
    match style
    case Compact => ""
    case Default => if prev == ',' || prev == ':' then " " else ""
    case Indent2 =>
      if prev == ':' then " " else if prev == ',' || Opener(prev) then NewLine(depth) else ""
  }

  /** The white space between two characters: on lines of their own, a container's end stands one level out. */
  function Gap(style: Style, prev: char, next: char, depth: nat): string {
    if style == Indent2 && Closer(next) then if Opener(prev) || depth == 0 then "" else NewLine(depth - 1)
    else Lead(style, prev, depth)
  }

  function HexOf(c: char): Option<nat> {
    if '0' <= c <= '9' then Some(c as int - 48)
    else if 'a' <= c <= 'f' then Some(c as int - 87)
    else None
  }

  /** The UTF-16 units that have no shorter text: neither printable ASCII nor a two-character escape. */
  predicate NeedsHex(x: nat) {
    x >= 0x7F || (x < 0x20 && x !in {8, 9, 10, 12, 13})
  }

  predicate TwoCharacter(c: char) {
    c in {'\"', '\\', 'n', 'r', 't', 'b', 'f'}
  }

  function StepOutside(style: Style, r: Reader, c: char): Reader
    requires r.Reader?
  {
    if White(c) then r.(gap := r.gap + [c])
    else if r.gap != Gap(style, r.prev, c, r.depth) || (Closer(c) && r.depth == 0) then Lost
    else
      Reader(if c == '\"' then Inside else Outside,
             if Opener(c) then r.depth + 1 else if Closer(c) then r.depth - 1 else r.depth, c, "", r.kept + [c])
  }

  function StepInside(r: Reader, c: char): Reader
    requires r.Reader?
  {
    var s := r.(kept := r.kept + [c]);
    match r.mode
    case Escape => if TwoCharacter(c) then s.(mode := Inside) else if c == 'u' then s.(mode := Hex(4, 0)) else Lost
    case Hex(left, value) =>
      var d := HexOf(c);
      if d.None? then Lost
      else if left > 1 then s.(mode := Hex(left - 1, value * 16 + d.value))
      else if NeedsHex(value * 16 + d.value) then s.(mode := Inside)
      else Lost
    case _ =>
      if c < ' ' || c > '~' then Lost
      else if c == '\"' then s.(mode := Outside, prev := c)
      else if c == '\\' then s.(mode := Escape)
      else s
  }

  function Step(style: Style, r: Reader, c: char): Reader {
    if r.Lost? then Lost else if r.mode == Outside then StepOutside(style, r, c) else StepInside(r, c)
  }

  function Read(style: Style, r: Reader, t: string): Reader {
    if t == "" then r else Step(style, Read(style, r, t[..|t| - 1]), t[|t| - 1])
  }

  const START := Reader(Outside, 0, ' ', "", "")

  lemma {:induction false} ReadAppend(style: Style, r: Reader, a: string, b: string)
    ensures Read(style, r, a + b) == Read(style, Read(style, r, a), b)
    decreases |b|
  {
    if b == "" {
      assert a + b == a;
    } else {
      var n := |b| - 1;
      assert (a + b)[..|a| + n] == a + b[..n];
      ReadAppend(style, r, a, b[..n]);
    }
  }

  lemma ReadOne(style: Style, r: Reader, c: char)
    ensures Read(style, r, [c]) == Step(style, r, c)
  {
    assert [c][..0] == "";
  }

  // ----- characters outside strings

  /** A character of a number or a literal. */
  predicate Plain(c: char) {
    !White(c) && !Opener(c) && !Closer(c) && c != ',' && c != ':' && c != '\"'
  }

  /** What a value's text can end in. */
  predicate Final(c: char) {
    Plain(c) || Closer(c) || c == '\"'
  }

  /** Ready for a value: outside strings, the white space for it just met. */
  predicate Ready(style: Style, depth: nat, r: Reader) {
    r.Reader? && r.mode == Outside && r.depth == depth && r.gap == Lead(style, r.prev, depth)
  }

  /** Read from there, the text ends where it began but for its last character, and `plain` is kept of it. */
  predicate ReadsFrom(style: Style, depth: nat, text: string, plain: string, r: Reader) {
    Ready(style, depth, r) && |text| > 0 ==>
      Read(style, r, text) == Reader(Outside, depth, text[|text| - 1], "", r.kept + plain)
  }

  ghost predicate ReadsAs(style: Style, depth: nat, text: string, plain: string) {
    |text| > 0 && Final(text[|text| - 1]) && forall r :: ReadsFrom(style, depth, text, plain, r)
  }

  predicate AllPlain(s: string) {
    forall i :: 0 <= i < |s| ==> Plain(s[i])
  }

  lemma {:induction false} PlainReads(style: Style, depth: nat, s: string, r: Reader)
    requires |s| > 0 && AllPlain(s) && Ready(style, depth, r)
    ensures Read(style, r, s) == Reader(Outside, depth, s[|s| - 1], "", r.kept + s)
    decreases |s|
  {
    var n := |s| - 1;
    if n == 0 {
      assert s[..0] == "" && s == [s[0]];
    } else {
      PlainReads(style, depth, s[..n], r);
      assert r.kept + s[..n] + [s[n]] == r.kept + s;
    }
  }

  lemma {:induction false} PlainReadsAs(style: Style, depth: nat, s: string)
    requires |s| > 0 && AllPlain(s)
    ensures ReadsAs(style, depth, s, s)
  {
    forall r
      ensures ReadsFrom(style, depth, s, s, r)
    {
      if Ready(style, depth, r) {
        PlainReads(style, depth, s, r);
      }
    }
  }

  // ----- strings

  /** Inside a string, with this much kept. */
  predicate Within(r: Reader) {
    r.Reader? && r.mode == Inside && r.gap == ""
  }

  function Keep(r: Reader, s: string): Reader {
    if r.Lost? then Lost else r.(kept := r.kept + s)
  }

  /** Two texts that are only kept, one after the other. */
  lemma {:induction false} KeepBoth(style: Style, r: Reader, a: string, b: string, t: string)
    requires r.Reader? && t == a + b && Read(style, r, a) == Keep(r, a)
    requires Read(style, Keep(r, a), b) == Keep(Keep(r, a), b)
    ensures Read(style, r, t) == Keep(r, t)
  {
    ReadAppend(style, r, a, b);
    assert r.kept + a + b == r.kept + (a + b);
  }

  lemma HexDigitRead(d: nat)
    requires d < 16
    ensures HexOf(HexDigit(d)) == Some(d)
  {
  }

  lemma {:induction false} DigitReads(style: Style, r: Reader, h: string, k: nat, d: nat, value: nat)
    requires k < 3 && |h| == 4 && d < 16 && h[k] == HexDigit(d)
    requires r.Reader? && r.mode == Hex(4 - k, value)
    ensures Step(style, r, h[k]) == r.(mode := Hex(3 - k, value * 16 + d), kept := r.kept + [h[k]])
  {
    HexDigitRead(d);
  }

  lemma {:induction false} LastDigitReads(style: Style, r: Reader, d: nat, value: nat)
    requires d < 16 && r.Reader? && r.mode == Hex(1, value) && NeedsHex(value * 16 + d)
    ensures Step(style, r, HexDigit(d)) == r.(mode := Inside, kept := r.kept + [HexDigit(d)])
  {
    HexDigitRead(d);
  }

  lemma {:induction false} ReadFour(style: Style, r: Reader, h: string)
    requires |h| == 4
    ensures Read(style, r, h) == Step(style, Step(style, Step(style, Step(style, r, h[0]), h[1]), h[2]), h[3])
  {
    assert h[..3][..2] == h[..2] && h[..2][..1] == h[..1] && h[..1][..0] == "";
    assert Read(style, r, h[..1]) == Step(style, r, h[0]);
    assert Read(style, r, h[..2]) == Step(style, Read(style, r, h[..1]), h[1]);
    assert Read(style, r, h[..3]) == Step(style, Read(style, r, h[..2]), h[2]);
  }

  lemma {:induction false} Hex4Reads(style: Style, r: Reader, n: nat)
    requires r.Reader? && r.mode == Hex(4, 0) && n < 0x1_0000 && NeedsHex(n)
    ensures Read(style, r, Hex4(n)) == r.(mode := Inside, kept := r.kept + Hex4(n))
  {
    var h, a, b, c, d := Hex4(n), n / 4096, n / 256 % 16, n / 16 % 16, n % 16;
    JsonRoundTrip.Nibbles(n);
    ReadFour(style, r, h);
    DigitReads(style, r, h, 0, a, 0);
    var s := Step(style, r, h[0]);
    DigitReads(style, s, h, 1, b, a);
    var t := Step(style, s, h[1]);
    DigitReads(style, t, h, 2, c, a * 16 + b);
    LastDigitReads(style, Step(style, t, h[2]), d, (a * 16 + b) * 16 + c);
    assert r.kept + [h[0]] + [h[1]] + [h[2]] + [h[3]] == r.kept + h;
  }

  lemma {:induction false} MarkReads(style: Style, r: Reader, u: string)
    requires Within(r) && u == "\\u"
    ensures Read(style, r, u) == r.(mode := Hex(4, 0), kept := r.kept + u)
  {
    assert u[..1] == ['\\'];
    ReadOne(style, r, '\\');
    assert r.kept + ['\\'] + ['u'] == r.kept + u;
  }

  lemma {:induction false} UnitReads(style: Style, r: Reader, n: nat)
    requires Within(r) && n < 0x1_0000 && NeedsHex(n)
    ensures Read(style, r, "\\u" + Hex4(n)) == Keep(r, "\\u" + Hex4(n))
  {
    var u, h := "\\u", Hex4(n);
    MarkReads(style, r, u);
    ReadAppend(style, r, u, h);
    Hex4Reads(style, r.(mode := Hex(4, 0), kept := r.kept + u), n);
    assert r.kept + u + h == r.kept + (u + h);
  }

  lemma {:induction false} ShortReads(style: Style, r: Reader, e: string)
    requires Within(r) && |e| == 2 && e[0] == '\\' && TwoCharacter(e[1])
    ensures Read(style, r, e) == Keep(r, e)
  {
    assert e[..1] == ['\\'];
    ReadOne(style, r, '\\');
    assert r.kept + [e[0]] + [e[1]] == r.kept + e;
  }

  lemma {:induction false} EscapeReads(style: Style, r: Reader, c: nat)
    requires Within(r) && c < CODE_LIMIT
    ensures Read(style, r, EscapeCode(c)) == Keep(r, EscapeCode(c))
  {
    if ShortEscape(c).Some? {
      ShortReads(style, r, EscapeCode(c));
    } else if c < 0x20 || 0x7F <= c < 0x1_0000 {
      UnitReads(style, r, c);
    } else if c >= 0x1_0000 {
      PairReads(style, r, 0xD800 + (c - 0x1_0000) / 1024, 0xDC00 + (c - 0x1_0000) % 1024);
    } else {
      ReadOne(style, r, c as char);
    }
  }

  lemma {:induction false} PairReads(style: Style, r: Reader, high: nat, low: nat)
    requires Within(r) && 0xD800 <= high < 0x1_0000 && 0xD800 <= low < 0x1_0000
    ensures var e := "\\u" + Hex4(high) + "\\u" + Hex4(low); Read(style, r, e) == Keep(r, e)
  {
    var a, b := "\\u" + Hex4(high), "\\u" + Hex4(low);
    UnitReads(style, r, high);
    UnitReads(style, Keep(r, a), low);
    assert a + "\\u" + Hex4(low) == a + b;
    KeepBoth(style, r, a, b, a + b);
  }

  lemma {:induction false} EscapedReads(style: Style, r: Reader, cs: seq<nat>)
    requires Within(r) && Escapable(cs)
    ensures Read(style, r, Escaped(cs)) == Keep(r, Escaped(cs))
    decreases |cs|
  {
    if cs == [] {
      assert r.kept + "" == r.kept;
    } else {
      var first, rest := EscapeCode(cs[0]), cs[1..];
      EscapedHead(cs);
      EscapeReads(style, r, cs[0]);
      EscapedReads(style, Keep(r, first), rest);
      KeepBoth(style, r, first, Escaped(rest), Escaped(cs));
    }
  }

  lemma EscapedHead(cs: seq<nat>)
    requires cs != [] && Escapable(cs)
    ensures Escaped(cs) == EscapeCode(cs[0]) + Escaped(cs[1..])
  {
    var pieces := seq(|cs|, k requires 0 <= k < |cs| => EscapeCode(cs[k]));
    assert pieces[1..] == seq(|cs| - 1, k requires 0 <= k < |cs| - 1 => EscapeCode(cs[1..][k]));
  }

  /** A string's text: its quotes, and between them what is only kept. */
  lemma {:induction false} InQuotes(style: Style, depth: nat, body: string, r: Reader)
    requires Ready(style, depth, r)
    requires var a := Reader(Inside, depth, '\"', "", r.kept + "\""); Read(style, a, body) == Keep(a, body)
    ensures Read(style, r, "\"" + (body + "\"")) == Reader(Outside, depth, '\"', "", r.kept + ("\"" + (body + "\"")))
  {
    var q := "\"";
    var a := Reader(Inside, depth, '\"', "", r.kept + q);
    ReadOne(style, r, '\"');
    ReadAppend(style, r, q, body + q);
    ReadAppend(style, a, body, q);
    ReadOne(style, Keep(a, body), '\"');
    assert r.kept + q + body + q == r.kept + (q + (body + q));
  }

  lemma {:induction false} QuotedReads(style: Style, depth: nat, s: seq<byte>, r: Reader)
    requires Codes(s, 0).Some? && Ready(style, depth, r)
    ensures Read(style, r, Quoted(s)) == Reader(Outside, depth, '\"', "", r.kept + Quoted(s))
  {
    var cs := Codes(s, 0).value;
    EscapedReads(style, Reader(Inside, depth, '\"', "", r.kept + "\""), cs);
    InQuotes(style, depth, Escaped(cs), r);
  }

  lemma {:induction false} QuotedReadsAs(style: Style, depth: nat, s: seq<byte>)
    requires Codes(s, 0).Some?
    ensures ReadsAs(style, depth, Quoted(s), Quoted(s))
  {
    forall r
      ensures ReadsFrom(style, depth, Quoted(s), Quoted(s), r)
    {
      if Ready(style, depth, r) {
        QuotedReads(style, depth, s, r);
      }
    }
  }

  // ----- layout

  lemma {:induction false} SpacesHead(n: nat)
    ensures "  " + Spaces(n) == Spaces(n + 2)
  {
    if n == 0 {
      assert Spaces(1) == "" + " " && Spaces(2) == Spaces(1) + " ";
    } else {
      SpacesHead(n - 1);
      assert "  " + (Spaces(n - 1) + " ") == "  " + Spaces(n - 1) + " ";
    }
  }

  lemma {:induction false} IndentIsSpaces(n: nat)
    ensures Indent(n) == Spaces(2 * n)
  {
    if n > 0 {
      IndentIsSpaces(n - 1);
      SpacesHead(2 * n - 2);
    }
  }

  predicate AllWhite(w: string) {
    forall i :: 0 <= i < |w| ==> White(w[i])
  }

  lemma {:induction false} SpacesWhite(n: nat)
    ensures AllWhite(Spaces(n))
  {
    if n > 0 {
      SpacesWhite(n - 1);
    }
  }

  lemma LeadWhite(style: Style, prev: char, depth: nat)
    ensures AllWhite(Lead(style, prev, depth))
  {
    SpacesWhite(2 * depth);
  }

  lemma {:induction false} WhiteReads(style: Style, r: Reader, w: string)
    requires r.Reader? && r.mode == Outside && AllWhite(w)
    ensures Read(style, r, w) == r.(gap := r.gap + w)
    decreases |w|
  {
    if w == "" {
      assert r.gap + w == r.gap;
    } else {
      var n := |w| - 1;
      WhiteReads(style, r, w[..n]);
      assert r.gap + w[..n] + [w[n]] == r.gap + w;
    }
  }

  /** Between characters at this depth, nothing pending. */
  predicate Between(r: Reader, depth: nat) {
    r.Reader? && r.mode == Outside && r.depth == depth && r.gap == ""
  }

  lemma {:induction false} LeadReads(style: Style, r: Reader, depth: nat)
    requires Between(r, depth)
    ensures Read(style, r, Lead(style, r.prev, depth)) == r.(gap := Lead(style, r.prev, depth))
  {
    var w := Lead(style, r.prev, depth);
    LeadWhite(style, r.prev, depth);
    WhiteReads(style, r, w);
    assert "" + w == w;
  }

  /** One text after another, and what is kept of them. */
  lemma {:induction false} Then(style: Style, r: Reader, a: string, s: Reader, b: string, u: Reader, t: string)
    requires t == a + b && Read(style, r, a) == s && Read(style, s, b) == u
    ensures Read(style, r, t) == u
  {
    ReadAppend(style, r, a, b);
  }

  lemma {:induction false} SeparatorReads(style: Style, r: Reader, depth: nat, c: char)
    requires Between(r, depth) && Final(r.prev) && (c == ',' || c == ':')
    ensures Read(style, r, [c]) == Reader(Outside, depth, c, "", r.kept + [c])
  {
    ReadOne(style, r, c);
  }

  /** A comma or a colon after a value, and the white space after it. */
  lemma {:induction false} MarkThenLead(style: Style, r: Reader, depth: nat, c: char, text: string)
    requires Between(r, depth) && Final(r.prev) && (c == ',' || c == ':') && text == [c] + Lead(style, c, depth)
    ensures Read(style, r, text) == Reader(Outside, depth, c, Lead(style, c, depth), r.kept + [c])
  {
    var w, s := Lead(style, c, depth), Reader(Outside, depth, c, "", r.kept + [c]);
    SeparatorReads(style, r, depth, c);
    LeadReads(style, s, depth);
    Then(style, r, [c], s, w, s.(gap := w), text);
  }

  lemma StartIsLead(style: Style, depth: nat, first: bool, prev: char)
    requires first ==> Opener(prev)
    ensures ItemStart(style, depth, first)
         == if first then Lead(style, prev, depth + 1) else [','] + Lead(style, ',', depth + 1)
  {
    IndentIsSpaces(depth + 1);
  }

  lemma SepIsLead(style: Style, depth: nat)
    ensures KeySep(style) == [':'] + Lead(style, ':', depth)
  {
  }

  /** Where the next item of a container may start: after its bracket, or after an item. */
  predicate AtItem(r: Reader, depth: nat, first: bool) {
    Between(r, depth) && if first then Opener(r.prev) else Final(r.prev)
  }

  lemma {:induction false} StartReads(style: Style, depth: nat, first: bool, r: Reader)
    requires AtItem(r, depth + 1, first)
    ensures var s := Read(style, r, ItemStart(style, depth, first));
            Ready(style, depth + 1, s) && s.kept == r.kept + ItemStart(Compact, depth, first)
  {
    StartIsLead(style, depth, first, r.prev);
    StartIsLead(Compact, depth, first, r.prev);
    if first {
      LeadReads(style, r, depth + 1);
      assert r.kept + "" == r.kept;
    } else {
      MarkThenLead(style, r, depth + 1, ',', ItemStart(style, depth, first));
    }
  }

  lemma {:induction false} StartThen(style: Style, depth: nat, start: string, mark: string, text: string, plain: string,
                                     r: Reader, s: Reader)
    requires r.Reader? && Read(style, r, start) == s && Ready(style, depth, s) && s.kept == r.kept + mark
    requires ReadsAs(style, depth, text, plain)
    ensures Read(style, r, start + text) == Reader(Outside, depth, text[|text| - 1], "", r.kept + (mark + plain))
  {
    assert ReadsFrom(style, depth, text, plain, s);
    assert r.kept + mark + plain == r.kept + (mark + plain);
    Then(style, r, start, s, text, Read(style, s, text), start + text);
  }

  lemma {:induction false} ItemReads(style: Style, depth: nat, first: bool, text: string, plain: string, r: Reader)
    requires AtItem(r, depth + 1, first) && ReadsAs(style, depth + 1, text, plain)
    ensures Read(style, r, ItemStart(style, depth, first) + text)
         == Reader(Outside, depth + 1, text[|text| - 1], "", r.kept + (ItemStart(Compact, depth, first) + plain))
  {
    var start := ItemStart(style, depth, first);
    StartReads(style, depth, first, r);
    StartThen(style, depth + 1, start, ItemStart(Compact, depth, first), text, plain, r, Read(style, r, start));
  }

  ghost predicate AllReadAs(style: Style, depth: nat, texts: seq<string>, plains: seq<string>)
    decreases |texts|
  {
    && |texts| == |plains|
    && (texts == [] || (ReadsAs(style, depth, texts[0], plains[0]) && AllReadAs(style, depth, texts[1..], plains[1..])))
  }

  /** Read from an item's place, `text` ends at the next one's, and `plain` is kept of it. */
  predicate ItemsRead(style: Style, depth: nat, text: string, plain: string, r: Reader) {
    var s := Read(style, r, text);
    r.Reader? && AtItem(s, depth, false) && s.kept == r.kept + plain
  }

  lemma {:induction false} ItemsThen(style: Style, depth: nat, head: string, plain: string, rest: string, more: string,
                                     r: Reader, text: string, all: string)
    requires ItemsRead(style, depth, head, plain, r) && ItemsRead(style, depth, rest, more, Read(style, r, head))
    requires text == head + rest && all == plain + more
    ensures ItemsRead(style, depth, text, all, r)
  {
    var s := Read(style, r, head);
    Then(style, r, head, s, rest, Read(style, s, rest), text);
    assert r.kept + plain + more == r.kept + (plain + more);
  }

  lemma {:induction false} NoMoreItems(style: Style, depth: nat, r: Reader)
    requires AtItem(r, depth, false)
    ensures ItemsRead(style, depth, "", "", r)
  {
    assert r.kept + "" == r.kept;
  }

  lemma {:induction false} OneItem(style: Style, depth: nat, text: string, plain: string, first: bool, r: Reader)
    requires ReadsAs(style, depth + 1, text, plain) && AtItem(r, depth + 1, first)
    ensures ItemsRead(style, depth + 1, ItemStart(style, depth, first) + text,
                      ItemStart(Compact, depth, first) + plain, r)
  {
    ItemReads(style, depth, first, text, plain, r);
  }

  lemma {:induction false} LinesRead(style: Style, depth: nat, texts: seq<string>, plains: seq<string>, first: bool,
                                     r: Reader)
    requires texts != [] && AllReadAs(style, depth + 1, texts, plains) && AtItem(r, depth + 1, first)
    ensures ItemsRead(style, depth + 1, Lines(texts, style, depth, first), Lines(plains, Compact, depth, first), r)
    decreases |texts|, 0
  {
    var head, rest := ItemStart(style, depth, first) + texts[0], Lines(texts[1..], style, depth, false);
    var plain, more := ItemStart(Compact, depth, first) + plains[0], Lines(plains[1..], Compact, depth, false);
    OneItem(style, depth, texts[0], plains[0], first, r);
    MoreItems(style, depth, texts[1..], plains[1..], Read(style, r, head));
    LinesSplit(style, depth, texts, first, head, rest);
    LinesSplit(Compact, depth, plains, first, plain, more);
    ItemsThen(style, depth + 1, head, plain, rest, more, r,
              Lines(texts, style, depth, first), Lines(plains, Compact, depth, first));
  }

  lemma {:induction false} MoreItems(style: Style, depth: nat, texts: seq<string>, plains: seq<string>, r: Reader)
    requires AllReadAs(style, depth + 1, texts, plains) && AtItem(r, depth + 1, false)
    ensures ItemsRead(style, depth + 1, Lines(texts, style, depth, false), Lines(plains, Compact, depth, false), r)
    decreases |texts|, 1
  {
    if texts == [] {
      NoMoreItems(style, depth + 1, r);
    } else {
      LinesRead(style, depth, texts, plains, false, r);
    }
  }

  lemma LinesSplit(style: Style, depth: nat, texts: seq<string>, first: bool, head: string, rest: string)
    requires texts != [] && head == ItemStart(style, depth, first) + texts[0]
    requires rest == Lines(texts[1..], style, depth, false)
    ensures Lines(texts, style, depth, first) == head + rest
  {
    assert ItemStart(style, depth, first) + (texts[0] + rest) == head + rest;
  }

  lemma {:induction false} CloseReads(style: Style, depth: nat, close: char, r: Reader, w: string, end: string)
    requires Between(r, depth + 1) && Final(r.prev) && Closer(close) && AllWhite(w) && end == w + [close]
    requires w == Gap(style, r.prev, close, depth + 1)
    ensures Read(style, r, end) == Reader(Outside, depth, close, "", r.kept + [close])
  {
    WhiteReads(style, r, w);
    assert "" + w == w;
    ReadOne(style, r.(gap := w), close);
    Then(style, r, w, r.(gap := w), [close], Reader(Outside, depth, close, "", r.kept + [close]), end);
  }

  lemma {:induction false} EndReads(style: Style, depth: nat, close: char, r: Reader)
    requires Between(r, depth + 1) && Final(r.prev) && Closer(close)
    ensures Read(style, r, End(style, depth, close)) == Reader(Outside, depth, close, "", r.kept + [close])
  {
    IndentIsSpaces(depth);
    SpacesWhite(2 * depth);
    CloseReads(style, depth, close, r, if style == Indent2 then NewLine(depth) else "", End(style, depth, close));
  }

  lemma {:induction false} OpenReads(style: Style, depth: nat, open: char, r: Reader)
    requires Ready(style, depth, r) && Opener(open)
    ensures Read(style, r, [open]) == Reader(Outside, depth + 1, open, "", r.kept + [open])
  {
    ReadOne(style, r, open);
  }

  lemma {:induction false} FilledReads(style: Style, depth: nat, open: char, texts: seq<string>, plains: seq<string>,
                                       close: char, r: Reader)
    requires texts != [] && AllReadAs(style, depth + 1, texts, plains) && Opener(open) && Closer(close)
    requires Ready(style, depth, r)
    ensures Read(style, r, Container(open, texts, close, style, depth))
         == Reader(Outside, depth, close, "", r.kept + Container(open, plains, close, Compact, depth))
  {
    var a := Reader(Outside, depth + 1, open, "", r.kept + [open]);
    OpenReads(style, depth, open, r);
    LinesRead(style, depth, texts, plains, true, a);
    Bracketed(style, depth, open, Lines(texts, style, depth, true), Lines(plains, Compact, depth, true), close, r, a,
              Container(open, texts, close, style, depth), Container(open, plains, close, Compact, depth));
  }

  lemma {:induction false} Bracketed(style: Style, depth: nat, open: char, lines: string, plain: string, close: char,
                                     r: Reader, a: Reader, text: string, all: string)
    requires r.Reader? && Closer(close) && Read(style, r, [open]) == a && a.Reader? && a.kept == r.kept + [open]
    requires ItemsRead(style, depth + 1, lines, plain, a)
    requires text == [open] + (lines + End(style, depth, close)) && all == [open] + (plain + End(Compact, depth, close))
    ensures Read(style, r, text) == Reader(Outside, depth, close, "", r.kept + all)
  {
    var b, end := Read(style, a, lines), End(style, depth, close);
    var u := Reader(Outside, depth, close, "", b.kept + [close]);
    EndReads(style, depth, close, b);
    Then(style, a, lines, b, end, u, lines + end);
    Then(style, r, [open], a, lines + end, u, text);
    assert End(Compact, depth, close) == [close];
    assert r.kept + [open] + plain + [close] == r.kept + all;
  }

  lemma {:induction false} EmptyReads(style: Style, depth: nat, open: char, close: char, r: Reader)
    requires Opener(open) && Closer(close) && Ready(style, depth, r)
    ensures Read(style, r, [open, close]) == Reader(Outside, depth, close, "", r.kept + [open, close])
  {
    OpenReads(style, depth, open, r);
    assert [open, close] == [open] + [close];
    ReadAppend(style, r, [open], [close]);
    ReadOne(style, Reader(Outside, depth + 1, open, "", r.kept + [open]), close);
    assert r.kept + [open] + [close] == r.kept + [open, close];
  }

  lemma {:induction false} ContainerReads(style: Style, depth: nat, open: char, texts: seq<string>, plains: seq<string>,
                                          close: char)
    requires AllReadAs(style, depth + 1, texts, plains) && Opener(open) && Closer(close)
    ensures ReadsAs(style, depth, Container(open, texts, close, style, depth),
                    Container(open, plains, close, Compact, depth))
  {
    var t, p := Container(open, texts, close, style, depth), Container(open, plains, close, Compact, depth);
    assert t[|t| - 1] == close;
    forall r
      ensures ReadsFrom(style, depth, t, p, r)
    {
      if Ready(style, depth, r) {
        if texts == [] {
          EmptyReads(style, depth, open, close, r);
        } else {
          FilledReads(style, depth, open, texts, plains, close, r);
        }
      }
    }
  }

  // ----- values

  lemma {:induction false} AllReadAsFrom(style: Style, depth: nat, texts: seq<string>, plains: seq<string>)
    requires |texts| == |plains| && forall k :: 0 <= k < |texts| ==> ReadsAs(style, depth, texts[k], plains[k])
    ensures AllReadAs(style, depth, texts, plains)
    decreases |texts|
  {
    if texts != [] {
      AllReadAsFrom(style, depth, texts[1..], plains[1..]);
    }
  }

  lemma {:induction false} KeyReads(style: Style, depth: nat, key: seq<byte>, r: Reader, text: string)
    requires Codes(key, 0).Some? && Ready(style, depth, r) && text == Quoted(key) + KeySep(style)
    ensures var s := Read(style, r, text);
            Ready(style, depth, s) && s.kept == r.kept + (Quoted(key) + KeySep(Compact))
  {
    var q := Quoted(key);
    var a := Reader(Outside, depth, '\"', "", r.kept + q);
    QuotedReads(style, depth, key, r);
    SepIsLead(style, depth);
    SepIsLead(Compact, depth);
    MarkThenLead(style, a, depth, ':', KeySep(style));
    Then(style, r, q, a, KeySep(style), Read(style, a, KeySep(style)), text);
    assert r.kept + q + [':'] == r.kept + (q + [':']);
  }

  lemma {:induction false} MemberReadsFrom(style: Style, depth: nat, key: seq<byte>, text: string, plain: string,
                                           r: Reader, all: string, kept: string)
    requires Codes(key, 0).Some? && ReadsAs(style, depth, text, plain) && Ready(style, depth, r)
    requires all == Quoted(key) + (KeySep(style) + text) && kept == Quoted(key) + (KeySep(Compact) + plain)
    ensures Read(style, r, all) == Reader(Outside, depth, text[|text| - 1], "", r.kept + kept)
  {
    var head := Quoted(key) + KeySep(style);
    var s := Read(style, r, head);
    KeyReads(style, depth, key, r, head);
    assert ReadsFrom(style, depth, text, plain, s);
    assert all == head + text && r.kept + (Quoted(key) + KeySep(Compact)) + plain == r.kept + kept;
    Then(style, r, head, s, text, Read(style, s, text), all);
  }

  lemma {:induction false} MemberReadsAs(style: Style, depth: nat, key: seq<byte>, text: string, plain: string)
    requires Codes(key, 0).Some? && ReadsAs(style, depth, text, plain)
    ensures ReadsAs(style, depth, MemberText(key, style, text), MemberText(key, Compact, plain))
  {
    var all, kept := MemberText(key, style, text), MemberText(key, Compact, plain);
    assert all[|all| - 1] == text[|text| - 1];
    forall r
      ensures ReadsFrom(style, depth, all, kept, r)
    {
      if Ready(style, depth, r) {
        MemberReadsFrom(style, depth, key, text, plain, r, all, kept);
      }
    }
  }

  lemma {:induction false} NumberPlain(n: int)
    ensures |Decimal(n)| > 0 && AllPlain(Decimal(n))
  {
    var size: nat := if n < 0 then -n else n;
    var ds := Digits(size);
    JsonRoundTrip.DigitsAreDigits(size);
    forall i | 0 <= i < |ds|
      ensures Plain(ds[i])
    {
      assert JsonParser.IsDigit(ds[i]);
    }
  }

  /** In every style and at every depth, a value's text is read as its Compact text. */
  lemma {:induction false} ValueReads(v: Json, style: Style, depth: nat)
    requires Printable(v)
    ensures ReadsAs(style, depth, Print(v, style, depth), Print(v, Compact, depth))
    decreases v
  {
    match v
    case Null => PlainReadsAs(style, depth, "null");
    case Bool(b) => PlainReadsAs(style, depth, if b then "true" else "false");
    case Number(n) =>
      NumberPlain(n);
      PlainReadsAs(style, depth, Decimal(n));
    case String(s) => QuotedReadsAs(style, depth, s);
    case Array(items) =>
      forall k | 0 <= k < |items|
        ensures ReadsAs(style, depth + 1, Print(items[k], style, depth + 1), Print(items[k], Compact, depth + 1))
      {
        ValueReads(items[k], style, depth + 1);
      }
      ArrayReadsAs(items, style, depth);
    case Object(ms) =>
      forall k | 0 <= k < |ms|
        ensures ReadsAs(style, depth + 1, MemberText(ms[k].key, style, Print(ms[k].value, style, depth + 1)),
                        MemberText(ms[k].key, Compact, Print(ms[k].value, Compact, depth + 1)))
      {
        ValueReads(ms[k].value, style, depth + 1);
        MemberReadsAs(style, depth + 1, ms[k].key, Print(ms[k].value, style, depth + 1),
                      Print(ms[k].value, Compact, depth + 1));
      }
      ObjectReadsAs(ms, style, depth);
  }

  lemma {:induction false} ArrayReadsAs(items: seq<Json>, style: Style, depth: nat)
    requires AllPrintable(items)
    requires forall k :: 0 <= k < |items| ==>
               ReadsAs(style, depth + 1, Print(items[k], style, depth + 1), Print(items[k], Compact, depth + 1))
    ensures ReadsAs(style, depth, Print(Array(items), style, depth), Print(Array(items), Compact, depth))
  {
    var texts := seq(|items|, k requires 0 <= k < |items| => Print(items[k], style, depth + 1));
    var plains := seq(|items|, k requires 0 <= k < |items| => Print(items[k], Compact, depth + 1));
    AllReadAsFrom(style, depth + 1, texts, plains);
    ContainerReads(style, depth, '[', texts, plains, ']');
  }

  lemma {:induction false} ObjectReadsAs(ms: seq<Member>, style: Style, depth: nat)
    requires MembersPrintable(ms)
    requires forall k :: 0 <= k < |ms| ==>
               ReadsAs(style, depth + 1, MemberText(ms[k].key, style, Print(ms[k].value, style, depth + 1)),
                       MemberText(ms[k].key, Compact, Print(ms[k].value, Compact, depth + 1)))
    ensures ReadsAs(style, depth, Print(Object(ms), style, depth), Print(Object(ms), Compact, depth))
  {
    var texts := seq(|ms|, k requires 0 <= k < |ms| =>
      MemberText(ms[k].key, style, Print(ms[k].value, style, depth + 1)));
    var plains := seq(|ms|, k requires 0 <= k < |ms| =>
      MemberText(ms[k].key, Compact, Print(ms[k].value, Compact, depth + 1)));
    AllReadAsFrom(style, depth + 1, texts, plains);
    ContainerReads(style, depth, '{', texts, plains, '}');
  }

  lemma {:induction false} ReadFromStart(style: Style, t: string, p: string)
    requires ReadsAs(style, 0, t, p)
    ensures Read(style, START, t) == Reader(Outside, 0, t[|t| - 1], "", p)
  {
    assert ReadsFrom(style, 0, t, p, START);
    assert "" + p == p;
  }

  /** What dump writes keeps a reader of its style to the end, outside strings and brackets, the Compact text kept. */
  lemma {:induction false} DumpsReads(v: Json, style: Style, sort: bool, t: string)
    requires Printable(v) && Dumps(v, style, sort) == Some(t)
    ensures |t| > 0 && Final(t[|t| - 1])
    ensures Read(style, START, t) == Reader(Outside, 0, t[|t| - 1], "", Dumps(v, Compact, sort).value)
  {
    NormalKeeps(v);
    ValueReads(Shown(v, sort), style, 0);
    ReadFromStart(style, t, Print(Shown(v, sort), Compact, 0));
  }
}
