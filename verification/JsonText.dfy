/** The JSON printer (put_string, put_number, dump, em_json_dumps; c/src/canon.c) as functions. */
module JsonText {
  import opened Bytes
  import opened Utf8
  import opened KeyOrder

  /** The numbers put_number writes without a fraction or an exponent. */
  type Integral = n: int | -10_000_000_000_000_000 < n < 10_000_000_000_000_000

  /** A cJSON value; strings are the octets of C strings, `Raw` any type dump does not know. */
  datatype Json =
    | Null
    | Bool(b: bool)
    | Number(n: Integral)
    | String(s: seq<byte>)
    | Array(items: seq<Json>)
    | Object(members: seq<Member>)
    | Raw

  datatype Member = Member(key: seq<byte>, value: Json)

  datatype Style = Compact | Default | Indent2

  // ----- strings

  function HexDigit(d: nat): char
    requires d < 16
  {
    if d < 10 then (48 + d) as char else (87 + d) as char
  }

  /** %04lx of a value below 0x10000. */
  function Hex4(n: nat): (r: string)
    requires n < 0x1_0000
    ensures |r| == 4
  {
    [HexDigit(n / 4096), HexDigit(n / 256 % 16), HexDigit(n / 16 % 16), HexDigit(n % 16)]
  }

  /** The two-character escapes. */
  function ShortEscape(c: nat): Option<char> {
    if c == 34 then Some('\"')
    else if c == 92 then Some('\\')
    else if c == 10 then Some('n')
    else if c == 13 then Some('r')
    else if c == 9 then Some('t')
    else if c == 8 then Some('b')
    else if c == 12 then Some('f')
    else None
  }

  function EscapeCode(c: nat): (r: string)
    requires c < CODE_LIMIT
    ensures |r| > 0
  {
    if ShortEscape(c).Some? then ['\\', ShortEscape(c).value]
    else if c < 0x20 || 0x7F <= c < 0x1_0000 then "\\u" + Hex4(c)
    else if c >= 0x1_0000 then
      "\\u" + Hex4(0xD800 + (c - 0x1_0000) / 1024) + "\\u" + Hex4(0xDC00 + (c - 0x1_0000) % 1024)
    else [c as char]
  }

  predicate Escapable(cs: seq<nat>) {
    forall k :: 0 <= k < |cs| ==> cs[k] < CODE_LIMIT
  }

  function Concat(pieces: seq<string>): string {
    if pieces == [] then "" else pieces[0] + Concat(pieces[1..])
  }

  function Escaped(cs: seq<nat>): string
    requires Escapable(cs)
  {
    Concat(seq(|cs|, k requires 0 <= k < |cs| => EscapeCode(cs[k])))
  }

  function Quoted(s: seq<byte>): string
    requires Codes(s, 0).Some?
  {
    "\"" + (Escaped(Codes(s, 0).value) + "\"")
  }

  // ----- numbers

  function Digit(d: nat): char
    requires d < 10
  {
    (48 + d) as char
  }

  function Digits(n: nat): (r: string)
    ensures |r| > 0
  {
    if n < 10 then [Digit(n)] else Digits(n / 10) + [Digit(n % 10)]
  }

  /** "%.0f" of an integral value. */
  function Decimal(n: int): string {
    if n < 0 then "-" + Digits(-n) else Digits(n)
  }

  // ----- layout

  function Indent(n: nat): string {
    if n == 0 then "" else "  " + Indent(n - 1)
  }

  function ItemStart(style: Style, depth: nat, first: bool): string {
    match style
    case Compact => if first then "" else ","
    case Default => if first then "" else ", "
    case Indent2 => (if first then "\n" else ",\n") + Indent(depth + 1)
  }

  function End(style: Style, depth: nat, close: char): string {
    (if style == Indent2 then "\n" + Indent(depth) else "") + [close]
  }

  function KeySep(style: Style): string {
    if style == Compact then ":" else ": "
  }

  // ----- values

  /** dump succeeds: every string is accepted by utf8_next and every type is known. */
  predicate Printable(v: Json) {
    match v
    case String(s) => Codes(s, 0).Some?
    case Array(items) => forall i :: 0 <= i < |items| ==> Printable(items[i])
    case Object(members) =>
      forall i :: 0 <= i < |members| ==> Codes(members[i].key, 0).Some? && Printable(members[i].value)
    case Raw => false
    case _ => true
  }

  predicate AllPrintable(items: seq<Json>) {
    forall i :: 0 <= i < |items| ==> Printable(items[i])
  }

  predicate MembersPrintable(members: seq<Member>) {
    forall i :: 0 <= i < |members| ==> Codes(members[i].key, 0).Some? && Printable(members[i].value)
  }

  /** The items after an opening bracket, each on its own line or after its comma. */
  function Lines(texts: seq<string>, style: Style, depth: nat, first: bool): string {
    if texts == [] then ""
    else ItemStart(style, depth, first) + (texts[0] + Lines(texts[1..], style, depth, false))
  }

  function Container(open: char, texts: seq<string>, close: char, style: Style, depth: nat): string {
    if texts == [] then [open, close]
    else [open] + (Lines(texts, style, depth, true) + End(style, depth, close))
  }

  /** The text of a value, its members in the order given. */
  function Print(v: Json, style: Style, depth: nat): string
    requires Printable(v)
  {
    match v
    case Null => "null"
    case Bool(b) => if b then "true" else "false"
    case Number(n) => Decimal(n)
    case String(s) => Quoted(s)
    case Array(items) =>
      var texts := seq(|items|, k requires 0 <= k < |items| => Print(items[k], style, depth + 1));
      Container('[', texts, ']', style, depth)
    case Object(members) =>
      var texts := seq(|members|, k requires 0 <= k < |members| =>
        MemberText(members[k].key, style, Print(members[k].value, style, depth + 1)));
      Container('{', texts, '}', style, depth)
  }

  function MemberText(key: seq<byte>, style: Style, value: string): string
    requires Codes(key, 0).Some?
  {
    Quoted(key) + (KeySep(style) + value)
  }

  // ----- member order

  /** Members in key order, equal keys in the order given (qsort leaves those unspecified). */
  function Insert(m: Member, sorted: seq<Member>): (r: seq<Member>)
    ensures |r| == |sorted| + 1
  {
    if sorted == [] then [m]
    else if Lex(m.key, sorted[0].key) <= 0 then [m] + sorted
    else [sorted[0]] + Insert(m, sorted[1..])
  }

  function Sort(members: seq<Member>): (r: seq<Member>)
    ensures |r| == |members|
  {
    if members == [] then [] else Insert(members[0], Sort(members[1..]))
  }

  /** The value with every object's members in key order. */
  function Normalize(v: Json): Json {
    match v
    case Array(items) => Array(seq(|items|, k requires 0 <= k < |items| => Normalize(items[k])))
    case Object(members) =>
      Object(Sort(seq(|members|, k requires 0 <= k < |members| => Member(members[k].key, Normalize(members[k].value)))))
    case _ => v
  }

  /** What is printed: the value itself, or with its members sorted. */
  function Shown(v: Json, sort: bool): Json {
    if sort then Normalize(v) else v
  }
}
