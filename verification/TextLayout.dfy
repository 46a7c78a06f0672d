/** The printed text itself, index by index: its white space, its escapes, its numbers (c/src/canon.c). */
module TextLayout {
  import opened Bytes
  import opened JsonText
  import opened Canonical
  import opened TextReader
  import JsonParser
  import JsonRoundTrip

  // ----- the text, index by index

  /** Where a text stands: inside a string or not, just after a backslash there, and how deep in brackets. */
  datatype Scan = Scan(inside: bool, escaped: bool, depth: int)

  function ScanStep(s: Scan, c: char): Scan {
    if s.inside then
      if s.escaped then s.(escaped := false)
      else if c == '\\' then s.(escaped := true)
      else if c == '\"' then s.(inside := false)
      else s
    else if c == '\"' then s.(inside := true)
    else if Opener(c) then s.(depth := s.depth + 1)
    else if Closer(c) then s.(depth := s.depth - 1)
    else s
  }

  /** Before the character at `i`. */
  function ScanAt(t: string, i: nat): Scan
    requires i <= |t|
  {
    if i == 0 then Scan(false, false, 0) else ScanStep(ScanAt(t, i - 1), t[i - 1])
  }

  /** The character at `i` is outside strings; an opening quote is, a closing one is not. */
  predicate OutsideAt(t: string, i: nat)
    requires i <= |t|
  {
    !ScanAt(t, i).inside
  }

  /** The first `i` characters, white space outside strings left out. */
  function Stripped(t: string, i: nat): string
    requires i <= |t|
  {
    if i == 0 then ""
    else Stripped(t, i - 1) + if OutsideAt(t, i - 1) && White(t[i - 1]) then "" else [t[i - 1]]
  }

  function ReaderAt(style: Style, t: string, i: nat): Reader
    requires i <= |t|
  {
    if i == 0 then START else Step(style, ReaderAt(style, t, i - 1), t[i - 1])
  }

  lemma {:induction false} ReaderAtIsRead(style: Style, t: string, i: nat)
    requires i <= |t|
    ensures ReaderAt(style, t, i) == Read(style, START, t[..i])
  {
    if i > 0 {
      ReaderAtIsRead(style, t, i - 1);
      assert t[..i][..i - 1] == t[..i - 1];
    }
  }

  /** The reader knows what the scan says, and has kept what is not white space outside strings. */
  predicate Agrees(r: Reader, s: Scan) {
    && r.Reader? && (r.mode == Outside <==> !s.inside) && (r.mode == Escape <==> s.escaped) && (s.escaped ==> s.inside)
    && r.depth == s.depth && (s.inside ==> r.gap == "")
  }

  lemma AgreesNext(style: Style, r: Reader, s: Scan, c: char)
    requires Agrees(r, s) && Step(style, r, c).Reader?
    ensures Agrees(Step(style, r, c), ScanStep(s, c))
  {
  }

  lemma KeptNext(style: Style, r: Reader, s: Scan, c: char)
    requires Agrees(r, s) && Step(style, r, c).Reader?
    ensures Step(style, r, c).kept == r.kept + if !s.inside && White(c) then "" else [c]
  {
    assert r.kept + "" == r.kept;
  }

  /** Outside strings, the reader's white space is what stands before `i`, and before that stands none. */
  predicate GapStands(r: Reader, t: string, i: nat)
    requires i <= |t|
  {
    r.Reader? && |r.gap| <= i && t[i - |r.gap|..i] == r.gap && AllWhite(r.gap)
    && (r.mode == Outside ==>
          if |r.gap| == i then r.prev == ' ' else r.prev == t[i - |r.gap| - 1] && !White(r.prev))
  }

  lemma {:induction false} GapNext(style: Style, r: Reader, t: string, i: nat)
    requires i < |t| && GapStands(r, t, i) && (r.mode != Outside ==> r.gap == "") && Step(style, r, t[i]).Reader?
    ensures GapStands(Step(style, r, t[i]), t, i + 1)
  {
    var g := r.gap;
    if r.mode == Outside && White(t[i]) {
      assert t[i - |g|..i + 1] == t[i - |g|..i] + [t[i]];
    }
  }

  /** While it is not lost. */
  lemma {:induction false} ReaderFollows(style: Style, t: string, i: nat)
    requires i <= |t| && ReaderAt(style, t, i).Reader?
    ensures var r := ReaderAt(style, t, i);
            Agrees(r, ScanAt(t, i)) && r.kept == Stripped(t, i) && GapStands(r, t, i)
  {
    if i > 0 {
      var r := ReaderAt(style, t, i - 1);
      ReaderFollows(style, t, i - 1);
      AgreesNext(style, r, ScanAt(t, i - 1), t[i - 1]);
      KeptNext(style, r, ScanAt(t, i - 1), t[i - 1]);
      GapNext(style, r, t, i - 1);
    }
  }

  lemma {:induction false} NeverLost(style: Style, t: string, i: nat)
    requires i <= |t| && ReaderAt(style, t, |t|).Reader?
    ensures ReaderAt(style, t, i).Reader?
    decreases |t| - i
  {
    if i < |t| {
      NeverLost(style, t, i + 1);
    }
  }

  /** A text its reader follows to the end, where a value has ended. */
  predicate Followed(style: Style, t: string) {
    var r := ReaderAt(style, t, |t|);
    r.Reader? && r.mode == Outside && r.depth == 0 && r.gap == "" && Final(r.prev)
  }

  lemma {:induction false} DumpsFollowed(v: Json, style: Style, sort: bool)
    requires Printable(v)
    ensures var t := Dumps(v, style, sort).value;
            Followed(style, t) && Stripped(t, |t|) == Dumps(v, Compact, sort).value
  {
    var t := Dumps(v, style, sort).value;
    DumpsReads(v, style, sort, t);
    assert t[..|t|] == t;
    ReaderAtIsRead(style, t, |t|);
    ReaderFollows(style, t, |t|);
  }

  /**
   * Between two characters outside strings stands exactly the white space that they and the depth
   * call for: `j` is where it begins.
   */
  predicate Spaced(style: Style, t: string, j: nat, i: nat)
    requires i < |t|
  {
    && j <= i && ScanAt(t, i).depth >= 0 && (j > 0 ==> !White(t[j - 1]))
    && t[j..i] == Gap(style, if j == 0 then ' ' else t[j - 1], t[i], ScanAt(t, i).depth)
  }

  lemma {:induction false} FollowedSpaced(style: Style, t: string, i: nat) returns (j: nat)
    requires Followed(style, t) && i < |t| && OutsideAt(t, i) && !White(t[i])
    ensures Spaced(style, t, j, i)
  {
    NeverLost(style, t, i);
    NeverLost(style, t, i + 1);
    ReaderFollows(style, t, i);
    j := i - |ReaderAt(style, t, i).gap|;
  }

  /** After white space outside strings the text goes on there. */
  lemma {:induction false} GoesOn(style: Style, t: string, i: nat)
    requires Followed(style, t) && i < |t| && OutsideAt(t, i) && White(t[i])
    ensures i + 1 < |t| && OutsideAt(t, i + 1)
  {
    NeverLost(style, t, i);
    NeverLost(style, t, i + 1);
    ReaderFollows(style, t, i);
    assert ReaderAt(style, t, i + 1).gap != "";
  }

  /** White space outside strings is followed by something else there. */
  lemma {:induction false} NotLastWhite(style: Style, t: string, i: nat) returns (m: nat)
    requires Followed(style, t) && i < |t| && OutsideAt(t, i) && White(t[i])
    ensures i < m < |t| && OutsideAt(t, m) && !White(t[m]) && forall k :: i <= k < m ==> White(t[k])
    decreases |t| - i
  {
    GoesOn(style, t, i);
    m := i + 1;
    if White(t[i + 1]) {
      m := NotLastWhite(style, t, i + 1);
    }
  }

  /** So it belongs to a gap. */
  lemma {:induction false} WhiteInGap(style: Style, t: string, i: nat) returns (j: nat, m: nat)
    requires Followed(style, t) && i < |t| && OutsideAt(t, i) && White(t[i])
    ensures j <= i < m < |t| && OutsideAt(t, m) && !White(t[m]) && Spaced(style, t, j, m)
  {
    m := NotLastWhite(style, t, i);
    j := FollowedSpaced(style, t, m);
  }

  // ----- what the text is, style by style

  /** Every white space outside strings belongs to such a gap, in every style. */
  lemma {:induction false} NoOtherWhite(v: Json, style: Style, sort: bool, i: nat) returns (j: nat, m: nat)
    requires Printable(v)
    requires var t := Dumps(v, style, sort).value; i < |t| && OutsideAt(t, i) && White(t[i])
    ensures var t := Dumps(v, style, sort).value;
            j <= i < m < |t| && OutsideAt(t, m) && !White(t[m]) && Spaced(style, t, j, m)
  {
    DumpsFollowed(v, style, sort);
    j, m := WhiteInGap(style, Dumps(v, style, sort).value, i);
  }

  /** Compact: no white space outside strings. */
  lemma {:induction false} CompactText(v: Json, sort: bool, i: nat)
    requires Printable(v)
    ensures var t := Dumps(v, Compact, sort).value; i < |t| && OutsideAt(t, i) ==> !White(t[i])
  {
    var t := Dumps(v, Compact, sort).value;
    if i < |t| && OutsideAt(t, i) && White(t[i]) {
      var j, m := NoOtherWhite(v, Compact, sort, i);
      assert false;
    }
  }

  /** A comma or a colon that separates: outside strings. */
  predicate Separator(t: string, i: nat)
    requires i < |t|
  {
    OutsideAt(t, i) && (t[i] == ',' || t[i] == ':')
  }

  /** Having just read it, the reader has nothing since. */
  lemma {:induction false} JustRead(style: Style, t: string, i: nat)
    requires Followed(style, t) && i < |t| && OutsideAt(t, i) && !White(t[i])
    ensures var r := ReaderAt(style, t, i + 1);
            r.Reader? && r.prev == t[i] && r.gap == "" && (t[i] != '\"' ==> r.mode == Outside)
  {
    NeverLost(style, t, i);
    NeverLost(style, t, i + 1);
    ReaderFollows(style, t, i);
  }

  lemma WhiteNext(r: Reader, c: char)
    requires r.Reader? && r.mode == Outside && r.gap == "" && (r.prev == ',' || r.prev == ':')
    requires Step(Default, r, c).Reader?
    ensures White(c)
  {
  }

  lemma {:induction false} AfterSeparator(t: string, i: nat)
    requires Followed(Default, t) && i < |t| && Separator(t, i)
    ensures i + 1 < |t| && OutsideAt(t, i + 1) && White(t[i + 1])
  {
    var r := ReaderAt(Default, t, i + 1);
    JustRead(Default, t, i);
    assert i + 1 != |t|;
    NextNotLost(Default, t, i + 1);
    WhiteNext(r, t[i + 1]);
  }

  lemma {:induction false} NextNotLost(style: Style, t: string, i: nat)
    requires Followed(style, t) && i < |t|
    ensures ReaderAt(style, t, i).Reader? && Step(style, ReaderAt(style, t, i), t[i]).Reader?
  {
    NeverLost(style, t, i);
    NeverLost(style, t, i + 1);
  }

  /** Default: white space outside strings is one space, after each comma and colon and nowhere else. */
  lemma {:induction false} DefaultText(v: Json, sort: bool, i: nat)
    requires Printable(v)
    ensures var t := Dumps(v, Default, sort).value;
            i < |t| && OutsideAt(t, i) ==>
              && (White(t[i]) <==> i > 0 && Separator(t, i - 1)) && (White(t[i]) ==> t[i] == ' ')
              && (Separator(t, i) ==> i + 1 < |t| && t[i + 1] == ' ')
  {
    var t := Dumps(v, Default, sort).value;
    DumpsFollowed(v, Default, sort);
    if i < |t| && OutsideAt(t, i) {
      if White(t[i]) {
        SpaceAfterSeparator(t, i);
      }
      if Separator(t, i) {
        AfterSeparator(t, i);
        SpaceAfterSeparator(t, i + 1);
      }
      if i > 0 && Separator(t, i - 1) {
        AfterSeparator(t, i - 1);
      }
    }
  }

  lemma {:induction false} SpaceAfterSeparator(t: string, i: nat)
    requires Followed(Default, t) && i < |t| && OutsideAt(t, i) && White(t[i])
    ensures i > 0 && Separator(t, i - 1) && t[i] == ' '
  {
    var j, m := WhiteInGap(Default, t, i);
    assert t[j..m] == " " && j == i && m == i + 1;
    assert t[i] == t[j..m][0];
    OutsideBefore(t, i);
  }

  /** A comma or a colon just before a character outside strings is outside too. */
  lemma OutsideBefore(t: string, i: nat)
    requires 0 < i < |t| && OutsideAt(t, i) && (t[i - 1] == ',' || t[i - 1] == ':')
    ensures OutsideAt(t, i - 1)
  {
  }

  /**
   * Indent2: an item of a container, and the end of one that is not empty, stand on a line of their own,
   * two spaces to each level; a member's value stands one space after its colon; and nothing else
   * has white space before it, which begins at `j`.
   */
  lemma {:induction false} IndentText(v: Json, sort: bool, i: nat) returns (j: nat)
    requires Printable(v)
    requires var t := Dumps(v, Indent2, sort).value; i < |t| && OutsideAt(t, i) && !White(t[i])
    ensures var t := Dumps(v, Indent2, sort).value;
            && j <= i && (j > 0 ==> !White(t[j - 1])) && ScanAt(t, i).depth >= (if Closer(t[i]) then 1 else 0)
            && var prev, depth := if j == 0 then ' ' else t[j - 1], ScanAt(t, i).depth;
               t[j..i] ==
               if Closer(t[i]) then if Opener(prev) then "" else "\n" + Spaces(2 * (depth - 1))
               else if prev == ':' then " "
               else if prev == ',' || Opener(prev) then "\n" + Spaces(2 * depth)
               else ""
  {
    var t := Dumps(v, Indent2, sort).value;
    DumpsFollowed(v, Indent2, sort);
    j := FollowedSpaced(Indent2, t, i);
    if Closer(t[i]) {
      ClosesOpen(Indent2, t, i);
    }
  }

  /** A closing bracket closes one that is open. */
  lemma {:induction false} ClosesOpen(style: Style, t: string, i: nat)
    requires Followed(style, t) && i < |t| && OutsideAt(t, i) && Closer(t[i])
    ensures ScanAt(t, i).depth > 0
  {
    NeverLost(style, t, i);
    NeverLost(style, t, i + 1);
    ReaderFollows(style, t, i);
  }

  /** In every style, the text without its white space outside strings is the Compact text. */
  lemma {:induction false} StrippedIsCompact(v: Json, style: Style, sort: bool)
    requires Printable(v)
    ensures var t := Dumps(v, style, sort).value; Stripped(t, |t|) == Dumps(v, Compact, sort).value
  {
    DumpsFollowed(v, style, sort);
  }

  // ----- strings, character by character

  /** A backslash at `i` begins one of the seven two-character escapes, or \u and four lower-case digits of a unit. */
  predicate EscapeStands(t: string, i: nat) {
    && i + 1 < |t|
    && (TwoCharacter(t[i + 1])
        || (t[i + 1] == 'u' && i + 5 < |t| && UnitAt(t, i + 2).Some? && NeedsHex(UnitAt(t, i + 2).value)))
  }

  /** The value of four lower-case hexadecimal digits. */
  function UnitAt(t: string, i: nat): Option<nat>
    requires i + 4 <= |t|
  {
    var a, b, c, d := HexOf(t[i]), HexOf(t[i + 1]), HexOf(t[i + 2]), HexOf(t[i + 3]);
    if a.Some? && b.Some? && c.Some? && d.Some? then
      Some(((a.value * 16 + b.value) * 16 + c.value) * 16 + d.value)
    else None
  }

  /** With digits to come, the text goes on with one. */
  lemma {:induction false} DigitNext(style: Style, t: string, i: nat, left: nat, value: nat)
    requires Followed(style, t) && i <= |t| && ReaderAt(style, t, i).Reader?
    requires ReaderAt(style, t, i).mode == Hex(left, value) && left > 0
    ensures i < |t| && HexOf(t[i]).Some? && ReaderAt(style, t, i + 1).Reader?
    ensures var x := value * 16 + HexOf(t[i]).value;
            if left > 1 then ReaderAt(style, t, i + 1).mode == Hex(left - 1, x) else NeedsHex(x)
  {
    if i < |t| {
      NeverLost(style, t, i + 1);
    }
  }

  lemma {:induction false} FourDigits(style: Style, t: string, i: nat)
    requires Followed(style, t) && i <= |t| && ReaderAt(style, t, i).Reader? && ReaderAt(style, t, i).mode == Hex(4, 0)
    ensures i + 4 <= |t| && UnitAt(t, i).Some? && NeedsHex(UnitAt(t, i).value)
  {
    DigitNext(style, t, i, 4, 0);
    var a := HexOf(t[i]).value;
    DigitNext(style, t, i + 1, 3, a);
    var b := a * 16 + HexOf(t[i + 1]).value;
    DigitNext(style, t, i + 2, 2, b);
    DigitNext(style, t, i + 3, 1, b * 16 + HexOf(t[i + 2]).value);
  }

  /** After a backslash inside a string. */
  lemma {:induction false} EscapeBegins(style: Style, t: string, i: nat)
    requires Followed(style, t) && i < |t| && !OutsideAt(t, i) && !ScanAt(t, i).escaped && t[i] == '\\'
    ensures i + 1 < |t| && ReaderAt(style, t, i + 1).Reader? && ReaderAt(style, t, i + 1).mode == Escape
  {
    NextNotLost(style, t, i);
    ReaderFollows(style, t, i);
    NeverLost(style, t, i + 1);
    ReaderFollows(style, t, i + 1);
  }

  lemma {:induction false} EscapeGoesOn(style: Style, t: string, i: nat)
    requires Followed(style, t) && i < |t| && ReaderAt(style, t, i).Reader? && ReaderAt(style, t, i).mode == Escape
    ensures TwoCharacter(t[i])
         || (t[i] == 'u' && ReaderAt(style, t, i + 1).Reader? && ReaderAt(style, t, i + 1).mode == Hex(4, 0))
  {
    NextNotLost(style, t, i);
  }

  lemma {:induction false} EscapeFollowed(style: Style, t: string, i: nat)
    requires Followed(style, t) && i < |t| && !OutsideAt(t, i) && !ScanAt(t, i).escaped && t[i] == '\\'
    ensures EscapeStands(t, i)
  {
    EscapeBegins(style, t, i);
    EscapeGoesOn(style, t, i + 1);
    if !TwoCharacter(t[i + 1]) {
      FourDigits(style, t, i + 2);
    }
  }

  /**
   * Inside strings every character is one of ' ' to '~'; a backslash begins a two-character escape, or
   * \u with lower-case digits for a unit that has neither such an escape nor a character of its own.
   */
  lemma {:induction false} StringText(v: Json, style: Style, sort: bool, i: nat)
    requires Printable(v)
    ensures var t := Dumps(v, style, sort).value;
            i < |t| && !OutsideAt(t, i) ==>
              && ' ' <= t[i] <= '~'
              && (t[i] == '\\' && !ScanAt(t, i).escaped ==> EscapeStands(t, i))
  {
    var t := Dumps(v, style, sort).value;
    DumpsFollowed(v, style, sort);
    if i < |t| && !OutsideAt(t, i) {
      InsideFollowed(style, t, i);
    }
  }

  lemma {:induction false} InsideFollowed(style: Style, t: string, i: nat)
    requires Followed(style, t) && i < |t| && !OutsideAt(t, i)
    ensures ' ' <= t[i] <= '~' && (t[i] == '\\' && !ScanAt(t, i).escaped ==> EscapeStands(t, i))
  {
    NextNotLost(style, t, i);
    ReaderFollows(style, t, i);
    PrintableInside(style, ReaderAt(style, t, i), t[i]);
    if t[i] == '\\' && !ScanAt(t, i).escaped {
      EscapeFollowed(style, t, i);
    }
  }

  lemma PrintableInside(style: Style, r: Reader, c: char)
    requires r.Reader? && r.mode != Outside && Step(style, r, c).Reader?
    ensures ' ' <= c <= '~'
  {
  }

  /** The two-character escapes: the code point, and the character after the backslash. */
  const SHORT: map<nat, char> :=
    map[8 := 'b', 9 := 't', 10 := 'n', 12 := 'f', 13 := 'r', 34 := '\"', 92 := '\\']

  /**
   * The text of one code point, for all that utf8_next gives: two characters for the seven that have
   * such an escape, itself for the rest of ' ' to '~', and else one \u unit, or beyond 0xFFFF two.
   */
  lemma {:induction false} EscapeText(c: nat)
    requires c < 0x20_0000
    ensures var e := EscapeCode(c);
            if c in SHORT then e == ['\\', SHORT[c]]
            else if 0x20 <= c <= 0x7E then e == [c as char]
            else if c <= 0xFFFF then |e| == 6 && e[..2] == "\\u" && UnitAt(e, 2) == Some(c)
            else
              && |e| == 12 && e[..2] == "\\u" && e[6..8] == "\\u"
              && UnitAt(e, 2) == Some(0xD800 + (c - 0x1_0000) / 1024)
              && UnitAt(e, 8) == Some(0xDC00 + (c - 0x1_0000) % 1024)
  {
    var e := EscapeCode(c);
    if c !in SHORT && !(0x20 <= c <= 0x7E) {
      if c <= 0xFFFF {
        UnitText(e, 2, c);
      } else {
        UnitText(e, 2, 0xD800 + (c - 0x1_0000) / 1024);
        UnitText(e, 8, 0xDC00 + (c - 0x1_0000) % 1024);
      }
    }
  }

  lemma {:induction false} UnitText(e: string, i: nat, n: nat)
    requires n < 0x1_0000 && i + 4 <= |e| && e[i..i + 4] == Hex4(n)
    ensures UnitAt(e, i) == Some(n)
  {
    var h := Hex4(n);
    assert e[i] == e[i..i + 4][0] && e[i + 1] == e[i..i + 4][1];
    assert e[i + 2] == e[i..i + 4][2] && e[i + 3] == e[i..i + 4][3];
    HexDigitRead(n / 4096);
    HexDigitRead(n / 256 % 16);
    HexDigitRead(n / 16 % 16);
    HexDigitRead(n % 16);
    JsonRoundTrip.Nibbles(n);
  }

  // ----- numbers

  /** The shortest text of an integer: a minus sign exactly when negative, then digits without a leading zero. */
  lemma {:induction false} NumberText(n: Integral, style: Style, sort: bool)
    ensures Dumps(Number(n), style, sort).Some?
    ensures var t := Dumps(Number(n), style, sort).value;
            var ds := if n < 0 then t[1..] else t;
            && |t| > 0 && (t[0] == '-' <==> n < 0) && |ds| > 0 && (ds[0] == '0' <==> n == 0) && (n == 0 ==> t == "0")
            && (forall i :: 0 <= i < |ds| ==> '0' <= ds[i] <= '9')
  {
    NormalKeeps(Number(n));
    var size: nat := if n < 0 then -n else n;
    JsonRoundTrip.DigitsAreDigits(size);
    var t, ds := Decimal(n), Digits(size);
    assert n < 0 ==> t[1..] == ds;
    assert forall i :: 0 <= i < |ds| ==> JsonParser.IsDigit(ds[i]);
  }
}
