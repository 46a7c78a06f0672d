/** The printer's loops over a growing buffer, proved against the printing functions. */
module JsonPrinter {
  import opened Bytes
  import opened Utf8
  import opened KeyOrder
  import opened JsonText
  import opened Canonical
  import TextLayout

  // ----- strings

  lemma {:induction false} ConcatSnoc(pieces: seq<string>, p: string)
    ensures Concat(pieces + [p]) == Concat(pieces) + p
  {
    if pieces == [] {
      assert pieces + [p] == [p] && [p][1..] == [];
    } else {
      assert (pieces + [p])[1..] == pieces[1..] + [p];
      ConcatSnoc(pieces[1..], p);
    }
  }

  lemma EscapedSnoc(cs: seq<nat>, c: nat)
    requires Escapable(cs) && c < CODE_LIMIT
    ensures Escapable(cs + [c]) && Escaped(cs + [c]) == Escaped(cs) + EscapeCode(c)
  {
    var more := cs + [c];
    var pieces := seq(|cs|, k requires 0 <= k < |cs| => EscapeCode(cs[k]));
    assert seq(|more|, k requires 0 <= k < |more| => EscapeCode(more[k])) == pieces + [EscapeCode(c)];
    ConcatSnoc(pieces, EscapeCode(c));
  }

  /** The code points read so far and those still to come make up the whole string's. */
  ghost predicate Progress(s: seq<byte>, at: nat, done: seq<nat>) {
    && at <= |s|
    && (Codes(s, 0).Some? <==> Codes(s, at).Some?)
    && (Codes(s, at).Some? ==> Codes(s, 0).value == done + Codes(s, at).value)
  }

  lemma ProgressNext(s: seq<byte>, at: nat, done: seq<nat>)
    requires at < |s| && Progress(s, at, done) && NextCode(s, at).Next?
    ensures NextCode(s, at).at <= |s| && Progress(s, NextCode(s, at).at, done + [NextCode(s, at).code])
  {
    var n := NextCode(s, at);
    NextWithin(s, at);
    if Codes(s, n.at).Some? {
      assert done + ([n.code] + Codes(s, n.at).value) == (done + [n.code]) + Codes(s, n.at).value;
    }
  }

  /** The octets before `at` are escaped in `body`. */
  ghost predicate Written(s: seq<byte>, at: nat, done: seq<nat>, body: string) {
    Progress(s, at, done) && Escapable(done) && body == Escaped(done)
  }

  lemma WrittenNext(s: seq<byte>, at: nat, done: seq<nat>, body: string)
    requires at < |s| && Written(s, at, done, body) && NextCode(s, at).Next?
    ensures var n := NextCode(s, at);
            && n.code < CODE_LIMIT && at < n.at <= |s|
            && Written(s, n.at, done + [n.code], body + EscapeCode(n.code))
  {
    NextBounded(s, at);
    NextWithin(s, at);
    ProgressNext(s, at, done);
    EscapedSnoc(done, NextCode(s, at).code);
  }

  lemma WrittenStart(s: seq<byte>)
    ensures Written(s, 0, [], "")
  {
    if Codes(s, 0).Some? {
      assert [] + Codes(s, 0).value == Codes(s, 0).value;
    }
  }

  lemma WrittenEnd(s: seq<byte>, done: seq<nat>, body: string)
    requires Written(s, |s|, done, body)
    ensures Codes(s, 0).Some? && Quoted(s) == "\"" + (body + "\"")
  {
    assert done + [] == done;
  }

  /** put_string: the quoted, ASCII-only string after the buffer, or nothing when it is not UTF-8. */
  method PutString(b: string, s: seq<byte>) returns (r: Option<string>)
    requires NoNul(s)
    ensures r == if Codes(s, 0).Some? then Some(b + Quoted(s)) else None
  {
    var body, at := "", 0;
    ghost var done: seq<nat> := [];
    WrittenStart(s);
    while At(s, at) != 0
      invariant Written(s, at, done, body)
      decreases |s| - at
    {
      var n := Utf8Next(s, at);
      if n.Bad? {
        return None;
      }
      WrittenNext(s, at, done, body);
      body := body + EscapeCode(n.code);
      done := done + [n.code];
      at := n.at;
    }
    WrittenEnd(s, done, body);
    return Some(b + ("\"" + (body + "\"")));
  }

  // ----- layout

  lemma {:induction false} IndentSnoc(n: nat)
    ensures Indent(n) + "  " == Indent(n + 1)
  {
    if n > 0 {
      IndentSnoc(n - 1);
      assert Indent(n) + "  " == "  " + (Indent(n - 1) + "  ");
    }
  }

  method PutIndent(b: string, n: nat) returns (out: string)
    ensures out == b + Indent(n)
  {
    out := b;
    for i := 0 to n
      invariant out == b + Indent(i)
    {
      IndentSnoc(i);
      out := out + "  ";
    }
  }

  /** put_item_start. */
  method PutItemStart(b: string, style: Style, depth: nat, first: bool) returns (out: string)
    ensures out == b + ItemStart(style, depth, first)
  {
    if style != Indent2 {
      return if first then b else b + (if style == Compact then "," else ", ");
    }
    out := if first then b else b + ",";
    out := out + "\n";
    out := PutIndent(out, depth + 1);
  }

  /** put_end. */
  method PutEnd(b: string, style: Style, depth: nat, close: char) returns (out: string)
    ensures out == b + End(style, depth, close)
  {
    out := b;
    if style == Indent2 {
      out := PutIndent(out + "\n", depth);
    }
    out := out + [close];
  }

  lemma Regroup(a: string, b: string, c: string, d: string)
    ensures a + (b + (c + d)) == (a + (b + c)) + d
  {
  }

  lemma {:induction false} LinesSnoc(texts: seq<string>, t: string, style: Style, depth: nat, first: bool)
    ensures Lines(texts + [t], style, depth, first)
         == Lines(texts, style, depth, first) + (ItemStart(style, depth, first && texts == []) + t)
    decreases |texts|
  {
    var more := texts + [t];
    if texts == [] {
      assert more == [t] && more[1..] == [];
      assert t + "" == t;
    } else {
      var tail := ItemStart(style, depth, false) + t;
      assert more[0] == texts[0] && more[1..] == texts[1..] + [t];
      LinesSnoc(texts[1..], t, style, depth, false);
      Regroup(ItemStart(style, depth, first), texts[0], Lines(texts[1..], style, depth, false), tail);
    }
  }

  // ----- values

  /** Every string of the value is a C string. */
  ghost predicate CStrings(v: Json) {
    match v
    case String(s) => NoNul(s)
    case Array(items) => forall i :: 0 <= i < |items| ==> CStrings(items[i])
    case Object(ms) => forall i :: 0 <= i < |ms| ==> NoNul(ms[i].key) && CStrings(ms[i].value)
    case _ => true
  }

  /** The texts of an array's items as dump writes them. */
  function ItemTexts(items: seq<Json>, style: Style, sort: bool, depth: nat): (r: seq<string>)
    requires AllPrintable(items)
    ensures |r| == |items|
  {
    seq(|items|, k requires 0 <= k < |items| => DumpText(items[k], style, sort, depth + 1).value)
  }

  lemma ArrayText(items: seq<Json>, style: Style, sort: bool, depth: nat)
    requires AllPrintable(items)
    ensures DumpText(Array(items), style, sort, depth)
         == Some(Container('[', ItemTexts(items, style, sort, depth), ']', style, depth))
  {
    var v := Array(items);
    NormalKeeps(v);
    var shown := Shown(v, sort);
    assert shown.Array? && |shown.items| == |items|;
    assert forall k :: 0 <= k < |items| ==> shown.items[k] == Shown(items[k], sort);
    var texts := seq(|shown.items|, k requires 0 <= k < |shown.items| => Print(shown.items[k], style, depth + 1));
    assert texts == ItemTexts(items, style, sort, depth);
  }

  lemma ItemTextsSnoc(items: seq<Json>, i: nat, style: Style, sort: bool, depth: nat)
    requires i < |items| && AllPrintable(items[..i + 1])
    ensures AllPrintable(items[..i]) && Printable(items[i])
    ensures ItemTexts(items[..i + 1], style, sort, depth)
         == ItemTexts(items[..i], style, sort, depth) + [DumpText(items[i], style, sort, depth + 1).value]
  {
    assert items[..i + 1][i] == items[i];
    assert forall k :: 0 <= k < i ==> items[..i][k] == items[..i + 1][k];
  }

  function MemberTexts(ms: seq<Member>, style: Style, sort: bool, depth: nat): (r: seq<string>)
    requires MembersPrintable(ms)
    ensures |r| == |ms|
  {
    seq(|ms|, k requires 0 <= k < |ms| =>
      MemberText(ms[k].key, style, DumpText(ms[k].value, style, sort, depth + 1).value))
  }

  lemma MemberTextsSnoc(ms: seq<Member>, i: nat, style: Style, sort: bool, depth: nat)
    requires i < |ms| && MembersPrintable(ms[..i + 1])
    ensures MembersPrintable(ms[..i]) && Codes(ms[i].key, 0).Some? && Printable(ms[i].value)
    ensures MemberTexts(ms[..i + 1], style, sort, depth)
         == MemberTexts(ms[..i], style, sort, depth)
            + [MemberText(ms[i].key, style, DumpText(ms[i].value, style, sort, depth + 1).value)]
  {
    assert ms[..i + 1][i] == ms[i];
    assert forall k :: 0 <= k < i ==> ms[..i][k] == ms[..i + 1][k];
  }

  lemma NormalCons(m: Member, ms: seq<Member>)
    ensures NormalMembers([m] + ms) == [Member(m.key, Normalize(m.value))] + NormalMembers(ms)
  {
  }

  /** Sorting by key does not look at the values. */
  lemma {:induction false} InsertCommutes(m: Member, ms: seq<Member>)
    ensures NormalMembers(Insert(m, ms)) == Insert(Member(m.key, Normalize(m.value)), NormalMembers(ms))
    decreases |ms|
  {
    if ms == [] || Lex(m.key, ms[0].key) <= 0 {
      NormalCons(m, ms);
    } else {
      assert NormalMembers(ms)[1..] == NormalMembers(ms[1..]);
      InsertCommutes(m, ms[1..]);
      NormalCons(ms[0], Insert(m, ms[1..]));
    }
  }

  lemma {:induction false} SortCommutes(ms: seq<Member>)
    ensures NormalMembers(Sort(ms)) == Sort(NormalMembers(ms))
    decreases |ms|
  {
    if ms != [] {
      SortCommutes(ms[1..]);
      assert NormalMembers(ms)[1..] == NormalMembers(ms[1..]);
      InsertCommutes(ms[0], Sort(ms[1..]));
    }
  }

  /** The members in the order dump writes them. */
  function Ordered(ms: seq<Member>, sort: bool): seq<Member> {
    if sort then Sort(ms) else ms
  }

  lemma OrderedKeeps(ms: seq<Member>, sort: bool)
    ensures |Ordered(ms, sort)| == |ms|
    ensures MembersPrintable(Ordered(ms, sort)) <==> MembersPrintable(ms)
    ensures forall i :: 0 <= i < |ms| ==> Ordered(ms, sort)[i] in ms
  {
    var os := Ordered(ms, sort);
    forall i | 0 <= i < |os|
      ensures os[i] in ms
    {
      SortKeeps(ms, os[i]);
    }
    forall i | 0 <= i < |ms|
      ensures ms[i] in os
    {
      SortKeeps(ms, ms[i]);
    }
    if MembersPrintable(os) {
      forall i | 0 <= i < |ms|
        ensures Codes(ms[i].key, 0).Some? && Printable(ms[i].value)
      {
        var j :| 0 <= j < |os| && os[j] == ms[i];
      }
    }
  }

  lemma ObjectText(ms: seq<Member>, style: Style, sort: bool, depth: nat)
    requires MembersPrintable(ms) && MembersPrintable(Ordered(ms, sort))
    ensures DumpText(Object(ms), style, sort, depth)
         == Some(Container('{', MemberTexts(Ordered(ms, sort), style, sort, depth), '}', style, depth))
  {
    var v, os := Object(ms), Ordered(ms, sort);
    NormalKeeps(v);
    NormalObject(ms);
    SortCommutes(ms);
    var shown := Shown(v, sort).members;
    assert |shown| == |os|;
    assert forall k :: 0 <= k < |os| ==> shown[k] == Member(os[k].key, Shown(os[k].value, sort));
    var texts := seq(|shown|, k requires 0 <= k < |shown| =>
      MemberText(shown[k].key, style, Print(shown[k].value, style, depth + 1)));
    assert texts == MemberTexts(os, style, sort, depth);
  }

  /** dump: the text of the value after the buffer, or nothing when some part cannot be printed. */
  method Dump(b: string, v: Json, style: Style, sort: bool, depth: nat) returns (r: Option<string>)
    requires CStrings(v)
    ensures r == if Printable(v) then Some(b + DumpText(v, style, sort, depth).value) else None
    decreases v, 1
  {
    match v
    case Null => return Some(b + "null");
    case Bool(x) => return Some(b + (if x then "true" else "false"));
    case Number(n) => return Some(b + Decimal(n));
    case String(s) =>
      r := PutString(b, s);
    case Array(items) =>
      if items == [] {
        return Some(b + "[]");
      }
      r := DumpItems(b + "[", items, style, sort, depth);
      if r.Some? {
        assert items[..|items|] == items;
        ArrayText(items, style, sort, depth);
        var out := PutEnd(r.value, style, depth, ']');
        r := Some(out);
        Enclosed(b, '[', ItemTexts(items, style, sort, depth), ']', style, depth);
      }
    case Object(ms) =>
      if ms == [] {
        return Some(b + "{}");
      }
      OrderedKeeps(ms, sort);
      r := DumpMembers(b + "{", ms, style, sort, depth);
      if r.Some? {
        assert Ordered(ms, sort)[..|ms|] == Ordered(ms, sort);
        ObjectText(ms, style, sort, depth);
        var out := PutEnd(r.value, style, depth, '}');
        r := Some(out);
        Enclosed(b, '{', MemberTexts(Ordered(ms, sort), style, sort, depth), '}', style, depth);
      }
    case Raw => return None;
  }

  lemma Enclosed(b: string, open: char, texts: seq<string>, close: char, style: Style, depth: nat)
    requires texts != []
    ensures (b + [open] + Lines(texts, style, depth, true)) + End(style, depth, close)
         == b + Container(open, texts, close, style, depth)
  {
    var lines, end := Lines(texts, style, depth, true), End(style, depth, close);
    Regroup3(b, [open], lines, end);
  }

  /** The first `i` items are printed after the buffer. */
  ghost predicate ItemsDone(b: string, items: seq<Json>, i: nat, style: Style, sort: bool, depth: nat, out: string) {
    && i <= |items| && AllPrintable(items[..i])
    && out == b + Lines(ItemTexts(items[..i], style, sort, depth), style, depth, true)
  }

  lemma ItemsStart(b: string, items: seq<Json>, style: Style, sort: bool, depth: nat)
    ensures ItemsDone(b, items, 0, style, sort, depth, b)
  {
    assert ItemTexts(items[..0], style, sort, depth) == [];
    assert b + "" == b;
  }

  lemma ItemsStep(b: string, items: seq<Json>, i: nat, style: Style, sort: bool, depth: nat, out: string)
    requires i < |items| && ItemsDone(b, items, i, style, sort, depth, out) && Printable(items[i])
    ensures ItemsDone(b, items, i + 1, style, sort, depth,
                      (out + ItemStart(style, depth, i == 0)) + DumpText(items[i], style, sort, depth + 1).value)
  {
    var texts, t := ItemTexts(items[..i], style, sort, depth), DumpText(items[i], style, sort, depth + 1).value;
    assert AllPrintable(items[..i + 1]);
    ItemTextsSnoc(items, i, style, sort, depth);
    LinesSnoc(texts, t, style, depth, true);
    Regroup3(b, Lines(texts, style, depth, true), ItemStart(style, depth, i == 0), t);
  }

  lemma Regroup3(b: string, lines: string, start: string, t: string)
    ensures ((b + lines) + start) + t == b + (lines + (start + t))
  {
  }

  method DumpItems(b: string, items: seq<Json>, style: Style, sort: bool, depth: nat) returns (r: Option<string>)
    requires forall i :: 0 <= i < |items| ==> CStrings(items[i])
    ensures r.Some? <==> AllPrintable(items)
    ensures r.Some? ==> ItemsDone(b, items, |items|, style, sort, depth, r.value)
    decreases items, 0
  {
    var out := b;
    ItemsStart(b, items, style, sort, depth);
    for i := 0 to |items|
      invariant ItemsDone(b, items, i, style, sort, depth, out)
    {
      var start := PutItemStart(out, style, depth, i == 0);
      r := Dump(start, items[i], style, sort, depth + 1);
      if r.None? {
        return;
      }
      ItemsStep(b, items, i, style, sort, depth, out);
      out := r.value;
    }
    assert items[..|items|] == items;
    r := Some(out);
  }

  /** The first `i` members are printed after the buffer. */
  ghost predicate MembersDone(b: string, os: seq<Member>, i: nat, style: Style, sort: bool, depth: nat, out: string) {
    && i <= |os| && MembersPrintable(os[..i])
    && out == b + Lines(MemberTexts(os[..i], style, sort, depth), style, depth, true)
  }

  lemma MembersStart(b: string, os: seq<Member>, style: Style, sort: bool, depth: nat)
    ensures MembersDone(b, os, 0, style, sort, depth, b)
  {
    assert MemberTexts(os[..0], style, sort, depth) == [];
    assert b + "" == b;
  }

  lemma MembersStep(b: string, os: seq<Member>, i: nat, style: Style, sort: bool, depth: nat, out: string)
    requires i < |os| && MembersDone(b, os, i, style, sort, depth, out)
    requires Codes(os[i].key, 0).Some? && Printable(os[i].value)
    ensures MembersDone(b, os, i + 1, style, sort, depth,
                        ((out + ItemStart(style, depth, i == 0)) + Quoted(os[i].key) + KeySep(style))
                        + DumpText(os[i].value, style, sort, depth + 1).value)
  {
    var texts, text := MemberTexts(os[..i], style, sort, depth), DumpText(os[i].value, style, sort, depth + 1).value;
    PrintableSnoc(os, i);
    MemberTextsSnoc(os, i, style, sort, depth);
    assert |texts| == i;
    MemberLine(b, texts, os[i].key, text, style, depth, out);
  }

  lemma PrintableSnoc(os: seq<Member>, i: nat)
    requires i < |os| && MembersPrintable(os[..i]) && Codes(os[i].key, 0).Some? && Printable(os[i].value)
    ensures MembersPrintable(os[..i + 1])
  {
    assert os[..i + 1] == os[..i] + [os[i]];
  }

  /** The lines written, one member more. */
  lemma MemberLine(b: string, texts: seq<string>, key: seq<byte>, text: string, style: Style, depth: nat, out: string)
    requires Codes(key, 0).Some? && out == b + Lines(texts, style, depth, true)
    ensures ((out + ItemStart(style, depth, texts == [])) + Quoted(key) + KeySep(style)) + text
         == b + Lines(texts + [MemberText(key, style, text)], style, depth, true)
  {
    var t, start := MemberText(key, style, text), ItemStart(style, depth, texts == []);
    LinesSnoc(texts, t, style, depth, true);
    Appended(out, style, depth, texts == [], key, text);
    Regroup3(b, Lines(texts, style, depth, true), start, t);
  }

  method DumpMembers(b: string, ms: seq<Member>, style: Style, sort: bool, depth: nat) returns (r: Option<string>)
    requires forall i :: 0 <= i < |ms| ==> NoNul(ms[i].key) && CStrings(ms[i].value)
    ensures r.Some? <==> MembersPrintable(Ordered(ms, sort))
    ensures r.Some? ==> MembersDone(b, Ordered(ms, sort), |ms|, style, sort, depth, r.value)
    decreases ms, 0
  {
    var out, os := b, Ordered(ms, sort);
    OrderedKeeps(ms, sort);
    MembersStart(b, os, style, sort, depth);
    for i := 0 to |os|
      invariant MembersDone(b, os, i, style, sort, depth, out)
    {
      assert os[i] in ms;
      var start := PutItemStart(out, style, depth, i == 0);
      var key := PutString(start, os[i].key);
      if key.None? {
        return None;
      }
      r := Dump(key.value + KeySep(style), os[i].value, style, sort, depth + 1);
      if r.None? {
        return;
      }
      MembersStep(b, os, i, style, sort, depth, out);
      out := r.value;
    }
    assert os[..|os|] == os;
    r := Some(out);
  }

  lemma Appended(out: string, style: Style, depth: nat, first: bool, key: seq<byte>, text: string)
    requires Codes(key, 0).Some?
    ensures ((out + ItemStart(style, depth, first)) + Quoted(key) + KeySep(style)) + text
         == (out + ItemStart(style, depth, first)) + MemberText(key, style, text)
  {
  }

  /** em_json_dumps: dump into an empty buffer. */
  method JsonDumps(v: Json, style: Style, sort: bool) returns (r: Option<string>)
    requires CStrings(v)
    ensures r == Dumps(v, style, sort)
    ensures r.Some? ==> TextLayout.Followed(style, r.value)
  {
    r := Dump("", v, style, sort, 0);
    if r.Some? {
      TextLayout.DumpsFollowed(v, style, sort);
      assert "" + Dumps(v, style, sort).value == Dumps(v, style, sort).value;
    }
  }
}
