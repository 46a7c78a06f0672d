/** The printed text is canonical: equal for equal values, and only for those. */
module Canonical {
  import opened Bytes
  import opened Utf8
  import opened KeyOrder
  import opened JsonText
  import opened JsonParser
  import opened JsonRoundTrip

  // ----- sorting

  ghost predicate Sorted(ms: seq<Member>) {
    forall i, j :: 0 <= i < j < |ms| ==> Lex(ms[i].key, ms[j].key) <= 0
  }

  ghost predicate SameMembers(a: seq<Member>, b: seq<Member>) {
    forall m :: m in a <==> m in b
  }

  lemma {:induction false} InsertCounts(m: Member, ms: seq<Member>)
    ensures multiset(Insert(m, ms)) == multiset(ms) + multiset{m}
    decreases |ms|
  {
    if ms != [] {
      assert ms == [ms[0]] + ms[1..];
      if Lex(m.key, ms[0].key) > 0 {
        InsertCounts(m, ms[1..]);
      }
    }
  }

  lemma SortedCons(m: Member, ms: seq<Member>)
    requires Sorted(ms) && forall x :: x in ms ==> Lex(m.key, x.key) <= 0
    ensures Sorted([m] + ms)
  {
  }

  lemma {:induction false} InsertSorted(m: Member, ms: seq<Member>)
    requires Sorted(ms)
    ensures Sorted(Insert(m, ms))
    decreases |ms|
  {
    if ms == [] {
    } else if Lex(m.key, ms[0].key) <= 0 {
      forall x | x in ms
        ensures Lex(m.key, x.key) <= 0
      {
        var j :| 0 <= j < |ms| && ms[j] == x;
        if j > 0 {
          LexTransitive(m.key, ms[0].key, x.key);
        }
      }
      SortedCons(m, ms);
    } else {
      var rest := Insert(m, ms[1..]);
      InsertSorted(m, ms[1..]);
      InsertCounts(m, ms[1..]);
      LexAntisymmetric(m.key, ms[0].key);
      forall x | x in rest
        ensures Lex(ms[0].key, x.key) <= 0
      {
        assert x in multiset(rest);
        assert x == m || x in ms[1..];
      }
      SortedCons(ms[0], rest);
    }
  }

  /** The sort em_sort stands for: ordered by key, and the same members. */
  lemma {:induction false} SortSorts(ms: seq<Member>)
    ensures Sorted(Sort(ms)) && multiset(Sort(ms)) == multiset(ms)
    decreases |ms|
  {
    if ms != [] {
      SortSorts(ms[1..]);
      InsertSorted(ms[0], Sort(ms[1..]));
      InsertCounts(ms[0], Sort(ms[1..]));
      assert ms == [ms[0]] + ms[1..];
    }
  }

  lemma SortKeeps(ms: seq<Member>, m: Member)
    ensures m in Sort(ms) <==> m in ms
  {
    SortSorts(ms);
    assert m in multiset(Sort(ms)) <==> m in multiset(ms);
  }

  ghost predicate DistinctNames(ms: seq<Member>) {
    forall i, j :: 0 <= i < j < |ms| ==> ms[i].key != ms[j].key
  }

  ghost predicate Strict(ms: seq<Member>) {
    forall i, j :: 0 <= i < j < |ms| ==> Lex(ms[i].key, ms[j].key) < 0
  }

  /** Strictly ordered members are determined by their set: any correct sort gives the same list. */
  lemma {:induction false} StrictUnique(a: seq<Member>, b: seq<Member>)
    requires Strict(a) && Strict(b) && SameMembers(a, b)
    ensures a == b
    decreases |a|
  {
    assert b != [] ==> b[0] in b;
    if a != [] {
      assert a[0] in b && b != [];
      SameFirst(a, b);
      forall m
        ensures m in a[1..] <==> m in b[1..]
      {
        NotFirst(a, m);
        NotFirst(b, m);
      }
      StrictUnique(a[1..], b[1..]);
      assert a == [a[0]] + a[1..] && b == [b[0]] + b[1..];
    }
  }

  lemma SameFirst(a: seq<Member>, b: seq<Member>)
    requires Strict(a) && Strict(b) && SameMembers(a, b) && a != [] && b != []
    ensures a[0] == b[0]
  {
    assert a[0] in b && b[0] in a;
    var j :| 0 <= j < |b| && b[j] == a[0];
    var i :| 0 <= i < |a| && a[i] == b[0];
    LexAntisymmetric(a[0].key, b[0].key);
  }

  lemma NotFirst(a: seq<Member>, m: Member)
    requires Strict(a) && a != []
    ensures m in a[1..] <==> m in a && m != a[0]
  {
    LexAntisymmetric(a[0].key, a[0].key);
    if m in a && m != a[0] {
      var i :| 0 <= i < |a| && a[i] == m;
      assert a[1..][i - 1] == m;
    }
    if m in a[1..] {
      var i :| 0 <= i < |a[1..]| && a[1..][i] == m;
      assert a[i + 1] == m;
    }
  }

  lemma {:induction false} InsertKeeps(m: Member, ms: seq<Member>, x: Member)
    ensures x in Insert(m, ms) <==> x == m || x in ms
    decreases |ms|
  {
    if ms != [] {
      assert ms == [ms[0]] + ms[1..];
      InsertKeeps(m, ms[1..], x);
    }
  }

  lemma {:induction false} InsertStrict(m: Member, ms: seq<Member>)
    requires Strict(ms) && forall k :: 0 <= k < |ms| ==> ms[k].key != m.key
    ensures Strict(Insert(m, ms))
    decreases |ms|
  {
    if ms != [] {
      LexAntisymmetric(m.key, ms[0].key);
      if Lex(m.key, ms[0].key) <= 0 {
        forall j | 0 < j < |ms|
          ensures Lex(m.key, ms[j].key) < 0
        {
          LexTransitive(m.key, ms[0].key, ms[j].key);
        }
      } else {
        InsertStrict(m, ms[1..]);
        var rest := Insert(m, ms[1..]);
        forall j | 0 <= j < |rest|
          ensures Lex(ms[0].key, rest[j].key) < 0
        {
          InsertKeeps(m, ms[1..], rest[j]);
          assert rest[j] == m || rest[j] in ms[1..];
        }
      }
    }
  }

  lemma {:induction false} SortStrict(ms: seq<Member>)
    requires DistinctNames(ms)
    ensures Strict(Sort(ms))
    decreases |ms|
  {
    if ms != [] {
      SortStrict(ms[1..]);
      var rest := Sort(ms[1..]);
      forall k | 0 <= k < |rest|
        ensures rest[k].key != ms[0].key
      {
        SortKeeps(ms[1..], rest[k]);
        var j :| 0 <= j < |ms[1..]| && ms[1..][j] == rest[k];
        assert ms[j + 1] == rest[k];
      }
      InsertStrict(ms[0], Sort(ms[1..]));
    }
  }

  // ----- normal values

  /** An object's members with normal values, before they are sorted. */
  function NormalMembers(ms: seq<Member>): (r: seq<Member>)
    ensures |r| == |ms| && forall k :: 0 <= k < |ms| ==> r[k] == Member(ms[k].key, Normalize(ms[k].value))
  {
    seq(|ms|, k requires 0 <= k < |ms| => Member(ms[k].key, Normalize(ms[k].value)))
  }

  lemma NormalObject(ms: seq<Member>)
    ensures Normalize(Object(ms)) == Object(Sort(NormalMembers(ms)))
  {
    assert NormalMembers(ms) == seq(|ms|, k requires 0 <= k < |ms| => Member(ms[k].key, Normalize(ms[k].value)));
  }

  lemma NormalMember(ms: seq<Member>, m: Member)
    ensures m in Sort(NormalMembers(ms))
       <==> exists k :: 0 <= k < |ms| && m == Member(ms[k].key, Normalize(ms[k].value))
  {
    SortKeeps(NormalMembers(ms), m);
    if k :| 0 <= k < |ms| && m == Member(ms[k].key, Normalize(ms[k].value)) {
      assert NormalMembers(ms)[k] == m;
    }
  }

  /** Sorting changes neither what dump accepts nor what is well-formed. */
  lemma {:induction false} NormalKeeps(v: Json)
    ensures Printable(Normalize(v)) <==> Printable(v)
    ensures Sound(Normalize(v)) <==> Sound(v)
    decreases v
  {
    match v
    case Array(items) =>
      forall k | 0 <= k < |items|
        ensures Printable(Normalize(items[k])) <==> Printable(items[k])
        ensures Sound(Normalize(items[k])) <==> Sound(items[k])
      {
        NormalKeeps(items[k]);
      }
      var w := Normalize(v);
      assert forall k :: 0 <= k < |items| ==> w.items[k] == Normalize(items[k]);
    case Object(ms) =>
      forall k | 0 <= k < |ms|
        ensures Printable(Normalize(ms[k].value)) <==> Printable(ms[k].value)
        ensures Sound(Normalize(ms[k].value)) <==> Sound(ms[k].value)
      {
        NormalKeeps(ms[k].value);
      }
      NormalObject(ms);
      PrintableMembers(ms, Sort(NormalMembers(ms)));
      SoundMembers(ms, Sort(NormalMembers(ms)));
    case _ =>
  }

  /** Each normal member stands for one of the object's, and each of the object's for one of them. */
  lemma NormalIndex(ms: seq<Member>, ns: seq<Member>, i: nat) returns (k: nat)
    requires ns == Sort(NormalMembers(ms)) && i < |ns|
    ensures k < |ms| && ns[i] == Member(ms[k].key, Normalize(ms[k].value))
  {
    assert ns[i] in ns;
    NormalMember(ms, ns[i]);
    k :| 0 <= k < |ms| && ns[i] == Member(ms[k].key, Normalize(ms[k].value));
  }

  lemma IndexOfNormal(ms: seq<Member>, ns: seq<Member>, k: nat) returns (i: nat)
    requires ns == Sort(NormalMembers(ms)) && k < |ms|
    ensures i < |ns| && ns[i] == Member(ms[k].key, Normalize(ms[k].value))
  {
    NormalMember(ms, Member(ms[k].key, Normalize(ms[k].value)));
    i :| 0 <= i < |ns| && ns[i] == Member(ms[k].key, Normalize(ms[k].value));
  }

  lemma PrintableMembers(ms: seq<Member>, ns: seq<Member>)
    requires ns == Sort(NormalMembers(ms))
    requires forall k :: 0 <= k < |ms| ==> (Printable(Normalize(ms[k].value)) <==> Printable(ms[k].value))
    ensures MembersPrintable(ns) <==> MembersPrintable(ms)
  {
    if MembersPrintable(ms) {
      forall i | 0 <= i < |ns|
        ensures Codes(ns[i].key, 0).Some? && Printable(ns[i].value)
      {
        var k := NormalIndex(ms, ns, i);
      }
    }
    if MembersPrintable(ns) {
      forall k | 0 <= k < |ms|
        ensures Codes(ms[k].key, 0).Some? && Printable(ms[k].value)
      {
        var i := IndexOfNormal(ms, ns, k);
      }
    }
  }

  lemma SoundMembers(ms: seq<Member>, ns: seq<Member>)
    requires ns == Sort(NormalMembers(ms))
    requires forall k :: 0 <= k < |ms| ==> (Sound(Normalize(ms[k].value)) <==> Sound(ms[k].value))
    ensures MembersSound(ns) <==> MembersSound(ms)
  {
    if MembersSound(ms) {
      forall i | 0 <= i < |ns|
        ensures WellFormed(ns[i].key) && Sound(ns[i].value)
      {
        var k := NormalIndex(ms, ns, i);
      }
    }
    if MembersSound(ns) {
      forall k | 0 <= k < |ms|
        ensures WellFormed(ms[k].key) && Sound(ms[k].value)
      {
        var i := IndexOfNormal(ms, ns, k);
      }
    }
  }

  // ----- equality up to member order

  /** The values are equal up to the order of object members, at every depth. */
  ghost predicate Same(v: Json, w: Json)
    decreases v, 2
  {
    match v
    case Array(items) =>
      w.Array? && |w.items| == |items| && forall k :: 0 <= k < |items| ==> Same(items[k], w.items[k])
    case Object(ms) =>
      && w.Object?
      && (forall i: nat :: i < |ms| ==> HasMate(ms, w.members, i))
      && (forall j: nat :: j < |w.members| ==> IsMate(ms, w.members, j))
    case _ => v == w
  }

  /** Member `i` of one and member `j` of the other have one name and values equal up to order. */
  ghost predicate SamePair(ms: seq<Member>, ns: seq<Member>, i: nat, j: nat)
    decreases ms, 0
  {
    i < |ms| && j < |ns| && ms[i].key == ns[j].key && Same(ms[i].value, ns[j].value)
  }

  ghost predicate HasMate(ms: seq<Member>, ns: seq<Member>, i: nat)
    decreases ms, 1
  {
    exists j: nat :: SamePair(ms, ns, i, j)
  }

  ghost predicate IsMate(ms: seq<Member>, ns: seq<Member>, j: nat)
    decreases ms, 1
  {
    exists i: nat :: SamePair(ms, ns, i, j)
  }

  /** No object has two members of one name, at any depth. */
  ghost predicate Distinct(v: Json) {
    match v
    case Array(items) => forall k :: 0 <= k < |items| ==> Distinct(items[k])
    case Object(ms) => DistinctNames(ms) && forall k :: 0 <= k < |ms| ==> Distinct(ms[k].value)
    case _ => true
  }

  /** Values equal up to member order have one normal form. */
  lemma {:induction false} SameNormal(v: Json, w: Json)
    requires Same(v, w) && Distinct(v) && Distinct(w)
    ensures Normalize(v) == Normalize(w)
    decreases v
  {
    if v.Array? {
      forall k | 0 <= k < |v.items|
        ensures Normalize(v.items[k]) == Normalize(w.items[k])
      {
        SameNormal(v.items[k], w.items[k]);
      }
    } else if v.Object? {
      NormalObject(v.members);
      NormalObject(w.members);
      SameNormalMembers(v.members, w.members);
      SameSorted(v.members, w.members);
    }
  }

  lemma {:induction false} SameNormalMembers(ms: seq<Member>, ns: seq<Member>)
    requires Same(Object(ms), Object(ns)) && Distinct(Object(ms)) && Distinct(Object(ns))
    ensures Matched(ms, ns) && Matched(ns, ms)
    decreases ms
  {
    forall i: nat | i < |ms|
      ensures HasNormalMate(ms, ns, i)
    {
      assert HasMate(ms, ns, i);
      var j: nat :| SamePair(ms, ns, i, j);
      SameNormal(ms[i].value, ns[j].value);
      assert NormalPair(ms, ns, i, j);
    }
    forall j: nat | j < |ns|
      ensures HasNormalMate(ns, ms, j)
    {
      assert IsMate(ms, ns, j);
      var i: nat :| SamePair(ms, ns, i, j);
      SameNormal(ms[i].value, ns[j].value);
      assert NormalPair(ns, ms, j, i);
    }
  }

  ghost predicate NormalPair(ms: seq<Member>, ns: seq<Member>, i: nat, j: nat) {
    i < |ms| && j < |ns| && ms[i].key == ns[j].key && Normalize(ms[i].value) == Normalize(ns[j].value)
  }

  /** Each member of one has a member of the other with its key and normal value. */
  ghost predicate Matched(ms: seq<Member>, ns: seq<Member>) {
    forall i: nat :: i < |ms| ==> HasNormalMate(ms, ns, i)
  }

  ghost predicate HasNormalMate(ms: seq<Member>, ns: seq<Member>, i: nat) {
    exists j: nat :: NormalPair(ms, ns, i, j)
  }

  lemma SameSorted(ms: seq<Member>, ns: seq<Member>)
    requires DistinctNames(ms) && DistinctNames(ns) && Matched(ms, ns) && Matched(ns, ms)
    ensures Sort(NormalMembers(ms)) == Sort(NormalMembers(ns))
  {
    var a, b := Sort(NormalMembers(ms)), Sort(NormalMembers(ns));
    SortStrict(NormalMembers(ms));
    SortStrict(NormalMembers(ns));
    forall m
      ensures m in a <==> m in b
    {
      MatchedIn(ms, ns, m);
      MatchedIn(ns, ms, m);
    }
    StrictUnique(a, b);
  }

  lemma MatchedIn(ms: seq<Member>, ns: seq<Member>, m: Member)
    requires Matched(ms, ns)
    ensures m in Sort(NormalMembers(ms)) ==> m in Sort(NormalMembers(ns))
  {
    NormalMember(ms, m);
    if m in Sort(NormalMembers(ms)) {
      var i :| 0 <= i < |ms| && m == Member(ms[i].key, Normalize(ms[i].value));
      assert HasNormalMate(ms, ns, i);
      var j: nat :| NormalPair(ms, ns, i, j);
      NormalMember(ns, m);
    }
  }

  /** Values with one normal form are equal up to member order. */
  lemma {:induction false} NormalSame(v: Json, w: Json)
    requires Normalize(v) == Normalize(w)
    ensures Same(v, w)
    decreases v
  {
    if v.Array? {
      forall k | 0 <= k < |v.items|
        ensures Same(v.items[k], w.items[k])
      {
        assert Normalize(v).items[k] == Normalize(w).items[k];
        NormalSame(v.items[k], w.items[k]);
      }
    } else if v.Object? {
      NormalObject(v.members);
      NormalObject(w.members);
      SortedMatched(v.members, w.members);
      SortedMatched(w.members, v.members);
      MatchedSame(v.members, w.members);
    }
  }

  lemma {:induction false} MatchedSame(ms: seq<Member>, ns: seq<Member>)
    requires Matched(ms, ns) && Matched(ns, ms)
    ensures Same(Object(ms), Object(ns))
    decreases ms
  {
    forall i: nat | i < |ms|
      ensures HasMate(ms, ns, i)
    {
      assert HasNormalMate(ms, ns, i);
      var j: nat :| NormalPair(ms, ns, i, j);
      NormalSame(ms[i].value, ns[j].value);
      assert SamePair(ms, ns, i, j);
    }
    forall j: nat | j < |ns|
      ensures IsMate(ms, ns, j)
    {
      assert HasNormalMate(ns, ms, j);
      var i: nat :| NormalPair(ns, ms, j, i);
      NormalSame(ms[i].value, ns[j].value);
      assert SamePair(ms, ns, i, j);
    }
  }

  lemma SortedMatched(ms: seq<Member>, ns: seq<Member>)
    requires Sort(NormalMembers(ms)) == Sort(NormalMembers(ns))
    ensures Matched(ms, ns)
  {
    forall i: nat | i < |ms|
      ensures HasNormalMate(ms, ns, i)
    {
      var m := Member(ms[i].key, Normalize(ms[i].value));
      NormalMember(ms, m);
      NormalMember(ns, m);
      var j :| 0 <= j < |ns| && m == Member(ns[j].key, Normalize(ns[j].value));
      assert NormalPair(ms, ns, i, j);
    }
  }

  // ----- the printed text

  /** What dump writes for a value at a depth. */
  function DumpText(v: Json, style: Style, sort: bool, depth: nat): Option<string> {
    if !Printable(v) then None
    else
      NormalKeeps(v);
      Some(Print(Shown(v, sort), style, depth))
  }

  /** em_json_dumps. */
  function Dumps(v: Json, style: Style, sort: bool): Option<string> {
    DumpText(v, style, sort, 0)
  }

  /** Equal up to the order of members, without repeated names: one sorted text, or none for either. */
  lemma {:induction false} SameText(v: Json, w: Json, style: Style)
    requires Distinct(v) && Distinct(w) && Same(v, w)
    ensures Dumps(v, style, true) == Dumps(w, style, true)
  {
    NormalKeeps(v);
    NormalKeeps(w);
    SameNormal(v, w);
  }

  /** One sorted text of well-formed strings: equal up to the order of members. */
  lemma {:induction false} TextSame(v: Json, w: Json, style: Style)
    requires Printable(v) && Printable(w) && Sound(v) && Sound(w)
    requires Dumps(v, style, true) == Dumps(w, style, true)
    ensures Same(v, w)
  {
    NormalKeeps(v);
    NormalKeeps(w);
    ParsePrinted(Normalize(v), style);
    ParsePrinted(Normalize(w), style);
    NormalSame(v, w);
  }

  /**
   * The fingerprinted text: two values that dump prints, of well-formed strings and without
   * repeated names, have the same sorted text in a layout exactly when they are equal up to the
   * order of members.
   */
  lemma {:induction false} CanonicalText(v: Json, w: Json, style: Style)
    requires Printable(v) && Printable(w) && Sound(v) && Sound(w) && Distinct(v) && Distinct(w)
    ensures Dumps(v, style, true) == Dumps(w, style, true) <==> Same(v, w)
  {
    if Same(v, w) {
      SameText(v, w, style);
    }
    if Dumps(v, style, true) == Dumps(w, style, true) {
      TextSame(v, w, style);
    }
  }

  // ----- exactly the well-formed values survive the round trip

  /** Whatever the parser yields has only well-formed strings. */
  lemma {:induction false} ValueAtSound(t: string, i: nat)
    ensures ValueAt(t, i).Parsed? ==> Sound(ValueAt(t, i).value)
    decreases |t| - i, 0
  {
    if CharAt(t, i, '[') {
      ItemsAtSound(t, SkipSpace(t, i + 1));
    } else if CharAt(t, i, '{') {
      MembersAtSound(t, SkipSpace(t, i + 1));
      var ms := MembersAt(t, SkipSpace(t, i + 1));
      if ms.Parsed? {
        ListIsSound(ms.value);
      }
    }
  }

  lemma {:induction false} ItemsAtSound(t: string, i: nat)
    ensures ItemsAt(t, i).Parsed? ==> ItemsSound(ItemsAt(t, i).value)
    decreases |t| - i, 1
  {
    var v := ValueAt(t, i);
    ValueAtSound(t, i);
    if v.Parsed? {
      var j := SkipSpace(t, v.at);
      if CharAt(t, j, ',') {
        ItemsAtSound(t, SkipSpace(t, j + 1));
      }
    }
  }

  lemma {:induction false} MemberAtSound(t: string, i: nat)
    ensures var m := MemberAt(t, i); m.Parsed? ==> WellFormed(m.value.key) && Sound(m.value.value)
    decreases |t| - i, 0
  {
    var k := StringAt(t, i);
    if k.Parsed? {
      var j := SkipSpace(t, k.at);
      if CharAt(t, j, ':') {
        ValueAtSound(t, SkipSpace(t, j + 1));
      }
    }
  }

  /** The members are sound, one after the other. */
  ghost predicate ListSound(ms: seq<Member>) {
    ms == [] || (WellFormed(ms[0].key) && Sound(ms[0].value) && ListSound(ms[1..]))
  }

  lemma {:induction false} ListIsSound(ms: seq<Member>)
    requires ListSound(ms)
    ensures MembersSound(ms)
    decreases |ms|
  {
    if ms != [] {
      ListIsSound(ms[1..]);
      assert forall i :: 1 <= i < |ms| ==> ms[i] == ms[1..][i - 1];
    }
  }

  lemma ListSoundCons(m: Member, rest: seq<Member>, ms: seq<Member>)
    requires WellFormed(m.key) && Sound(m.value) && ListSound(rest) && ms == [m] + rest
    ensures ListSound(ms)
  {
    assert ms[1..] == rest;
  }

  /** How a member list is read: its first member, then its end or the rest. */
  /** The members parsed are the first and, unless it is the last, those that start at `next`. */
  lemma MembersAtCases(t: string, i: nat) returns (rest: seq<Member>, next: nat)
    requires MembersAt(t, i).Parsed?
    ensures MemberAt(t, i).Parsed? && MembersAt(t, i).value == [MemberAt(t, i).value] + rest && i <= next <= |t|
    ensures if next == i then rest == [] else MembersAt(t, next).Parsed? && rest == MembersAt(t, next).value
  {
    var m := MemberAt(t, i);
    var j := SkipSpace(t, m.at);
    if CharAt(t, j, '}') {
      rest, next := [], i;
      assert [m.value] + [] == [m.value];
    } else {
      next := SkipSpace(t, j + 1);
      rest := MembersAt(t, next).value;
    }
  }

  lemma {:induction false} MembersAtSound(t: string, i: nat)
    ensures MembersAt(t, i).Parsed? ==> ListSound(MembersAt(t, i).value)
    decreases |t| - i, 1
  {
    var m, ms := MemberAt(t, i), MembersAt(t, i);
    if ms.Parsed? {
      var rest, next := MembersAtCases(t, i);
      MemberAtSound(t, i);
      if next > i {
        MembersAtSound(t, next);
      }
      ListSoundCons(m.value, rest, ms.value);
    }
  }

  /**
   * The text of a value that dump prints parses back to that value, its members sorted if they
   * were, exactly when every string in it is well-formed UTF-8: utf8_next itself also accepts
   * overlong forms, encoded surrogates and values beyond Unicode.
   */
  lemma {:induction false} TextRoundTripsIffSound(v: Json, style: Style, sort: bool)
    requires Printable(v)
    ensures ParseText(Dumps(v, style, sort).value) == Some(Shown(v, sort)) <==> Sound(v)
  {
    NormalKeeps(v);
    var t := Dumps(v, style, sort).value;
    if Sound(v) {
      ParsePrinted(Shown(v, sort), style);
    }
    ValueAtSound(t, SkipSpace(t, 0));
  }

  /** Equal text, equal value: without sorting, nothing at all is lost. */
  lemma {:induction false} TextDeterminesValue(v: Json, w: Json, style: Style)
    requires Printable(v) && Printable(w) && Sound(v) && Sound(w)
    requires Dumps(v, style, false) == Dumps(w, style, false)
    ensures v == w
  {
    ParsePrinted(v, style);
    ParsePrinted(w, style);
  }

  lemma OverlongCodes()
    ensures Codes([0x61], 0) == Codes([0xC1, 0xA1], 0) == Some([0x61])
  {
    var a, b := [0x61], [0xC1, 0xA1];
    assert NextCode(a, 0) == Next(0x61, 1);
    assert Codes(a, 1) == Some([]);
    assert [0x61] + [] == [0x61];
    Continued1(b, 1, 1);
    assert NextCode(b, 0) == Next(0x61, 2);
    assert Codes(b, 2) == Some([]);
  }

  lemma OverlongIllFormed()
    ensures !WellFormed([0xC1, 0xA1])
  {
    var b := [0xC1, 0xA1];
    OverlongCodes();
    if WellFormed(b) {
      var cs: seq<nat> :| Scalars(cs) && EncodeCodes(cs) == b;
      assert b[0..] == b;
      CodesEncoded(b, 0, cs);
    }
  }

  /** An overlong form prints like the character it spells: the text alone does not tell them apart. */
  lemma OverlongCollides(style: Style, sort: bool)
    ensures var a, b := String([0x61]), String([0xC1, 0xA1]);
            && a != b && Printable(a) && Printable(b) && !Sound(b)
            && Dumps(a, style, sort) == Dumps(b, style, sort) == Some("\"a\"")
  {
    OverlongCodes();
    OverlongIllFormed();
    OneLetter();
    assert "\"" + ("a" + "\"") == "\"a\"";
  }

  lemma OneLetter()
    ensures Escaped([0x61]) == "a"
  {
    var cs: seq<nat> := [0x61];
    var pieces := seq(|cs|, k requires 0 <= k < |cs| => EscapeCode(cs[k]));
    assert pieces == ["a"] && pieces[1..] == [];
    assert Concat(pieces) == "a" + Concat([]);
  }

  // ----- what sorting does to a value

  /** Every object's members are in key order, at every depth. */
  ghost predicate InOrder(v: Json) {
    match v
    case Array(items) => forall k :: 0 <= k < |items| ==> InOrder(items[k])
    case Object(ms) => Sorted(ms) && forall k :: 0 <= k < |ms| ==> InOrder(ms[k].value)
    case _ => true
  }

  lemma {:induction false} NormalInOrder(v: Json)
    ensures InOrder(Normalize(v))
    decreases v
  {
    match v
    case Array(items) =>
      var w := Normalize(v);
      forall k | 0 <= k < |items|
        ensures InOrder(w.items[k])
      {
        NormalInOrder(items[k]);
      }
    case Object(ms) =>
      var ns := Sort(NormalMembers(ms));
      NormalObject(ms);
      SortSorts(NormalMembers(ms));
      forall i | 0 <= i < |ns|
        ensures InOrder(ns[i].value)
      {
        var k := NormalIndex(ms, ns, i);
        NormalInOrder(ms[k].value);
      }
    case _ =>
  }

  lemma {:induction false} NormalIsSame(v: Json)
    ensures Same(v, Normalize(v))
    decreases v
  {
    match v
    case Array(items) =>
      var w := Normalize(v);
      forall k | 0 <= k < |items|
        ensures Same(items[k], w.items[k])
      {
        NormalIsSame(items[k]);
      }
    case Object(ms) =>
      NormalObject(ms);
      SameAsSorted(ms);
    case _ =>
  }

  lemma {:induction false} SameAsSorted(ms: seq<Member>)
    ensures Same(Object(ms), Object(Sort(NormalMembers(ms))))
    decreases ms
  {
    var ns := Sort(NormalMembers(ms));
    forall i: nat | i < |ms|
      ensures HasMate(ms, ns, i)
    {
      var j := IndexOfNormal(ms, ns, i);
      NormalIsSame(ms[i].value);
      assert SamePair(ms, ns, i, j);
    }
    forall j: nat | j < |ns|
      ensures IsMate(ms, ns, j)
    {
      var i := NormalIndex(ms, ns, j);
      NormalIsSame(ms[i].value);
      assert SamePair(ms, ns, i, j);
    }
  }

  /** With sorting, the text reads back as the value with every object's members in key order, else unchanged. */
  lemma {:induction false} SortedText(v: Json, style: Style)
    requires Printable(v) && Sound(v)
    ensures var w := ParseText(Dumps(v, style, true).value); w.Some? && InOrder(w.value) && Same(v, w.value)
  {
    NormalKeeps(v);
    ParsePrinted(Normalize(v), style);
    NormalInOrder(v);
    NormalIsSame(v);
  }
}
