/** Client join and leave notifications (notify, c/src/agent.c). */
module Clients {
  import opened Bytes

  const CAPACITY := 256

  datatype Pair = Pair(bssid: Mac, mac: Mac)

  datatype Bss = Bss(bssid: Mac, stations: seq<Mac>)

  /** The radios shown: each a list of BSSes with their stations. */
  type Shown = seq<seq<Bss>>

  datatype Notice = Join(pair: Pair) | Leave(pair: Pair)

  // ----- the pairs shown, in the order of the loops

  function StationPairs(bssid: Mac, stations: seq<Mac>): seq<Pair> {
    if stations == [] then []
    else StationPairs(bssid, stations[..|stations| - 1]) + [Pair(bssid, stations[|stations| - 1])]
  }

  function RadioPairs(radio: seq<Bss>): seq<Pair> {
    if radio == [] then []
    else
      var b := radio[|radio| - 1];
      RadioPairs(radio[..|radio| - 1]) + StationPairs(b.bssid, b.stations)
  }

  function Pairs(shown: Shown): seq<Pair> {
    if shown == [] then [] else Pairs(shown[..|shown| - 1]) + RadioPairs(shown[|shown| - 1])
  }

  lemma {:induction false} InStations(bssid: Mac, stations: seq<Mac>, p: Pair)
    ensures p in StationPairs(bssid, stations) <==> p.bssid == bssid && p.mac in stations
    decreases |stations|
  {
    if stations != [] {
      InStations(bssid, stations[..|stations| - 1], p);
    }
  }

  /** A BSS of the radio has the pair's address and its station. */
  predicate HasClient(b: Bss, p: Pair) {
    b.bssid == p.bssid && p.mac in b.stations
  }

  predicate OnRadio(radio: seq<Bss>, p: Pair) {
    exists i :: 0 <= i < |radio| && HasClient(radio[i], p)
  }

  lemma {:induction false} InRadio(radio: seq<Bss>, p: Pair)
    ensures p in RadioPairs(radio) <==> OnRadio(radio, p)
    decreases |radio|
  {
    if radio != [] {
      var n := |radio| - 1;
      InRadio(radio[..n], p);
      InStations(radio[n].bssid, radio[n].stations, p);
      OnRadioSnoc(radio, p);
    }
  }

  lemma OnRadioSnoc(radio: seq<Bss>, p: Pair)
    requires radio != []
    ensures OnRadio(radio, p) <==> OnRadio(radio[..|radio| - 1], p) || HasClient(radio[|radio| - 1], p)
  {
    var before := radio[..|radio| - 1];
    if OnRadio(before, p) {
      var i :| 0 <= i < |before| && HasClient(before[i], p);
      assert HasClient(radio[i], p);
    }
    if OnRadio(radio, p) {
      var i :| 0 <= i < |radio| && HasClient(radio[i], p);
      assert i < |before| ==> HasClient(before[i], p);
    }
  }

  predicate OnSome(shown: Shown, p: Pair) {
    exists r :: 0 <= r < |shown| && OnRadio(shown[r], p)
  }

  lemma OnSomeSnoc(shown: Shown, p: Pair)
    requires shown != []
    ensures OnSome(shown, p) <==> OnSome(shown[..|shown| - 1], p) || OnRadio(shown[|shown| - 1], p)
  {
    var before := shown[..|shown| - 1];
    if OnSome(before, p) {
      var r :| 0 <= r < |before| && OnRadio(before[r], p);
      assert OnRadio(shown[r], p);
    }
    if OnSome(shown, p) {
      var r :| 0 <= r < |shown| && OnRadio(shown[r], p);
      assert r < |before| ==> OnRadio(before[r], p);
    }
  }

  /** A client is shown if and only if some radio has a BSS of that address with that station. */
  lemma {:induction false} ShownExactly(shown: Shown, p: Pair)
    ensures p in Pairs(shown) <==> OnSome(shown, p)
    decreases |shown|
  {
    if shown != [] {
      var n := |shown| - 1;
      ShownExactly(shown[..n], p);
      InRadio(shown[n], p);
      OnSomeSnoc(shown, p);
    }
  }

  // ----- joins, then leaves

  /** The table after the joins: each pair shown is appended unless known or the table is full. */
  function Joined(table: seq<Pair>, pairs: seq<Pair>): seq<Pair> {
    if pairs == [] then table
    else
      var n := |pairs| - 1;
      var before := Joined(table, pairs[..n]);
      if pairs[n] in before || |before| == CAPACITY then before else before + [pairs[n]]
  }

  /** Removal by moving the last client into the gap. */
  function Without(table: seq<Pair>, j: nat): seq<Pair>
    requires j < |table|
  {
    table[j := table[|table| - 1]][..|table| - 1]
  }

  datatype Swept = Swept(table: seq<Pair>, left: seq<Pair>)

  /** The scan for clients no longer shown, from index `j` on. */
  function Sweep(table: seq<Pair>, j: nat, pairs: seq<Pair>): Swept
    requires j <= |table|
    decreases |table| - j
  {
    if j == |table| then Swept(table, [])
    else if table[j] in pairs then Sweep(table, j + 1, pairs)
    else
      var rest := Sweep(Without(table, j), j, pairs);
      Swept(rest.table, [table[j]] + rest.left)
  }

  datatype Notified = Notified(table: seq<Pair>, joined: seq<Pair>, left: seq<Pair>)

  /** One call of notify; a re-announcement forgets the table first. */
  function Notify(table: seq<Pair>, pairs: seq<Pair>, reannounce: bool): (r: Notified) {
    var start := if reannounce then [] else table;
    var full := Joined(start, pairs);
    JoinedExtends(start, pairs);
    var swept := Sweep(full, 0, pairs);
    Notified(swept.table, full[|start|..], swept.left)
  }

  lemma {:induction false} JoinedExtends(table: seq<Pair>, pairs: seq<Pair>)
    ensures table <= Joined(table, pairs)
    decreases |pairs|
  {
    if pairs != [] {
      JoinedExtends(table, pairs[..|pairs| - 1]);
    }
  }

  // ----- what a call does

  predicate Unique(s: seq<Pair>) {
    forall i, j :: 0 <= i < j < |s| ==> s[i] != s[j]
  }

  ghost function Set(s: seq<Pair>): set<Pair> {
    set p | p in s
  }

  /** Joined pairs are new, shown and distinct; a pair shown is missing only from a full table. */
  lemma {:induction false} JoinsExact(table: seq<Pair>, pairs: seq<Pair>)
    requires Unique(table) && |table| <= 256
    ensures var t := Joined(table, pairs);
            && Unique(t) && |t| <= 256 && table <= t
            && (forall k :: |table| <= k < |t| ==> t[k] in pairs)
            && (forall p :: p in pairs ==> p in t || |t| == 256)
    decreases |pairs|
  {
    if pairs != [] {
      JoinsExact(table, pairs[..|pairs| - 1]);
      assert pairs == pairs[..|pairs| - 1] + [pairs[|pairs| - 1]];
    }
  }

  /** The pairs newly shown, each once, in the order they are first shown. */
  function NewlyShown(known: seq<Pair>, pairs: seq<Pair>): seq<Pair> {
    if pairs == [] then []
    else
      var n := |pairs| - 1;
      var before := NewlyShown(known, pairs[..n]);
      if pairs[n] in known || pairs[n] in pairs[..n] then before else before + [pairs[n]]
  }

  lemma {:induction false} NewlyShownExact(known: seq<Pair>, pairs: seq<Pair>)
    ensures Unique(NewlyShown(known, pairs)) && Set(NewlyShown(known, pairs)) == Set(pairs) - Set(known)
    decreases |pairs|
  {
    if pairs != [] {
      var n := |pairs| - 1;
      var p, before := pairs[n], NewlyShown(known, pairs[..n]);
      NewlyShownExact(known, pairs[..n]);
      assert pairs == pairs[..n] + [p];
      assert Set(pairs) == Set(pairs[..n]) + {p};
      if p !in known && p !in pairs[..n] {
        assert p !in Set(pairs[..n]) && p !in Set(before);
        assert Set(before + [p]) == Set(before) + {p};
      }
    }
  }

  /** The joins are the first newly shown pairs, as many as there is room for. */
  lemma {:induction false} JoinsInOrder(table: seq<Pair>, pairs: seq<Pair>)
    requires |table| <= 256
    ensures var newly := NewlyShown(table, pairs);
            Joined(table, pairs) == table + newly[..Min(|newly|, 256 - |table|)]
    decreases |pairs|
  {
    if pairs != [] {
      var n := |pairs| - 1;
      JoinsInOrder(table, pairs[..n]);
      NewlyShownExact(table, pairs[..n]);
      var newly := NewlyShown(table, pairs[..n]);
      assert pairs[n] in newly <==> pairs[n] in Set(newly);
      assert pairs[n] in pairs[..n] <==> pairs[n] in Set(pairs[..n]);
      JoinNext(table, newly, pairs[n], pairs[n] in pairs[..n]);
    }
  }

  lemma JoinNext(table: seq<Pair>, newly: seq<Pair>, p: Pair, seen: bool)
    requires |table| <= 256 && (p in newly <==> seen && p !in table)
    ensures var before := table + newly[..Min(|newly|, 256 - |table|)];
            var after := if p in table || seen then newly else newly + [p];
            (if p in before || |before| == 256 then before else before + [p])
            == table + after[..Min(|after|, 256 - |table|)]
  {
    var room := 256 - |table|;
    if |newly| < room {
      assert newly[..|newly|] == newly;
    } else if !(p in table || seen) {
      assert (newly + [p])[..room] == newly[..room];
    }
  }

  lemma WithoutKeeps(table: seq<Pair>, j: nat)
    requires Unique(table) && j < |table|
    ensures Unique(Without(table, j)) && Set(Without(table, j)) == Set(table) - {table[j]}
  {
    var t, n := Without(table, j), |table| - 1;
    forall p | p in Set(table) - {table[j]}
      ensures p in t
    {
      var i :| 0 <= i < |table| && table[i] == p;
      assert t[if i == n then j else i] == p;
    }
    forall p | p in t
      ensures p in Set(table) - {table[j]}
    {
      var i :| 0 <= i < |t| && t[i] == p;
      assert p == table[if i == j then n else i];
    }
  }

  /** The sweep keeps exactly the clients shown and lists each other one once. */
  lemma {:induction false} SweepExact(table: seq<Pair>, j: nat, pairs: seq<Pair>)
    requires Unique(table) && j <= |table| && forall i :: 0 <= i < j ==> table[i] in pairs
    ensures var r := Sweep(table, j, pairs);
            && Unique(r.table) && Set(r.table) == Set(table) * Set(pairs) && |r.table| <= |table|
            && Unique(r.left) && Set(r.left) == Set(table) - Set(pairs)
    decreases |table| - j
  {
    if j == |table| {
    } else if table[j] in pairs {
      SweepExact(table, j + 1, pairs);
    } else {
      var t := Without(table, j);
      WithoutKeeps(table, j);
      SweepExact(t, j, pairs);
      var rest := Sweep(t, j, pairs);
      assert table[j] !in Set(rest.left);
      assert forall i :: 0 <= i < |rest.left| ==> rest.left[i] in Set(rest.left);
      assert Set([table[j]] + rest.left) == {table[j]} + Set(rest.left);
      assert Set(t) * Set(pairs) == Set(table) * Set(pairs);
    }
  }

  /**
   * One call: the joins are shown pairs that were not in the table, the leaves exactly the table's
   * pairs no longer shown, each once; the new table is what was shown and known, or joined.
   */
  lemma {:induction false} NotifyExact(table: seq<Pair>, pairs: seq<Pair>, reannounce: bool)
    requires Unique(table) && |table| <= 256
    ensures var r, start := Notify(table, pairs, reannounce), if reannounce then {} else Set(table);
            && Unique(r.table) && |r.table| <= 256 && Unique(r.joined) && Unique(r.left)
            && Set(r.joined) <= Set(pairs) - start
            && Set(r.left) == start - Set(pairs)
            && Set(r.table) == start * Set(pairs) + Set(r.joined)
  {
    var start := if reannounce then [] else table;
    var full := Joined(start, pairs);
    JoinsExact(start, pairs);
    JoinedParts(start, full, pairs);
    SweepExact(full, 0, pairs);
    var j := Set(full[|start|..]);
    assert Set(full) * Set(pairs) == Set(start) * Set(pairs) + j;
    assert Set(full) - Set(pairs) == Set(start) - Set(pairs);
    assert Set(start) == if reannounce then {} else Set(table);
  }

  /** A table the joins have extended: what was there, and new pairs that are shown. */
  lemma JoinedParts(start: seq<Pair>, full: seq<Pair>, pairs: seq<Pair>)
    requires Unique(full) && start <= full && forall k :: |start| <= k < |full| ==> full[k] in pairs
    ensures var j := full[|start|..];
            Unique(j) && Set(j) <= Set(pairs) - Set(start) && Set(full) == Set(start) + Set(j)
  {
    var j := full[|start|..];
    assert full == start + j;
    forall p | p in j
      ensures p in pairs && p !in start
    {
      var k :| 0 <= k < |j| && j[k] == p;
      assert full[|start| + k] == p;
    }
  }

  lemma {:induction false} UniqueSize(s: seq<Pair>)
    requires Unique(s)
    ensures |Set(s)| == |s|
    decreases |s|
  {
    if s != [] {
      var n := |s| - 1;
      UniqueSize(s[..n]);
      assert Set(s) == Set(s[..n]) + {s[n]};
      assert s[n] !in Set(s[..n]);
    }
  }

  /** Every newly shown pair joins exactly when old and shown pairs together fit the table. */
  lemma {:induction false} AllJoinIffFits(start: seq<Pair>, pairs: seq<Pair>)
    requires Unique(start) && |start| <= 256
    ensures Set(pairs) <= Set(Joined(start, pairs)) <==> |Set(start) + Set(pairs)| <= 256
  {
    var t := Joined(start, pairs);
    JoinsExact(start, pairs);
    UniqueSize(t);
    assert Set(start) <= Set(t) by {
      forall p | p in start
        ensures p in t
      {
        var k :| 0 <= k < |start| && start[k] == p;
        assert t[k] == p;
      }
    }
    forall p | p in t
      ensures p in Set(start) + Set(pairs)
    {
      var k :| 0 <= k < |t| && t[k] == p;
      assert k < |start| ==> start[k] == p;
    }
    if Set(pairs) <= Set(t) {
      SubsetSize(Set(start) + Set(pairs), Set(t));
    } else {
      var p :| p in pairs && p !in t;
      SubsetSize(Set(t) + {p}, Set(start) + Set(pairs));
    }
  }

  /** The table equals the shown set exactly when it never had to leave a pair out. */
  lemma {:induction false} TableIsShownIffFits(table: seq<Pair>, pairs: seq<Pair>, reannounce: bool)
    requires Unique(table) && |table| <= 256
    ensures var start := if reannounce then [] else table;
            Set(Notify(table, pairs, reannounce).table) == Set(pairs) <==> |Set(start) + Set(pairs)| <= 256
  {
    var start := if reannounce then [] else table;
    NotifyExact(table, pairs, reannounce);
    AllJoinIffFits(start, pairs);
    var full := Joined(start, pairs);
    JoinsExact(start, pairs);
    SweepExact(full, 0, pairs);
  }

  lemma EmptySet(s: seq<Pair>)
    ensures Set(s) == {} <==> s == []
  {
    assert s != [] ==> s[0] in Set(s);
  }

  /** A full table with one new client: everyone known leaves in the same call, yet the new one is missed. */
  lemma {:induction false} FullTableMisses(table: seq<Pair>, p: Pair)
    requires Unique(table) && |table| == 256 && p !in table
    ensures var r := Notify(table, [p], false); r.joined == [] && r.table == [] && Set(r.left) == Set(table)
  {
    var r := Notify(table, [p], false);
    NotifyExact(table, [p], false);
    assert Joined(table, [p]) == table by {
      assert [p][..0] == [];
    }
    assert Set([p]) == {p} && p !in Set(table);
    assert Set(table) - {p} == Set(table);
    EmptySet(r.joined);
    EmptySet(r.table);
  }

  /** 256 clients of one BSS, told apart by the last octet. */
  function ManyClients(): seq<Pair> {
    seq(256, k requires 0 <= k < 256 => Pair([0, 0, 0, 0, 0, 0], [0, 0, 0, 0, 0, k]))
  }

  /** Such a table there is: the input at which the table does not become the shown set. */
  lemma ManyClientsMiss()
    ensures var p := Pair([0, 0, 0, 0, 0, 0], [0, 0, 0, 0, 1, 0]);
            Unique(ManyClients()) && Set(Notify(ManyClients(), [p], false).table) != Set([p])
  {
    var t, p := ManyClients(), Pair([0, 0, 0, 0, 0, 0], [0, 0, 0, 0, 1, 0]);
    assert forall k :: 0 <= k < 256 ==> t[k].mac[5] == k && t[k].mac[4] == 0;
    assert p.mac[4] == 1;
    FullTableMisses(t, p);
    assert p in Set([p]);
  }

  lemma {:induction false} ShownOnlySettles(table: seq<Pair>, pairs: seq<Pair>, reannounce: bool)
    requires Unique(table) && |table| <= 256 && Set(table) <= Set(pairs) && |Set(pairs)| <= 256
    ensures Set(Notify(table, pairs, reannounce).table) == Set(pairs)
  {
    TableIsShownIffFits(table, pairs, reannounce);
    assert Set(table) + Set(pairs) == Set(pairs);
    assert Set([]) + Set(pairs) == Set(pairs);
  }

  /** On an unchanged shown set that fits the table, two calls always reach it. */
  lemma {:induction false} TwoCallsSettle(table: seq<Pair>, pairs: seq<Pair>, first: bool, second: bool)
    requires Unique(table) && |table| <= 256 && |Set(pairs)| <= 256
    ensures Set(Notify(Notify(table, pairs, first).table, pairs, second).table) == Set(pairs)
  {
    NotifyExact(table, pairs, first);
    ShownOnlySettles(Notify(table, pairs, first).table, pairs, second);
  }

  // ----- the events alone

  /** The notifications of a call, in order. */
  function Notices(r: Notified): seq<Notice> {
    JoinNotices(r.joined) + LeaveNotices(r.left)
  }

  function JoinNotices(pairs: seq<Pair>): seq<Notice> {
    seq(|pairs|, k requires 0 <= k < |pairs| => Join(pairs[k]))
  }

  function LeaveNotices(pairs: seq<Pair>): seq<Notice> {
    seq(|pairs|, k requires 0 <= k < |pairs| => Leave(pairs[k]))
  }

  /** What a listener that knew `known` knows after the notices. */
  ghost function Replay(known: set<Pair>, notices: seq<Notice>): set<Pair> {
    if notices == [] then known
    else
      var before, last := Replay(known, notices[..|notices| - 1]), notices[|notices| - 1];
      if last.Join? then before + {last.pair} else before - {last.pair}
  }

  lemma {:induction false} ReplayConcat(known: set<Pair>, a: seq<Notice>, b: seq<Notice>)
    ensures Replay(known, a + b) == Replay(Replay(known, a), b)
    decreases |b|
  {
    if b == [] {
      assert a + b == a;
    } else {
      var n := |b| - 1;
      assert (a + b)[..|a| + n] == a + b[..n];
      ReplayConcat(known, a, b[..n]);
    }
  }

  lemma {:induction false} ReplayJoins(known: set<Pair>, joins: seq<Pair>)
    ensures Replay(known, JoinNotices(joins)) == known + Set(joins)
    decreases |joins|
  {
    if joins != [] {
      var n := |joins| - 1;
      var fewer := joins[..n];
      assert JoinNotices(joins)[..n] == JoinNotices(fewer);
      ReplayJoins(known, fewer);
      assert Set(joins) == Set(fewer) + {joins[n]};
    }
  }

  lemma {:induction false} ReplayLeaves(known: set<Pair>, leaves: seq<Pair>)
    ensures Replay(known, LeaveNotices(leaves)) == known - Set(leaves)
    decreases |leaves|
  {
    if leaves != [] {
      var n := |leaves| - 1;
      var fewer := leaves[..n];
      assert LeaveNotices(leaves)[..n] == LeaveNotices(fewer);
      ReplayLeaves(known, fewer);
      assert Set(leaves) == Set(fewer) + {leaves[n]};
    }
  }

  lemma {:induction false} NoticesReplay(known: set<Pair>, r: Notified)
    ensures Replay(known, Notices(r)) == known + Set(r.joined) - Set(r.left)
  {
    ReplayConcat(known, JoinNotices(r.joined), LeaveNotices(r.left));
    ReplayJoins(known, r.joined);
    ReplayLeaves(known + Set(r.joined), r.left);
  }

  /** What a re-announcement names: the first pairs shown, each once, as many as the table holds. */
  function Announced(pairs: seq<Pair>): seq<Pair> {
    var all := NewlyShown([], pairs);
    all[..Min(|all|, 256)]
  }

  lemma {:induction false} ReannounceJoins(table: seq<Pair>, pairs: seq<Pair>)
    requires Unique(table) && |table| <= 256
    ensures var r := Notify(table, pairs, true);
            r.joined == Announced(pairs) && r.left == [] && Set(r.table) == Set(r.joined)
  {
    var r := Notify(table, pairs, true);
    NotifyExact(table, pairs, true);
    JoinsInOrder([], pairs);
    assert [] + Announced(pairs) == Announced(pairs);
    assert Joined([], pairs)[0..] == Joined([], pairs);
    EmptySet(r.left);
  }

  lemma {:induction false} AnnouncedAll(pairs: seq<Pair>)
    requires |Set(pairs)| <= 256
    ensures Set(Announced(pairs)) == Set(pairs)
  {
    var all := NewlyShown([], pairs);
    NewlyShownExact([], pairs);
    UniqueSize(all);
    assert Set(pairs) - Set([]) == Set(pairs);
    assert all[..|all|] == all;
  }

  /**
   * A re-announcement gives no leave, so a listener that knew the table knows the new one after
   * it exactly when every client of the table is among those announced again. When the shown
   * clients fit the table, that is when every one is still shown.
   */
  lemma {:induction false} ReannounceReplaysIff(table: seq<Pair>, pairs: seq<Pair>)
    requires Unique(table) && |table| <= 256
    ensures var r := Notify(table, pairs, true);
            && (Replay(Set(table), Notices(r)) == Set(r.table) <==> Set(table) <= Set(Announced(pairs)))
            && (|Set(pairs)| <= 256 ==>
                  (Replay(Set(table), Notices(r)) == Set(r.table) <==> Set(table) <= Set(pairs)))
  {
    var r := Notify(table, pairs, true);
    ReannounceJoins(table, pairs);
    NoticesReplay(Set(table), r);
    if |Set(pairs)| <= 256 {
      AnnouncedAll(pairs);
    }
  }

  /** A client gone by the re-announcement: the listener keeps it for good. */
  lemma {:induction false} ReannounceForgets(table: seq<Pair>, pairs: seq<Pair>, gone: Pair)
    requires Unique(table) && |table| <= 256 && gone in table && gone !in pairs
    ensures var r := Notify(table, pairs, true); gone in Replay(Set(table), Notices(r)) && gone !in r.table
  {
    var r := Notify(table, pairs, true);
    NotifyExact(table, pairs, true);
    ReannounceJoins(table, pairs);
    NoticesReplay(Set(table), r);
    assert gone in r.table ==> gone in Set(r.table);
  }

  // ----- whole sessions

  /** A call of notify: what is shown then, and whether it re-announces. */
  datatype Call = Call(pairs: seq<Pair>, reannounce: bool)

  datatype Session = Session(table: seq<Pair>, notices: seq<Notice>)

  function Calls(calls: seq<Call>): Session {
    if calls == [] then Session([], [])
    else
      var n := |calls| - 1;
      var before := Calls(calls[..n]);
      var r := Notify(before.table, calls[n].pairs, calls[n].reannounce);
      Session(r.table, before.notices + Notices(r))
  }

  /** The clients a re-announcement forgot that have not joined since. */
  ghost function Forgotten(calls: seq<Call>): set<Pair> {
    if calls == [] then {}
    else
      var n := |calls| - 1;
      var before := Calls(calls[..n]);
      var r := Notify(before.table, calls[n].pairs, calls[n].reannounce);
      Forgotten(calls[..n]) + (if calls[n].reannounce then Set(before.table) else {}) - Set(r.joined)
  }

  /** A listener that knew the table and some clients forgotten, after one more call. */
  lemma {:induction false} CallReplays(table: seq<Pair>, c: Call, known: set<Pair>, lost: set<Pair>)
    requires Unique(table) && |table| <= 256 && known == Set(table) + lost && Set(table) !! lost
    ensures var r := Notify(table, c.pairs, c.reannounce);
            var forgotten := lost + (if c.reannounce then Set(table) else {}) - Set(r.joined);
            Replay(known, Notices(r)) == Set(r.table) + forgotten && Set(r.table) !! forgotten
  {
    var r := Notify(table, c.pairs, c.reannounce);
    NotifyExact(table, c.pairs, c.reannounce);
    NoticesReplay(known, r);
  }

  /**
   * Over any session of calls, the notices alone give the table and, besides it, exactly the
   * clients a re-announcement forgot.
   */
  lemma {:induction false} SessionReplays(calls: seq<Call>)
    ensures var s := Calls(calls);
            && Unique(s.table) && |s.table| <= 256
            && Replay({}, s.notices) == Set(s.table) + Forgotten(calls) && Set(s.table) !! Forgotten(calls)
    decreases |calls|
  {
    if calls != [] {
      var n := |calls| - 1;
      var before, c := Calls(calls[..n]), calls[n];
      SessionReplays(calls[..n]);
      NotifyExact(before.table, c.pairs, c.reannounce);
      CallReplays(before.table, c, Replay({}, before.notices), Forgotten(calls[..n]));
      ReplayConcat({}, before.notices, Notices(Notify(before.table, c.pairs, c.reannounce)));
    }
  }

  /** After the first `n` calls the notices alone reproduce the table. */
  ghost predicate InStep(calls: seq<Call>, n: nat)
    requires n <= |calls|
  {
    var s := Calls(calls[..n]);
    Replay({}, s.notices) == Set(s.table)
  }

  /** Call `n` does not re-announce, or every known client is among those it announces again. */
  ghost predicate ForgetsNone(calls: seq<Call>, n: nat)
    requires n < |calls|
  {
    calls[n].reannounce ==> Set(Calls(calls[..n]).table) <= Set(Announced(calls[n].pairs))
  }

  lemma {:induction false} InStepNext(calls: seq<Call>, n: nat)
    requires n < |calls| && InStep(calls, n)
    ensures InStep(calls, n + 1) <==> ForgetsNone(calls, n)
  {
    var before, c := calls[..n], calls[n];
    assert calls[..n + 1][..n] == before;
    SessionReplays(before);
    SessionReplays(calls[..n + 1]);
    if c.reannounce {
      ReannounceJoins(Calls(before).table, c.pairs);
    }
  }

  /** After each of the first `m` calls. */
  ghost predicate AllInStep(calls: seq<Call>, m: nat)
    requires m <= |calls|
  {
    InStep(calls, m) && (m == 0 || AllInStep(calls, m - 1))
  }

  ghost predicate AllForgetNone(calls: seq<Call>, m: nat)
    requires m <= |calls|
  {
    m == 0 || (ForgetsNone(calls, m - 1) && AllForgetNone(calls, m - 1))
  }

  lemma StartsInStep(calls: seq<Call>)
    ensures AllInStep(calls, 0) && AllForgetNone(calls, 0)
  {
    assert calls[..0] == [];
    EmptySet([]);
  }

  lemma {:induction false} InStepToo(calls: seq<Call>, m: nat)
    requires m < |calls|
    ensures AllInStep(calls, m) ==> (InStep(calls, m + 1) <==> ForgetsNone(calls, m))
  {
    if InStep(calls, m) {
      InStepNext(calls, m);
    }
  }

  lemma {:induction false} StepsIffNext(calls: seq<Call>, m: nat)
    requires m < |calls| && (AllInStep(calls, m) <==> AllForgetNone(calls, m))
    ensures AllInStep(calls, m + 1) <==> AllForgetNone(calls, m + 1)
  {
    InStepToo(calls, m);
  }

  /** A listener stays in step through the whole session if and only if no re-announcement forgets a client. */
  lemma {:induction false} SessionInStepIff(calls: seq<Call>, m: nat)
    requires m <= |calls|
    ensures AllInStep(calls, m) <==> AllForgetNone(calls, m)
    decreases m
  {
    if m == 0 {
      StartsInStep(calls);
    } else {
      SessionInStepIff(calls, m - 1);
      StepsIffNext(calls, m - 1);
    }
  }
}
