/** The agent's client table, updated in place by the loops of notify. */
module ClientTableObject {
  import opened Bytes
  import opened Clients

  lemma {:induction false} JoinedConcat(table: seq<Pair>, a: seq<Pair>, b: seq<Pair>)
    ensures Joined(table, a + b) == Joined(Joined(table, a), b)
    decreases |b|
  {
    if b == [] {
      assert a + b == a;
    } else {
      var n := |b| - 1;
      assert (a + b)[..|a| + n] == a + b[..n];
      JoinedConcat(table, a, b[..n]);
    }
  }

  method HasStation(stations: seq<Mac>, mac: Mac) returns (yes: bool)
    ensures yes <==> mac in stations
  {
    yes := false;
    var k := 0;
    while k < |stations| && !yes
      invariant k <= |stations| && (yes <==> mac in stations[..k])
    {
      yes := stations[k] == mac;
      k := k + 1;
    }
    assert yes || stations[..k] == stations;
  }

  /** Whether a pair is among those shown, by the loops over radios, BSSes and stations. */
  method Present(shown: Shown, p: Pair) returns (yes: bool)
    ensures yes <==> p in Pairs(shown)
  {
    yes := false;
    for r := 0 to |shown|
      invariant yes <==> p in Pairs(shown[..r])
    {
      assert shown[..r + 1][..r] == shown[..r];
      var radio := shown[r];
      ghost var before := yes;
      for i := 0 to |radio|
        invariant yes <==> before || p in RadioPairs(radio[..i])
      {
        assert radio[..i + 1][..i] == radio[..i];
        InStations(radio[i].bssid, radio[i].stations, p);
        if radio[i].bssid == p.bssid && !yes {
          yes := HasStation(radio[i].stations, p.mac);
        }
      }
      assert radio[..|radio|] == radio;
    }
    assert shown[..|shown|] == shown;
  }

  /** One station more: it joins unless known or the table is full. */
  lemma StationJoins(table: seq<Pair>, bssid: Mac, stations: seq<Mac>, k: nat)
    requires k < |stations|
    ensures var before, p := Joined(table, StationPairs(bssid, stations[..k])), Pair(bssid, stations[k]);
            Joined(table, StationPairs(bssid, stations[..k + 1]))
            == if p in before || |before| == CAPACITY then before else before + [p]
  {
    var pairs := StationPairs(bssid, stations[..k + 1]);
    assert stations[..k + 1][..k] == stations[..k];
    assert pairs[..|pairs| - 1] == StationPairs(bssid, stations[..k]);
  }

  /** What is left of the sweep, and what it has given so far, make the whole of it. */
  ghost predicate Sweeping(table: seq<Pair>, j: nat, pairs: seq<Pair>, left: seq<Pair>, whole: Swept)
    requires j <= |table|
  {
    var rest := Sweep(table, j, pairs);
    rest.table == whole.table && left + rest.left == whole.left
  }

  lemma SweepNext(table: seq<Pair>, j: nat, pairs: seq<Pair>, left: seq<Pair>, whole: Swept)
    requires j < |table| && Sweeping(table, j, pairs, left, whole)
    ensures if table[j] in pairs then Sweeping(table, j + 1, pairs, left, whole)
            else Sweeping(Without(table, j), j, pairs, left + [table[j]], whole)
  {
    if table[j] !in pairs {
      var rest := Sweep(Without(table, j), j, pairs);
      assert left + ([table[j]] + rest.left) == (left + [table[j]]) + rest.left;
    }
  }

  class ClientTable {
    const clients: array<Pair>
    var nclients: nat

    ghost predicate Valid()
      reads this, clients
    {
      clients.Length == CAPACITY && nclients <= CAPACITY && Unique(Contents())
    }

    ghost function Contents(): seq<Pair>
      requires clients.Length == CAPACITY && nclients <= CAPACITY
      reads this, clients
    {
      clients[..nclients]
    }

    constructor ()
      ensures Valid() && fresh(clients) && Contents() == []
    {
      clients := new Pair[CAPACITY](_ => Pair(seq(6, _ => 0), seq(6, _ => 0)));
      nclients := 0;
    }

    method Known(p: Pair) returns (yes: bool)
      requires Valid()
      ensures yes <==> p in Contents()
    {
      for j := 0 to nclients
        invariant p !in clients[..j]
      {
        if clients[j] == p {
          assert Contents()[j] == p;
          return true;
        }
      }
      return false;
    }

    /** One client shown: it joins unless known or the table is full. */
    method JoinOne(p: Pair)
      requires Valid()
      modifies this`nclients, clients
      ensures Valid()
      ensures Contents() == var was := old(Contents()); if p in was || |was| == CAPACITY then was else was + [p]
    {
      var known := Known(p);
      if !known && nclients != CAPACITY {
        ghost var was := Contents();
        clients[nclients] := p;
        nclients := nclients + 1;
        assert Contents() == was + [p];
      }
    }

    method JoinStations(bssid: Mac, stations: seq<Mac>)
      requires Valid()
      modifies this`nclients, clients
      ensures Valid() && Contents() == Joined(old(Contents()), StationPairs(bssid, stations))
    {
      ghost var before := Contents();
      for k := 0 to |stations|
        invariant Valid() && Contents() == Joined(before, StationPairs(bssid, stations[..k]))
      {
        StationJoins(before, bssid, stations, k);
        JoinOne(Pair(bssid, stations[k]));
      }
      assert stations[..|stations|] == stations;
    }

    method JoinRadio(radio: seq<Bss>)
      requires Valid()
      modifies this`nclients, clients
      ensures Valid() && Contents() == Joined(old(Contents()), RadioPairs(radio))
    {
      ghost var before := Contents();
      for i := 0 to |radio|
        invariant Valid() && Contents() == Joined(before, RadioPairs(radio[..i]))
      {
        assert radio[..i + 1][..i] == radio[..i];
        JoinedConcat(before, RadioPairs(radio[..i]), StationPairs(radio[i].bssid, radio[i].stations));
        JoinStations(radio[i].bssid, radio[i].stations);
      }
      assert radio[..|radio|] == radio;
    }

    method JoinAll(shown: Shown)
      requires Valid()
      modifies this`nclients, clients
      ensures Valid() && Contents() == Joined(old(Contents()), Pairs(shown))
    {
      ghost var before := Contents();
      for r := 0 to |shown|
        invariant Valid() && Contents() == Joined(before, Pairs(shown[..r]))
      {
        assert shown[..r + 1][..r] == shown[..r];
        JoinedConcat(before, Pairs(shown[..r]), RadioPairs(shown[r]));
        JoinRadio(shown[r]);
      }
      assert shown[..|shown|] == shown;
    }

    method RemoveAt(j: nat)
      requires Valid() && j < nclients
      modifies this`nclients, clients
      ensures Valid() && Contents() == Without(old(Contents()), j)
    {
      WithoutKeeps(Contents(), j);
      clients[j] := clients[nclients - 1];
      nclients := nclients - 1;
      assert Contents() == Without(old(Contents()), j);
    }

    /** The leaves: the last client takes the place of one that is gone. */
    method SweepGone(shown: Shown) returns (left: seq<Pair>)
      requires Valid()
      modifies this`nclients, clients
      ensures Valid() && Swept(Contents(), left) == Sweep(old(Contents()), 0, Pairs(shown))
    {
      ghost var pairs := Pairs(shown);
      ghost var whole := Sweep(Contents(), 0, pairs);
      left := [];
      var j := 0;
      assert [] + whole.left == whole.left;
      while j < nclients
        invariant Valid() && j <= nclients && Sweeping(Contents(), j, pairs, left, whole)
        decreases nclients - j
      {
        SweepNext(Contents(), j, pairs, left, whole);
        var here := Present(shown, clients[j]);
        if here {
          j := j + 1;
        } else {
          left := left + [clients[j]];
          RemoveAt(j);
        }
      }
      assert left + [] == left;
    }

    /** The client part of notify. */
    method NotifyClients(shown: Shown, reannounce: bool) returns (joined: seq<Pair>, left: seq<Pair>)
      requires Valid()
      modifies this`nclients, clients
      ensures Valid()
      ensures Notified(Contents(), joined, left) == Notify(old(Contents()), Pairs(shown), reannounce)
    {
      if reannounce {
        nclients := 0;
      }
      ghost var start := Contents();
      var known := nclients;
      JoinedExtends(start, Pairs(shown));
      JoinAll(shown);
      joined := clients[known..nclients];
      assert joined == Contents()[|start|..];
      left := SweepGone(shown);
    }
  }
}
