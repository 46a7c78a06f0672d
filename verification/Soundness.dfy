/** Nothing is invented: every delivery is made of fragments received under its one key. */
module Soundness {
  import opened Bytes
  import opened Tlvs
  import opened Reassembly
  import opened Accounting
  import opened Runs

  /** The event is a well-formed fragment of the key with this id, flag and TLVs. */
  ghost predicate Carries(e: Event, k: Key, relay: bool, fid: nat, p: Part) {
    About(e, k)
    && var f := FragmentOf(e);
       f.relay == relay && f.fid == fid && f.last == p.last && Payload(f.payload, f.last) == Some(p.tlvs)
  }

  /** Event `j` brought the stored part `fid` of a context opened at event `from`, before its deadline. */
  ghost predicate Brought(cfg: Config, evs: seq<Event>, from: nat, c: Context, fid: nat, j: nat) {
    && from <= j < |evs| && evs[j].now - c.started < cfg.timeout
    && fid < |c.parts| && c.parts[fid].Some? && Carries(evs[j], c.key, c.relay, fid, c.parts[fid].value)
  }

  /** If part `i` is there, some event brought it. */
  ghost predicate PartTraced(cfg: Config, evs: seq<Event>, from: nat, c: Context, i: nat) {
    i < |c.parts| && c.parts[i].Some? ==> exists j :: Brought(cfg, evs, from, c, i, j)
  }

  ghost predicate PartsTraced(cfg: Config, evs: seq<Event>, from: nat, c: Context) {
    forall i: nat :: PartTraced(cfg, evs, from, c, i)
  }

  ghost predicate Traced(cfg: Config, evs: seq<Event>, from: nat, c: Context) {
    && from < |evs| && About(evs[from], c.key) && c.started == evs[from].later
    && PartsTraced(cfg, evs, from, c)
  }

  lemma TracedLonger(cfg: Config, evs: seq<Event>, n: nat, from: nat, c: Context)
    requires n <= |evs| && Traced(cfg, evs[..n], from, c)
    ensures Traced(cfg, evs, from, c)
  {
    forall i: nat
      ensures PartTraced(cfg, evs, from, c, i)
    {
      assert PartTraced(cfg, evs[..n], from, c, i);
      if i < |c.parts| && c.parts[i].Some? {
        var j :| Brought(cfg, evs[..n], from, c, i, j);
        assert Brought(cfg, evs, from, c, i, j);
      }
    }
  }

  lemma TracedOpened(cfg: Config, evs: seq<Event>)
    requires evs != [] && Decode(evs[|evs| - 1].frame, evs[|evs| - 1].ingress).Accepted?
    ensures var e := evs[|evs| - 1]; Traced(cfg, evs, |evs| - 1, Opened(FragmentOf(e), e.later))
  {
  }

  lemma TracedStored(cfg: Config, evs: seq<Event>, from: nat, c: Context, f: Fragment, tlvs: seq<Tlv>)
    requires evs != [] && Traced(cfg, evs, from, c) && |c.parts| == SLOTS
    requires About(evs[|evs| - 1], c.key) && f == FragmentOf(evs[|evs| - 1]) && f.relay == c.relay
    requires Payload(f.payload, f.last) == Some(tlvs) && evs[|evs| - 1].now - c.started < cfg.timeout
    ensures Traced(cfg, evs, from, Stored(c, f, tlvs))
  {
    var d := Stored(c, f, tlvs);
    forall i: nat
      ensures PartTraced(cfg, evs, from, d, i)
    {
      assert PartTraced(cfg, evs, from, c, i);
      if i == f.fid as nat {
        assert Brought(cfg, evs, from, d, i, |evs| - 1);
      } else if i < |c.parts| && c.parts[i].Some? {
        var j :| Brought(cfg, evs, from, c, i, j);
        assert Brought(cfg, evs, from, d, i, j);
      }
    }
  }

  lemma TracedPoisoned(cfg: Config, evs: seq<Event>, from: nat, c: Context)
    requires Traced(cfg, evs, from, c)
    ensures Traced(cfg, evs, from, Poisoned(c))
  {
  }

  /** A kept verdict only ever stores what the last event carries. */
  lemma TracedAbsorb(cfg: Config, evs: seq<Event>, from: nat, c: Context, buffered: int)
    requires evs != [] && Traced(cfg, evs, from, c) && |c.parts| == SLOTS
    requires About(evs[|evs| - 1], c.key) && evs[|evs| - 1].now - c.started < cfg.timeout
    ensures var v := Absorb(cfg, c, buffered, FragmentOf(evs[|evs| - 1])); v.Keep? ==> Traced(cfg, evs, from, v.ctx)
  {
    TracedPoisoned(cfg, evs, from, c);
    var f := FragmentOf(evs[|evs| - 1]);
    var tlvs := Payload(f.payload, f.last);
    if tlvs.Some? && f.relay == c.relay {
      TracedStored(cfg, evs, from, c, f, tlvs.value);
    }
  }

  function Run(cfg: Config, evs: seq<Event>): (st: State)
    requires ValidConfig(cfg)
    ensures Valid(cfg, st)
  {
    RunFrom(cfg, Initial(cfg), evs)
  }

  function Results(cfg: Config, evs: seq<Event>): (trace: seq<Outcome>)
    requires ValidConfig(cfg)
    ensures |trace| == |evs|
  {
    Trace(cfg, Initial(cfg), evs)
  }

  /** When event `n` came the key had no live context. */
  ghost predicate Unopened(cfg: Config, evs: seq<Event>, n: nat, k: Key)
    requires ValidConfig(cfg) && n < |evs|
  {
    View(Expire(cfg, Run(cfg, evs[..n]), evs[n].now), k).None?
  }

  /** Event `n` opened a context for the key. */
  ghost predicate OpensAt(cfg: Config, evs: seq<Event>, n: nat, k: Key)
    requires ValidConfig(cfg)
  {
    n < |evs| && About(evs[n], k) && Unopened(cfg, evs, n, k) && Results(cfg, evs)[n].reason != Busy
  }

  lemma OpensLonger(cfg: Config, evs: seq<Event>, n: nat, k: Key)
    requires ValidConfig(cfg) && evs != [] && OpensAt(cfg, evs[..|evs| - 1], n, k)
    ensures OpensAt(cfg, evs, n, k)
  {
    assert evs[..|evs| - 1][..n] == evs[..n];
    assert Results(cfg, evs)[n] == Results(cfg, evs[..|evs| - 1])[n];
  }

  /** The context a key has is traced to events since its opening, none of them a delivery. */
  ghost predicate Rooted(cfg: Config, evs: seq<Event>, from: nat, c: Context, k: Key)
    requires ValidConfig(cfg)
  {
    c.key == k && OpensAt(cfg, evs, from, k) && Traced(cfg, evs, from, c) && Quiet(evs, Results(cfg, evs), from, k)
  }

  lemma QuietLonger(evs: seq<Event>, trace: seq<Outcome>, o: Outcome, from: nat, k: Key)
    requires |evs| == |trace| + 1
    requires Quiet(evs[..|trace|], trace, from, k) && (o.message.Some? ==> !About(evs[|trace|], k))
    ensures Quiet(evs, trace + [o], from, k)
  {
    forall j | from <= j < |evs|
      ensures !DeliversAt(evs, trace + [o], j, k)
    {
      if j < |trace| {
        assert !DeliversAt(evs[..|trace|], trace, j, k);
      }
    }
  }

  lemma {:induction false} QuietNext(cfg: Config, evs: seq<Event>, from: nat, k: Key)
    requires ValidConfig(cfg) && evs != [] && Quiet(evs[..|evs| - 1], Results(cfg, evs[..|evs| - 1]), from, k)
    requires About(evs[|evs| - 1], k) ==> Results(cfg, evs)[|evs| - 1].message.None?
    ensures Quiet(evs, Results(cfg, evs), from, k)
  {
    QuietLonger(evs, Results(cfg, evs[..|evs| - 1]), Results(cfg, evs)[|evs| - 1], from, k);
  }

  /** The context the last event acts on: the key's live one, or one it opens. */
  function ActsOn(cfg: Config, evs: seq<Event>, k: Key): Context
    requires ValidConfig(cfg) && evs != [] && About(evs[|evs| - 1], k)
  {
    var n := |evs| - 1;
    var v := View(Expire(cfg, Run(cfg, evs[..n]), evs[n].now), k);
    if v.Some? then v.value else Opened(FragmentOf(evs[n]), evs[n].later)
  }

  /** What the last event acts on is traced to events since its opening. */
  ghost predicate ActsOnSince(cfg: Config, evs: seq<Event>, k: Key, from: nat)
    requires ValidConfig(cfg) && evs != [] && About(evs[|evs| - 1], k)
  {
    var n, c := |evs| - 1, ActsOn(cfg, evs, k);
    && c.key == k && from <= n && Traced(cfg, evs, from, c) && Quiet(evs[..n], Results(cfg, evs[..n]), from, k)
    && evs[n].now - c.started < cfg.timeout
    && (if from == n then Unopened(cfg, evs, n, k) else OpensAt(cfg, evs[..n], from, k))
  }

  lemma {:induction false} RootedOther(cfg: Config, evs: seq<Event>, k: Key, from: nat, c: Context)
    requires ValidConfig(cfg) && evs != [] && !About(evs[|evs| - 1], k) && Rooted(cfg, evs[..|evs| - 1], from, c, k)
    ensures Rooted(cfg, evs, from, c, k)
  {
    var n := |evs| - 1;
    assert OpensAt(cfg, evs, from, k) by { OpensLonger(cfg, evs, from, k); }
    assert Traced(cfg, evs, from, c) by { TracedLonger(cfg, evs, n, from, c); }
    assert Quiet(evs, Results(cfg, evs), from, k) by { QuietNext(cfg, evs, from, k); }
  }

  /** A frame of the key that leaves it a context, or delivers, was not turned away. */
  lemma {:induction false} NotBusy(cfg: Config, st: State, e: Event, k: Key)
    requires ValidConfig(cfg) && Valid(cfg, st) && Shaped(st) && About(e, k)
    requires View(Step(cfg, st, e).state, k).Some? || Step(cfg, st, e).message.Some?
    ensures Step(cfg, st, e).reason != Busy
  {
    StepOwn(cfg, st, e, k);
  }

  lemma {:induction false} OpensOwn(cfg: Config, evs: seq<Event>, k: Key, from: nat)
    requires ValidConfig(cfg) && evs != [] && About(evs[|evs| - 1], k)
    requires View(Run(cfg, evs), k).Some? || DeliversAt(evs, Results(cfg, evs), |evs| - 1, k)
    requires ActsOnSince(cfg, evs, k, from)
    ensures OpensAt(cfg, evs, from, k)
  {
    var n := |evs| - 1;
    if from < n {
      OpensLonger(cfg, evs, from, k);
    } else {
      ValidIsShaped(cfg, Run(cfg, evs[..n]));
      NotBusy(cfg, Run(cfg, evs[..n]), evs[n], k);
    }
  }

  lemma {:induction false} ActsOnOk(cfg: Config, evs: seq<Event>, k: Key)
    requires ValidConfig(cfg) && evs != [] && About(evs[|evs| - 1], k)
    requires View(Run(cfg, evs), k).Some?
    ensures |ActsOn(cfg, evs, k).parts| == SLOTS && ActsOn(cfg, evs, k).key == k
  {
    StepOwn(cfg, Run(cfg, evs[..|evs| - 1]), evs[|evs| - 1], k);
  }

  /** The context a key has after its own frame is what the frame's verdict keeps. */
  lemma {:induction false} OwnVerdict(cfg: Config, evs: seq<Event>, k: Key, c: Context, buffered: int)
    requires ValidConfig(cfg) && evs != [] && About(evs[|evs| - 1], k) && View(Run(cfg, evs), k).Some?
    requires c == ActsOn(cfg, evs, k) && |c.parts| == SLOTS
    requires buffered == Expire(cfg, Run(cfg, evs[..|evs| - 1]), evs[|evs| - 1].now).buffered
    ensures Results(cfg, evs)[|evs| - 1].message.None?
    ensures var v := Absorb(cfg, c, buffered, FragmentOf(evs[|evs| - 1]));
            v.Keep? && View(Run(cfg, evs), k) == Some(v.ctx)
  {
    StepOwn(cfg, Run(cfg, evs[..|evs| - 1]), evs[|evs| - 1], k);
  }

  lemma {:induction false} TracedOwn(cfg: Config, evs: seq<Event>, k: Key, from: nat, c: Context, buffered: int,
                                     d: Context)
    requires evs != [] && About(evs[|evs| - 1], k) && |c.parts| == SLOTS && c.key == k
    requires Traced(cfg, evs, from, c) && evs[|evs| - 1].now - c.started < cfg.timeout
    requires var v := Absorb(cfg, c, buffered, FragmentOf(evs[|evs| - 1])); v.Keep? && v.ctx == d
    ensures d.key == k && Traced(cfg, evs, from, d)
  {
    TracedAbsorb(cfg, evs, from, c, buffered);
  }

  lemma {:induction false} TracedView(cfg: Config, evs: seq<Event>, k: Key, from: nat)
    requires ValidConfig(cfg) && evs != [] && About(evs[|evs| - 1], k) && View(Run(cfg, evs), k).Some?
    requires Traced(cfg, evs, from, ActsOn(cfg, evs, k))
    requires evs[|evs| - 1].now - ActsOn(cfg, evs, k).started < cfg.timeout
    ensures View(Run(cfg, evs), k).value.key == k && Traced(cfg, evs, from, View(Run(cfg, evs), k).value)
    ensures Results(cfg, evs)[|evs| - 1].message.None?
  {
    var c, d := ActsOn(cfg, evs, k), View(Run(cfg, evs), k).value;
    var buffered := Expire(cfg, Run(cfg, evs[..|evs| - 1]), evs[|evs| - 1].now).buffered;
    ActsOnOk(cfg, evs, k);
    OwnVerdict(cfg, evs, k, c, buffered);
    TracedOwn(cfg, evs, k, from, c, buffered, d);
  }

  lemma {:induction false} RootedOwn(cfg: Config, evs: seq<Event>, k: Key, from: nat)
    requires ValidConfig(cfg) && evs != [] && About(evs[|evs| - 1], k) && View(Run(cfg, evs), k).Some?
    requires ActsOnSince(cfg, evs, k, from)
    ensures Rooted(cfg, evs, from, View(Run(cfg, evs), k).value, k)
  {
    TracedView(cfg, evs, k, from);
    OpensOwn(cfg, evs, k, from);
    QuietNext(cfg, evs, from, k);
  }

  lemma {:induction false} ViewRooted(cfg: Config, evs: seq<Event>, k: Key)
    requires ValidConfig(cfg) && Timed(evs) && View(Run(cfg, evs), k).Some?
    ensures exists from :: Rooted(cfg, evs, from, View(Run(cfg, evs), k).value, k)
    decreases |evs|, 1
  {
    var n := |evs| - 1;
    if About(evs[n], k) {
      var from := ActsOnRooted(cfg, evs, k);
      RootedOwn(cfg, evs, k, from);
    } else {
      var st := Run(cfg, evs[..n]);
      ExpireView(cfg, st, evs[n].now, k);
      StepOther(cfg, st, evs[n], k);
      ViewRooted(cfg, evs[..n], k);
      var from :| Rooted(cfg, evs[..n], from, View(st, k).value, k);
      RootedOther(cfg, evs, k, from, View(st, k).value);
    }
  }

  lemma {:induction false} ActsOnRooted(cfg: Config, evs: seq<Event>, k: Key) returns (from: nat)
    requires ValidConfig(cfg) && Timed(evs) && evs != [] && About(evs[|evs| - 1], k)
    ensures ActsOnSince(cfg, evs, k, from)
    decreases |evs|, 0
  {
    var n := |evs| - 1;
    var st := Run(cfg, evs[..n]);
    ExpireView(cfg, st, evs[n].now, k);
    if View(Expire(cfg, st, evs[n].now), k).Some? {
      ViewRooted(cfg, evs[..n], k);
      from :| Rooted(cfg, evs[..n], from, View(st, k).value, k);
      TracedLonger(cfg, evs, n, from, View(st, k).value);
    } else {
      from := n;
      TracedOpened(cfg, evs);
    }
  }

  // ----- the delivered message

  /** The TLVs an event's fragment carries. */
  function TlvsOf(e: Event): seq<Tlv> {
    var d := Decode(e.frame, e.ingress);
    if d.Accepted? then
      var p := Payload(d.fragment.payload, d.fragment.last);
      if p.Some? then p.value else []
    else []
  }

  predicate Within(evs: seq<Event>, picks: seq<nat>) {
    forall i :: 0 <= i < |picks| ==> picks[i] < |evs|
  }

  /** The TLVs of the picked events, concatenated. */
  function Gather(evs: seq<Event>, picks: seq<nat>): seq<Tlv>
    requires Within(evs, picks)
  {
    if picks == [] then [] else Gather(evs, picks[..|picks| - 1]) + TlvsOf(evs[picks[|picks| - 1]])
  }

  /** Event `j` carried fragment `i` of `n` under the key, within the timeout of event `from`. */
  ghost predicate Picks(cfg: Config, evs: seq<Event>, k: Key, relay: bool, from: nat, n: nat, i: nat, j: nat)
    requires from < |evs|
  {
    && from <= j < |evs| && evs[j].now - evs[from].later < cfg.timeout
    && Carries(evs[j], k, relay, i, Part(i == n - 1, TlvsOf(evs[j])))
  }

  ghost predicate AllPick(cfg: Config, evs: seq<Event>, k: Key, relay: bool, from: nat, picks: seq<nat>)
    requires from < |evs|
  {
    forall i :: 0 <= i < |picks| ==> Picks(cfg, evs, k, relay, from, |picks|, i, picks[i])
  }

  /**
   * The message `m` of key `k`, delivered at the last event: event `from` opened a context for the
   * key, and `picks[i]` is an event since that carried fragment `i` under it, before its deadline;
   * only the last is flagged last, and the TLVs are theirs in fragment order. No message of the
   * key was delivered in between, so no fragment counts for two messages.
   */
  ghost predicate Justifies(cfg: Config, evs: seq<Event>, k: Key, m: Message, from: nat, picks: seq<nat>)
    requires ValidConfig(cfg) && evs != []
  {
    && OpensAt(cfg, evs, from, k) && Quiet(evs[..|evs| - 1], Results(cfg, evs[..|evs| - 1]), from, k)
    && m.destination == k.destination && m.source == k.source && m.messageType == k.messageType && m.mid == k.mid
    && 0 < |picks| == m.fragments <= cfg.maxFragments
    && AllPick(cfg, evs, k, m.relay, from, picks) && Within(evs, picks)
    && m.tlvs == Gather(evs, picks)
  }

  lemma GatherPush(evs: seq<Event>, picks: seq<nat>, j: nat)
    requires j < |evs| && Within(evs, picks)
    ensures Gather(evs, picks + [j]) == Gather(evs, picks) + TlvsOf(evs[j])
  {
    assert (picks + [j])[..|picks|] == picks;
  }

  lemma JoinPush(parts: seq<Option<Part>>, n: nat)
    requires n < |parts| && parts[n].Some?
    ensures Join(parts[..n + 1]) == Join(parts[..n]) + parts[n].value.tlvs
  {
    assert parts[..n + 1][..n] == parts[..n];
  }

  lemma {:induction false} GatherNext(evs: seq<Event>, picks: seq<nat>, parts: seq<Option<Part>>, j: nat)
    requires |picks| < |parts| && Within(evs, picks) && Gather(evs, picks) == Join(parts[..|picks|])
    requires j < |evs| && parts[|picks|].Some? && TlvsOf(evs[j]) == parts[|picks|].value.tlvs
    ensures Within(evs, picks + [j]) && Gather(evs, picks + [j]) == Join(parts[..|picks| + 1])
  {
    GatherPush(evs, picks, j);
    JoinPush(parts, |picks|);
  }

  lemma BroughtTlvs(cfg: Config, evs: seq<Event>, from: nat, c: Context, fid: nat, j: nat)
    requires Brought(cfg, evs, from, c, fid, j)
    ensures j < |evs| && fid < |c.parts| && c.parts[fid].Some? && TlvsOf(evs[j]) == c.parts[fid].value.tlvs
  {
  }

  ghost predicate PickedAt(cfg: Config, evs: seq<Event>, from: nat, c: Context, picks: seq<nat>, i: nat) {
    i < |picks| ==> picks[i] < |evs| && Brought(cfg, evs, from, c, i, picks[i])
  }

  /** The picks are events that brought the first parts, in fragment order. */
  ghost predicate Picked(cfg: Config, evs: seq<Event>, from: nat, c: Context, picks: seq<nat>) {
    forall i: nat :: PickedAt(cfg, evs, from, c, picks, i)
  }


  lemma {:induction false} PickedNext(cfg: Config, evs: seq<Event>, from: nat, c: Context, picks: seq<nat>, j: nat)
    requires Picked(cfg, evs, from, c, picks) && j < |evs| && Brought(cfg, evs, from, c, |picks|, j)
    ensures Picked(cfg, evs, from, c, picks + [j])
  {
    forall i: nat
      ensures PickedAt(cfg, evs, from, c, picks + [j], i)
    {
      assert PickedAt(cfg, evs, from, c, picks, i);
    }
  }

  /** The picks, and that their TLVs are the parts' in order. */
  ghost predicate Collected(cfg: Config, evs: seq<Event>, from: nat, c: Context, picks: seq<nat>) {
    && |picks| <= |c.parts| && Within(evs, picks) && Picked(cfg, evs, from, c, picks)
    && Gather(evs, picks) == Join(c.parts[..|picks|])
  }

  /** Some event brought the part, and carried its TLVs. */
  lemma {:induction false} PickPart(cfg: Config, evs: seq<Event>, from: nat, c: Context, picks: seq<nat>)
    returns (j: nat)
    requires PartTraced(cfg, evs, from, c, |picks|) && |picks| < |c.parts| && c.parts[|picks|].Some?
    requires Picked(cfg, evs, from, c, picks)
    ensures j < |evs| && TlvsOf(evs[j]) == c.parts[|picks|].value.tlvs && Picked(cfg, evs, from, c, picks + [j])
  {
    j :| Brought(cfg, evs, from, c, |picks|, j);
    BroughtTlvs(cfg, evs, from, c, |picks|, j);
    PickedNext(cfg, evs, from, c, picks, j);
  }

  /** One event per stored part of a complete context, in fragment order. */
  lemma {:induction false} PickParts(cfg: Config, evs: seq<Event>, from: nat, c: Context, n: nat)
    returns (picks: seq<nat>)
    requires PartsTraced(cfg, evs, from, c) && n <= |c.parts|
    requires forall i :: 0 <= i < n ==> c.parts[i].Some?
    ensures |picks| == n && Collected(cfg, evs, from, c, picks)
    decreases n
  {
    picks := [];
    if n > 0 {
      picks := PickParts(cfg, evs, from, c, n - 1);
      picks := PickNext(cfg, evs, from, c, picks);
    }
  }

  lemma {:induction false} PickNext(cfg: Config, evs: seq<Event>, from: nat, c: Context, picks: seq<nat>)
    returns (more: seq<nat>)
    requires PartsTraced(cfg, evs, from, c) && |picks| < |c.parts| && c.parts[|picks|].Some?
    requires Collected(cfg, evs, from, c, picks)
    ensures |more| == |picks| + 1 && Collected(cfg, evs, from, c, more)
  {
    assert PartTraced(cfg, evs, from, c, |picks|);
    var j := PickPart(cfg, evs, from, c, picks);
    GatherNext(evs, picks, c.parts, j);
    more := picks + [j];
  }

  /** Soundness: on every run whatever, each delivery is justified by events of the run. */
  lemma {:induction false} DeliveriesAreSound(cfg: Config, evs: seq<Event>, k: Key)
    requires ValidConfig(cfg) && Timed(evs) && evs != []
    requires DeliversAt(evs, Results(cfg, evs), |evs| - 1, k)
    ensures var m := Results(cfg, evs)[|evs| - 1].message.value;
            exists from, picks :: Justifies(cfg, evs, k, m, from, picks)
  {
    var n := |evs| - 1;
    var st := Run(cfg, evs[..n]);
    StepOwn(cfg, st, evs[n], k);
    var f, c := FragmentOf(evs[n]), ActsOn(cfg, evs, k);
    var buffered := Expire(cfg, st, evs[n].now).buffered;
    AbsorbDelivers(cfg, c, buffered, f);
    var d := Stored(c, f, Payload(f.payload, f.last).value);
    var from := ActsOnRooted(cfg, evs, k);
    TracedStored(cfg, evs, from, c, f, Payload(f.payload, f.last).value);
    var picks := PickParts(cfg, evs, from, d, d.last.value + 1);
    PartsPicked(cfg, evs, k, d, from, picks);
    OpensOwn(cfg, evs, k, from);
    JustifiedByParts(cfg, evs, k, d, from, picks);
  }

  lemma PickedPart(cfg: Config, evs: seq<Event>, k: Key, d: Context, from: nat, i: nat, j: nat)
    requires d.key == k && Complete(d) && PartsOk(cfg, d.parts, d.last) && i <= d.last.value
    requires from < |evs| && d.started == evs[from].later && Brought(cfg, evs, from, d, i, j)
    ensures Picks(cfg, evs, k, d.relay, from, d.last.value + 1, i, j)
  {
    assert d.parts[i].value.last <==> d.last == Some(i);
  }

  lemma {:induction false} PartPicked(cfg: Config, evs: seq<Event>, k: Key, d: Context, from: nat, picks: seq<nat>,
                                      i: nat)
    requires d.key == k && Complete(d) && PartsOk(cfg, d.parts, d.last) && i <= d.last.value
    requires from < |evs| && d.started == evs[from].later
    requires i < |picks| == d.last.value + 1 && Picked(cfg, evs, from, d, picks)
    ensures Picks(cfg, evs, k, d.relay, from, |picks|, i, picks[i])
  {
    assert PickedAt(cfg, evs, from, d, picks, i);
    PickedPart(cfg, evs, k, d, from, i, picks[i]);
  }

  lemma {:induction false} PartsPicked(cfg: Config, evs: seq<Event>, k: Key, d: Context, from: nat, picks: seq<nat>)
    requires d.key == k && Complete(d) && PartsOk(cfg, d.parts, d.last)
    requires from < |evs| && d.started == evs[from].later
    requires |picks| == d.last.value + 1 && Picked(cfg, evs, from, d, picks)
    ensures AllPick(cfg, evs, k, d.relay, from, picks)
  {
    forall i | 0 <= i < |picks|
      ensures Picks(cfg, evs, k, d.relay, from, |picks|, i, picks[i])
    {
      PartPicked(cfg, evs, k, d, from, picks, i);
    }
  }

  lemma {:induction false} JustifiedByParts(cfg: Config, evs: seq<Event>, k: Key, d: Context, from: nat,
                                            picks: seq<nat>)
    requires ValidConfig(cfg) && evs != [] && d.key == k && Complete(d) && d.last.value < cfg.maxFragments
    requires OpensAt(cfg, evs, from, k) && Quiet(evs[..|evs| - 1], Results(cfg, evs[..|evs| - 1]), from, k)
    requires |picks| == d.last.value + 1 && AllPick(cfg, evs, k, d.relay, from, picks)
    requires Within(evs, picks) && Gather(evs, picks) == Join(d.parts[..|picks|])
    ensures Justifies(cfg, evs, k, Assembled(d), from, picks)
  {
  }
}
