/** Conflicts silence a key until its fixed deadline, and only live contexts can fill the table. */
module Blocking {
  import opened Bytes
  import opened Tlvs
  import opened Reassembly
  import opened Runs
  import opened Soundness

  /** The key has a context whose deadline none of the events reaches. */
  predicate WithinDeadline(cfg: Config, c: Context, evs: seq<Event>) {
    forall i :: 0 <= i < |evs| ==> evs[i].now - c.started < cfg.timeout
  }

  /** A poisoned context answers every frame of its key with a refusal and stays as it is. */
  lemma PoisonedStep(cfg: Config, st: State, e: Event, k: Key, c: Context)
    requires ValidConfig(cfg) && Valid(cfg, st) && View(st, k) == Some(c) && c.poisoned
    requires e.now - c.started < cfg.timeout
    ensures Shaped(st) && View(Step(cfg, st, e).state, k) == Some(c)
    ensures About(e, k) ==> Step(cfg, st, e).message.None? && Step(cfg, st, e).reason == InvalidInput
  {
    ExpireView(cfg, st, e.now, k);
    if About(e, k) {
      StepOwn(cfg, st, e, k);
    } else {
      StepOther(cfg, st, e, k);
    }
  }

  /** Nothing is delivered for a poisoned key, and its deadline does not move, until it expires. */
  lemma {:induction false} PoisonSticks(cfg: Config, st: State, evs: seq<Event>, k: Key, c: Context)
    requires ValidConfig(cfg) && Valid(cfg, st) && View(st, k) == Some(c) && c.poisoned
    requires WithinDeadline(cfg, c, evs)
    ensures View(RunFrom(cfg, st, evs), k) == Some(c)
    ensures Quiet(evs, Trace(cfg, st, evs), 0, k)
    decreases |evs|
  {
    if evs != [] {
      var n := |evs| - 1;
      PoisonSticks(cfg, st, evs[..n], k, c);
      var before := RunFrom(cfg, st, evs[..n]);
      PoisonedStep(cfg, before, evs[n], k, c);
      QuietLonger(evs, Trace(cfg, st, evs[..n]), Step(cfg, before, evs[n]), 0, k);
    }
  }

  /** The context is poisoned or holds this part, and has this start. */
  predicate Locked(c: Context, fid: nat, p: Part, started: real) {
    c.started == started && (c.poisoned || (fid < |c.parts| && c.parts[fid] == Some(p)))
  }

  /** A stored part is neither replaced nor removed, except with the whole context. */
  lemma AbsorbLocked(cfg: Config, c: Context, buffered: int, f: Fragment, fid: nat, p: Part)
    requires |c.parts| == SLOTS && Locked(c, fid, p, c.started)
    ensures var v := Absorb(cfg, c, buffered, f); v.Keep? ==> Locked(v.ctx, fid, p, c.started)
  {
  }

  lemma LockedStep(cfg: Config, st: State, e: Event, k: Key, fid: nat, p: Part)
    requires ValidConfig(cfg) && Valid(cfg, st) && View(st, k).Some?
    requires var c := View(st, k).value; Locked(c, fid, p, c.started) && e.now - c.started < cfg.timeout
    requires Shaped(st) && (About(e, k) ==> Step(cfg, st, e).message.None?)
    ensures var v := View(Step(cfg, st, e).state, k); v.Some? && Locked(v.value, fid, p, View(st, k).value.started)
  {
    ExpireView(cfg, st, e.now, k);
    if About(e, k) {
      StepOwn(cfg, st, e, k);
      var live := Expire(cfg, st, e.now);
      AbsorbLocked(cfg, View(live, k).value, live.buffered, FragmentOf(e), fid, p);
    } else {
      StepOther(cfg, st, e, k);
    }
  }

  /** Short of a delivery or the deadline, the key keeps its context, its part and its deadline. */
  lemma {:induction false} LockedRun(cfg: Config, st: State, evs: seq<Event>, k: Key, fid: nat, p: Part)
    requires ValidConfig(cfg) && Valid(cfg, st) && View(st, k).Some?
    requires var c := View(st, k).value; Locked(c, fid, p, c.started) && WithinDeadline(cfg, c, evs)
    requires Quiet(evs, Trace(cfg, st, evs), 0, k)
    ensures var v := View(RunFrom(cfg, st, evs), k); v.Some? && Locked(v.value, fid, p, View(st, k).value.started)
    decreases |evs|
  {
    if evs != [] {
      var n := |evs| - 1;
      var trace := Trace(cfg, st, evs[..n]);
      assert !DeliversAt(evs, Trace(cfg, st, evs), n, k);
      QuietShorter(evs, trace, Trace(cfg, st, evs)[n], k);
      LockedRun(cfg, st, evs[..n], k, fid, p);
      LockedStep(cfg, RunFrom(cfg, st, evs[..n]), evs[n], k, fid, p);
    }
  }

  lemma QuietShorter(evs: seq<Event>, trace: seq<Outcome>, o: Outcome, k: Key)
    requires |evs| == |trace| + 1 && Quiet(evs, trace + [o], 0, k)
    ensures Quiet(evs[..|trace|], trace, 0, k)
  {
    forall j | 0 <= j < |trace|
      ensures !DeliversAt(evs[..|trace|], trace, j, k)
    {
      assert !DeliversAt(evs, trace + [o], j, k);
    }
  }

  /** What a fragment of the key says, to be compared with another of the same id. */
  function Content(f: Fragment): (bool, Option<seq<Tlv>>) {
    (f.last, Payload(f.payload, f.last))
  }

  lemma AbsorbMet(cfg: Config, c: Context, buffered: int, f: Fragment)
    requires |c.parts| == SLOTS && Absorb(cfg, c, buffered, f).Keep?
    ensures var d := Absorb(cfg, c, buffered, f).ctx;
            d.poisoned || (Content(f).1.Some? && Locked(d, f.fid, Part(f.last, Content(f).1.value), d.started))
  {
  }

  /** After a frame that found a context and delivered nothing, the context is poisoned or stores it. */
  lemma MetContext(cfg: Config, st: State, e: Event, k: Key)
    requires ValidConfig(cfg) && Valid(cfg, st) && Shaped(st) && About(e, k)
    requires Step(cfg, st, e).reason != Busy && Step(cfg, st, e).message.None?
    ensures var v, f := View(Step(cfg, st, e).state, k), FragmentOf(e);
            && v.Some?
            && (v.value.poisoned
                || (Content(f).1.Some? && Locked(v.value, f.fid, Part(f.last, Content(f).1.value), v.value.started)))
  {
    StepOwn(cfg, st, e, k);
    var live, f := Expire(cfg, st, e.now), FragmentOf(e);
    var v := View(live, k);
    AbsorbMet(cfg, if v.Some? then v.value else Opened(f, e.later), live.buffered, f);
  }

  /** A frame that contradicts a stored part, or is malformed, poisons the context. */
  lemma ConflictStep(cfg: Config, st: State, e: Event, k: Key, fid: nat, p: Part)
    requires ValidConfig(cfg) && Valid(cfg, st) && View(st, k).Some? && About(e, k)
    requires var c := View(st, k).value; Locked(c, fid, p, c.started) && e.now - c.started < cfg.timeout
    requires FragmentOf(e).fid == fid && Content(FragmentOf(e)) != (p.last, Some(p.tlvs))
    ensures Shaped(st) && Step(cfg, st, e).message.None?
    ensures var v := View(Step(cfg, st, e).state, k);
            v.Some? && v.value.poisoned && v.value.started == View(st, k).value.started
  {
    ExpireView(cfg, st, e.now, k);
    StepOwn(cfg, st, e, k);
  }

  /** After these events the key is silent: poisoned, with this start, and nothing delivered. */
  ghost predicate Silent(cfg: Config, st: State, evs: seq<Event>, k: Key, started: real)
    requires ValidConfig(cfg) && Valid(cfg, st)
  {
    var v := View(RunFrom(cfg, st, evs), k);
    v.Some? && v.value.poisoned && v.value.started == started && Quiet(evs, Trace(cfg, st, evs), 0, k)
  }

  lemma {:induction false} SilentOnConflict(cfg: Config, st: State, evs: seq<Event>, k: Key, fid: nat, p: Part)
    requires ValidConfig(cfg) && Valid(cfg, st) && View(st, k).Some? && evs != [] && About(evs[|evs| - 1], k)
    requires var c := View(st, k).value; Locked(c, fid, p, c.started) && WithinDeadline(cfg, c, evs)
    requires FragmentOf(evs[|evs| - 1]).fid == fid && Content(FragmentOf(evs[|evs| - 1])) != (p.last, Some(p.tlvs))
    requires Quiet(evs[..|evs| - 1], Trace(cfg, st, evs[..|evs| - 1]), 0, k)
    ensures Silent(cfg, st, evs, k, View(st, k).value.started)
  {
    var n := |evs| - 1;
    var before := RunFrom(cfg, st, evs[..n]);
    LockedRun(cfg, st, evs[..n], k, fid, p);
    ConflictStep(cfg, before, evs[n], k, fid, p);
    QuietLonger(evs, Trace(cfg, st, evs[..n]), Step(cfg, before, evs[n]), 0, k);
  }

  lemma {:induction false} StaysSilent(cfg: Config, st: State, evs: seq<Event>, k: Key, started: real)
    requires ValidConfig(cfg) && Valid(cfg, st) && evs != []
    requires Silent(cfg, st, evs[..|evs| - 1], k, started) && evs[|evs| - 1].now - started < cfg.timeout
    ensures Silent(cfg, st, evs, k, started)
  {
    var n := |evs| - 1;
    var before := RunFrom(cfg, st, evs[..n]);
    PoisonedStep(cfg, before, evs[n], k, View(before, k).value);
    QuietLonger(evs, Trace(cfg, st, evs[..n]), Step(cfg, before, evs[n]), 0, k);
  }

  lemma {:induction false} SilentLonger(cfg: Config, st: State, evs: seq<Event>, m: nat, k: Key, started: real)
    requires ValidConfig(cfg) && Valid(cfg, st) && 0 < m <= |evs|
    requires Silent(cfg, st, evs[..m], k, started)
    requires forall i :: m <= i < |evs| ==> evs[i].now - started < cfg.timeout
    ensures Silent(cfg, st, evs, k, started)
    decreases |evs| - m
  {
    if m == |evs| {
      assert evs[..m] == evs;
    } else {
      var longer := evs[..m + 1];
      assert longer[..m] == evs[..m];
      StaysSilent(cfg, st, longer, k, started);
      SilentLonger(cfg, st, evs, m + 1, k, started);
    }
  }

  /** From a contradicting frame on, the context is poisoned and nothing is delivered. */
  lemma {:induction false} SilentSince(cfg: Config, st: State, evs: seq<Event>, j: nat, k: Key, fid: nat, p: Part)
    requires ValidConfig(cfg) && Valid(cfg, st) && View(st, k).Some? && j < |evs| && About(evs[j], k)
    requires var c := View(st, k).value; Locked(c, fid, p, c.started) && WithinDeadline(cfg, c, evs)
    requires FragmentOf(evs[j]).fid == fid && Content(FragmentOf(evs[j])) != (p.last, Some(p.tlvs))
    requires Quiet(evs[..j], Trace(cfg, st, evs[..j]), 0, k)
    ensures Silent(cfg, st, evs, k, View(st, k).value.started)
  {
    var upTo := evs[..j + 1];
    assert upTo[..j] == evs[..j];
    SilentOnConflict(cfg, st, upTo, k, fid, p);
    SilentLonger(cfg, st, evs, j + 1, k, View(st, k).value.started);
  }

  /**
   * Two frames of one key and fragment id with different contents, or with a malformed one among
   * them, meet in one context: `a` found a slot, and `evs[j]` came after it with no delivery of
   * the key between. Then nothing at all is delivered for the key until that context expires.
   */
  lemma {:induction false} ConflictSilences(cfg: Config, st: State, a: Event, evs: seq<Event>, j: nat, k: Key)
    requires ValidConfig(cfg) && Valid(cfg, st) && Shaped(st) && j < |evs| && About(a, k) && About(evs[j], k)
    requires FragmentOf(a).fid == FragmentOf(evs[j]).fid && Content(FragmentOf(a)) != Content(FragmentOf(evs[j]))
    requires Step(cfg, st, a).reason != Busy && Step(cfg, st, a).message.None? && Valid(cfg, Step(cfg, st, a).state)
    requires var first := Step(cfg, st, a).state;
             && Quiet(evs[..j], Trace(cfg, first, evs[..j]), 0, k)
             && (View(first, k).Some? ==> WithinDeadline(cfg, View(first, k).value, evs))
    ensures Quiet(evs, Trace(cfg, Step(cfg, st, a).state, evs), 0, k)
  {
    MetContext(cfg, st, a, k);
    var first, f := Step(cfg, st, a).state, FragmentOf(a);
    var c := View(first, k).value;
    if c.poisoned {
      PoisonSticks(cfg, first, evs, k, c);
    } else {
      SilentSince(cfg, first, evs, j, k, f.fid, Part(f.last, Content(f).1.value));
    }
  }

  /**
   * A malformed frame of the key that found a slot, or one with a fragment id beyond the limit,
   * silences the key until its context expires, whatever came before it.
   */
  lemma {:induction false} MalformedSilences(cfg: Config, st: State, a: Event, evs: seq<Event>, k: Key)
    requires ValidConfig(cfg) && Valid(cfg, st) && Shaped(st) && About(a, k)
    requires FragmentOf(a).fid >= cfg.maxFragments || Content(FragmentOf(a)).1.None?
    requires Step(cfg, st, a).reason != Busy && Valid(cfg, Step(cfg, st, a).state)
    requires var v := View(Step(cfg, st, a).state, k); v.Some? ==> WithinDeadline(cfg, v.value, evs)
    ensures Step(cfg, st, a).message.None? && Step(cfg, st, a).reason == InvalidInput
    ensures Quiet(evs, Trace(cfg, Step(cfg, st, a).state, evs), 0, k)
  {
    MalformedPoisons(cfg, st, a, k);
    PoisonSticks(cfg, Step(cfg, st, a).state, evs, k, View(Step(cfg, st, a).state, k).value);
  }

  lemma MalformedPoisons(cfg: Config, st: State, a: Event, k: Key)
    requires ValidConfig(cfg) && Valid(cfg, st) && Shaped(st) && About(a, k)
    requires FragmentOf(a).fid >= cfg.maxFragments || Content(FragmentOf(a)).1.None?
    requires Step(cfg, st, a).reason != Busy
    ensures Step(cfg, st, a).message.None? && Step(cfg, st, a).reason == InvalidInput
    ensures var v := View(Step(cfg, st, a).state, k); v.Some? && v.value.poisoned
  {
    StepOwn(cfg, st, a, k);
  }

  // ----- deadlines

  lemma AbsorbStart(cfg: Config, c: Context, buffered: int, f: Fragment)
    requires |c.parts| == SLOTS
    ensures var v := Absorb(cfg, c, buffered, f); v.Keep? ==> v.ctx.started == c.started
  {
  }

  lemma KeepsStart(cfg: Config, st: State, e: Event, k: Key, c: Context)
    requires ValidConfig(cfg) && Valid(cfg, st) && Shaped(st) && View(st, k) == Some(c)
    requires e.now - c.started < cfg.timeout && (About(e, k) ==> Step(cfg, st, e).message.None?)
    ensures var v := View(Step(cfg, st, e).state, k); v.Some? && v.value.started == c.started
  {
    ExpireView(cfg, st, e.now, k);
    if About(e, k) {
      StepOwn(cfg, st, e, k);
      AbsorbStart(cfg, c, Expire(cfg, st, e.now).buffered, FragmentOf(e));
    } else {
      StepOther(cfg, st, e, k);
    }
  }

  /** No frame extends a context's deadline: short of a delivery it keeps the start it opened with. */
  lemma {:induction false} DeadlineFixed(cfg: Config, st: State, evs: seq<Event>, k: Key, c: Context)
    requires ValidConfig(cfg) && Valid(cfg, st) && View(st, k) == Some(c)
    requires WithinDeadline(cfg, c, evs) && Quiet(evs, Trace(cfg, st, evs), 0, k)
    ensures var v := View(RunFrom(cfg, st, evs), k); v.Some? && v.value.started == c.started
    decreases |evs|
  {
    if evs != [] {
      var n := |evs| - 1;
      assert !DeliversAt(evs, Trace(cfg, st, evs), n, k);
      QuietShorter(evs, Trace(cfg, st, evs[..n]), Trace(cfg, st, evs)[n], k);
      DeadlineFixed(cfg, st, evs[..n], k, c);
      var before := RunFrom(cfg, st, evs[..n]);
      KeepsStart(cfg, before, evs[n], k, View(before, k).value);
    }
  }

  // ----- a full table

  /** Event `j` opened a context of its own key within the timeout before the last event. */
  ghost predicate OpenedRecently(cfg: Config, evs: seq<Event>, j: nat)
    requires ValidConfig(cfg)
  {
    && j + 1 < |evs| && Decode(evs[j].frame, evs[j].ingress).Accepted?
    && OpensAt(cfg, evs, j, FragmentOf(evs[j]).key) && evs[|evs| - 1].now - evs[j].later < cfg.timeout
  }

  ghost predicate OpensSlot(cfg: Config, evs: seq<Event>, st: State, i: nat, from: nat)
    requires ValidConfig(cfg)
  {
    && i < |st.slots| && st.slots[i].Used?
    && OpenedRecently(cfg, evs, from) && FragmentOf(evs[from]).key == st.slots[i].ctx.key
  }

  ghost predicate OpenSlots(cfg: Config, evs: seq<Event>, st: State, opens: seq<nat>)
    requires ValidConfig(cfg)
  {
    forall i :: 0 <= i < |opens| ==> OpensSlot(cfg, evs, st, i, opens[i])
  }

  lemma {:induction false} OpenSlotsNext(cfg: Config, evs: seq<Event>, st: State, opens: seq<nat>, from: nat)
    requires ValidConfig(cfg) && OpenSlots(cfg, evs, st, opens) && OpensSlot(cfg, evs, st, |opens|, from)
    ensures OpenSlots(cfg, evs, st, opens + [from])
  {
  }

  /** The opening of the context in a slot. */
  lemma {:induction false} OpeningOf(cfg: Config, evs: seq<Event>, st: State, i: nat) returns (from: nat)
    requires ValidConfig(cfg) && Timed(evs) && evs != [] && st == Run(cfg, evs[..|evs| - 1]) && i < |st.slots|
    requires st.slots[i].Used? && !Expired(cfg, st.slots[i].ctx, evs[|evs| - 1].now)
    ensures OpensSlot(cfg, evs, st, i, from)
  {
    var n := |evs| - 1;
    var c := st.slots[i].ctx;
    assert Holds(st.slots[i], c.key);
    FindUnique(st.slots, i, c.key);
    ViewRooted(cfg, evs[..n], c.key);
    from :| Rooted(cfg, evs[..n], from, c, c.key);
    OpensLonger(cfg, evs, from, c.key);
  }

  /** The openings of the contexts in the first `m` slots. */
  lemma {:induction false} Openings(cfg: Config, evs: seq<Event>, st: State, m: nat) returns (opens: seq<nat>)
    requires ValidConfig(cfg) && Timed(evs) && evs != [] && st == Run(cfg, evs[..|evs| - 1]) && m <= |st.slots|
    requires forall i :: 0 <= i < m ==> st.slots[i].Used? && !Expired(cfg, st.slots[i].ctx, evs[|evs| - 1].now)
    ensures |opens| == m && OpenSlots(cfg, evs, st, opens)
    decreases m
  {
    opens := [];
    if m > 0 {
      opens := Openings(cfg, evs, st, m - 1);
      var from := OpeningOf(cfg, evs, st, m - 1);
      OpenSlotsNext(cfg, evs, st, opens, from);
      opens := opens + [from];
    }
  }

  /** The events opened contexts of their own within the timeout, each for another key. */
  ghost predicate DistinctOpenings(cfg: Config, evs: seq<Event>, opens: seq<nat>)
    requires ValidConfig(cfg)
  {
    && (forall i :: 0 <= i < |opens| ==> OpenedRecently(cfg, evs, opens[i]))
    && (forall i, j :: 0 <= i < j < |opens| ==> FragmentOf(evs[opens[i]]).key != FragmentOf(evs[opens[j]]).key)
  }

  lemma {:induction false} OpensDistinct(cfg: Config, evs: seq<Event>, st: State, opens: seq<nat>)
    requires ValidConfig(cfg) && UniqueKeys(st.slots) && OpenSlots(cfg, evs, st, opens)
    ensures DistinctOpenings(cfg, evs, opens)
  {
    forall i, j | 0 <= i < j < |opens|
      ensures FragmentOf(evs[opens[i]]).key != FragmentOf(evs[opens[j]]).key
    {
      assert OpensSlot(cfg, evs, st, i, opens[i]) && OpensSlot(cfg, evs, st, j, opens[j]);
    }
  }

  /** BUSY is returned only when as many keys as there are contexts were opened within the timeout. */
  lemma {:induction false} BusyOnlyWhenFull(cfg: Config, evs: seq<Event>)
    requires ValidConfig(cfg) && Timed(evs) && evs != []
    requires Results(cfg, evs)[|evs| - 1].reason == Busy
    ensures exists opens :: |opens| == cfg.maxContexts && DistinctOpenings(cfg, evs, opens)
  {
    var n := |evs| - 1;
    var st := Run(cfg, evs[..n]);
    BusyIsFull(cfg, st, evs[n]);
    var opens := Openings(cfg, evs, st, |st.slots|);
    OpensDistinct(cfg, evs, st, opens);
  }

  lemma BusyIsFull(cfg: Config, st: State, e: Event)
    requires ValidConfig(cfg) && Valid(cfg, st) && Shaped(st) && Step(cfg, st, e).reason == Busy
    ensures forall i :: 0 <= i < |st.slots| ==> st.slots[i].Used? && !Expired(cfg, st.slots[i].ctx, e.now)
  {
  }
}
