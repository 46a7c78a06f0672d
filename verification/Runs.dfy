/** Runs of the reassembler, seen key by key. */
module Runs {
  import opened Bytes
  import opened Reassembly
  import opened Accounting

  /** The context a key has. */
  function View(st: State, k: Key): Option<Context> {
    var at := Find(st.slots, k);
    if at.Some? then Some(st.slots[at.value].ctx) else None
  }

  /** The key an event is about, if its header is accepted. */
  predicate About(e: Event, k: Key) {
    var d := Decode(e.frame, e.ingress);
    d.Accepted? && d.fragment.key == k
  }

  function FragmentOf(e: Event): Fragment
    requires Decode(e.frame, e.ingress).Accepted?
  {
    Decode(e.frame, e.ingress).fragment
  }

  lemma FindUnique(slots: seq<Slot>, i: nat, k: Key)
    requires UniqueKeys(slots) && i < |slots| && Holds(slots[i], k)
    ensures Find(slots, k) == Some(i)
  {
    var j := Find(slots, k).value;
    assert Holds(slots[j], k);
  }

  /** Only the deadline takes a context away between frames. */
  lemma ExpireView(cfg: Config, st: State, now: real, k: Key)
    requires Valid(cfg, st)
    ensures var v := View(st, k);
            View(Expire(cfg, st, now), k) == if v.Some? && !Expired(cfg, v.value, now) then v else None
  {
    var slots := Expire(cfg, st, now).slots;
    ExpireValid(cfg, st, now);
    var before, after := Find(st.slots, k), Find(slots, k);
    if before.Some? && !Expired(cfg, st.slots[before.value].ctx, now) {
      assert Holds(slots[before.value], k);
      FindUnique(slots, before.value, k);
    } else if after.Some? {
      assert Holds(st.slots[after.value], k);
      FindUnique(st.slots, after.value, k);
    }
  }

  /** Writing one slot under its own key changes no other key's context. */
  lemma UpdateView(slots: seq<Slot>, i: nat, s: Slot, own: Key, k: Key)
    requires i < |slots| && own != k && UniqueKeys(slots) && UniqueKeys(slots[i := s])
    requires slots[i].Used? ==> slots[i].ctx.key == own
    requires s.Used? ==> s.ctx.key == own
    ensures View(State(slots[i := s], 0), k) == View(State(slots, 0), k)
  {
    var next := slots[i := s];
    var before := Find(slots, k);
    if before.Some? {
      assert Holds(next[before.value], k);
      FindUnique(next, before.value, k);
    }
  }

  /** A frame about another key, or about none, leaves a key's context to its deadline. */
  lemma StepOther(cfg: Config, st: State, e: Event, k: Key)
    requires ValidConfig(cfg) && Valid(cfg, st) && !About(e, k)
    ensures Shaped(st) && View(Step(cfg, st, e).state, k) == View(Expire(cfg, st, e.now), k)
  {
    StepValid(cfg, st, e);
    ExpireValid(cfg, st, e.now);
    var live, next := Expire(cfg, st, e.now), Step(cfg, st, e).state;
    var d := Decode(e.frame, e.ingress);
    if d.Accepted? {
      var f := d.fragment;
      PlaceOk(cfg, live.slots, f, e.later);
      var p := PlaceOf(live.slots, f, e.later);
      if p.Place? {
        SlotWithinTotal(live.slots, p.slot);
        AbsorbOk(cfg, p.ctx, live.buffered, f);
        UpdateView(live.slots, p.slot, next.slots[p.slot], f.key, k);
      }
    }
  }

  /** A frame about the key does to its context what `Absorb` says, or finds no slot. */
  lemma StepOwn(cfg: Config, st: State, e: Event, k: Key)
    requires ValidConfig(cfg) && Valid(cfg, st) && About(e, k)
    ensures Shaped(st)
    ensures var live, out, f := Expire(cfg, st, e.now), Step(cfg, st, e), FragmentOf(e);
            var v := View(live, k);
            var c := if v.Some? then v.value else Opened(f, e.later);
            if v.None? && Spare(live.slots).None? then
              out.reason == Busy && out.message.None? && View(out.state, k).None?
            else
              && ContextOk(cfg, c) && c.key == k && c.size <= live.buffered
              && match Absorb(cfg, c, live.buffered, f)
                 case Keep(d, r) => View(out.state, k) == Some(d) && out.message.None? && out.reason == r
                 case Deliver(m) => View(out.state, k).None? && out.message == Some(m) && out.reason == Ok
  {
    StepValid(cfg, st, e);
    ExpireValid(cfg, st, e.now);
    var live, next, f := Expire(cfg, st, e.now), Step(cfg, st, e).state, FragmentOf(e);
    PlaceOk(cfg, live.slots, f, e.later);
    var p := PlaceOf(live.slots, f, e.later);
    if p.Place? {
      SlotWithinTotal(live.slots, p.slot);
      AbsorbOk(cfg, p.ctx, live.buffered, f);
      if Absorb(cfg, p.ctx, live.buffered, f).Keep? {
        FindUnique(next.slots, p.slot, k);
      } else {
        Vacated(live.slots, p.slot, k);
      }
    }
  }

  /** Freeing a key's slot leaves the key without a context. */
  lemma Vacated(slots: seq<Slot>, i: nat, k: Key)
    requires UniqueKeys(slots) && i < |slots|
    requires Holds(slots[i], k) || Find(slots, k).None?
    ensures Find(slots[i := Free], k).None?
  {
  }

  // ----- runs

  /** The state after the events, from a state that meets the invariant. */
  function RunFrom(cfg: Config, st: State, evs: seq<Event>): (r: State)
    requires ValidConfig(cfg) && Valid(cfg, st)
    ensures Valid(cfg, r)
    decreases |evs|
  {
    if evs == [] then st
    else
      var n := |evs| - 1;
      var before := RunFrom(cfg, st, evs[..n]);
      StepValid(cfg, before, evs[n]);
      Step(cfg, before, evs[n]).state
  }

  /** What the events of a run return, in turn. */
  function Trace(cfg: Config, st: State, evs: seq<Event>): (r: seq<Outcome>)
    requires ValidConfig(cfg) && Valid(cfg, st)
    ensures |r| == |evs|
    decreases |evs|
  {
    if evs == [] then []
    else
      var n := |evs| - 1;
      var before := RunFrom(cfg, st, evs[..n]);
      ValidIsShaped(cfg, before);
      Trace(cfg, st, evs[..n]) + [Step(cfg, before, evs[n])]
  }

  /** The n-th event delivers a message of the key. */
  predicate DeliversAt(evs: seq<Event>, trace: seq<Outcome>, n: nat, k: Key)
    requires n < |evs| == |trace|
  {
    trace[n].message.Some? && About(evs[n], k)
  }

  /** From event `from` on, no message of the key is delivered. */
  predicate Quiet(evs: seq<Event>, trace: seq<Outcome>, from: nat, k: Key)
    requires |evs| == |trace|
  {
    forall j :: from <= j < |evs| ==> !DeliversAt(evs, trace, j, k)
  }

  /** A clock that never goes back, read twice for each event. */
  predicate Timed(evs: seq<Event>) {
    && (forall i :: 0 <= i < |evs| ==> evs[i].now <= evs[i].later)
    && (forall i, j :: 0 <= i < j < |evs| ==> evs[i].later <= evs[j].now)
  }
}
