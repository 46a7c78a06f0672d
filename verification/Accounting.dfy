/** Every reachable reassembler state meets the accounting invariant `Reassembly.Valid`. */
module Accounting {
  import opened Bytes
  import opened Tlvs
  import opened Reassembly

  // ----- stored parts

  lemma {:induction false} JoinEmpty(parts: seq<Option<Part>>)
    requires forall i :: 0 <= i < |parts| ==> parts[i].None?
    ensures Join(parts) == []
    decreases |parts|
  {
    if parts != [] {
      JoinEmpty(parts[..|parts| - 1]);
    }
  }

  /** Filling an empty slot adds exactly its TLVs, in its place. */
  lemma {:induction false} JoinFill(parts: seq<Option<Part>>, f: nat, p: Part)
    requires f < |parts| && parts[f].None?
    ensures var filled := Join(parts[f := Some(p)]);
            && |filled| == |Join(parts)| + |p.tlvs|
            && Size(filled) == Size(Join(parts)) + Size(p.tlvs)
    decreases |parts|
  {
    var n := |parts| - 1;
    var q := parts[f := Some(p)];
    if f == n {
      assert q[..n] == parts[..n];
      SizeAppend(Join(parts[..n]), p.tlvs);
      assert Join(parts) == Join(parts[..n]);
    } else {
      assert q[..n] == parts[..n][f := Some(p)];
      JoinFill(parts[..n], f, p);
      var tail := if parts[n].Some? then parts[n].value.tlvs else [];
      SizeAppend(Join(parts[..n]), tail);
      SizeAppend(Join(q[..n]), tail);
    }
  }

  lemma OpenedOk(cfg: Config, f: Fragment, at: real)
    requires ValidConfig(cfg)
    ensures ContextOk(cfg, Opened(f, at))
  {
    JoinEmpty(NoParts());
  }

  lemma PoisonedOk(cfg: Config, c: Context)
    requires ValidConfig(cfg)
    ensures ContextOk(cfg, Poisoned(c))
  {
    JoinEmpty(NoParts());
  }

  lemma StoredOk(cfg: Config, c: Context, buffered: int, f: Fragment, tlvs: seq<Tlv>)
    requires ValidConfig(cfg) && ContextOk(cfg, c) && !c.poisoned
    requires f.fid < cfg.maxFragments && c.parts[f.fid].None? && AllEncodable(tlvs)
    requires !Overflows(cfg, c, buffered, f, tlvs)
    ensures PartsOk(cfg, Stored(c, f, tlvs).parts, Stored(c, f, tlvs).last)
    ensures !Complete(Stored(c, f, tlvs)) ==> ContextOk(cfg, Stored(c, f, tlvs))
  {
    JoinFill(c.parts, f.fid, Part(f.last, tlvs));
    var d := Stored(c, f, tlvs);
    assert forall i :: 0 <= i < SLOTS && i != f.fid ==> d.parts[i] == c.parts[i];
    assert PartsOk(cfg, d.parts, d.last);
  }

  /** A verdict keeps the context's key, deadline and invariant, and the byte budget. */
  lemma AbsorbOk(cfg: Config, c: Context, buffered: int, f: Fragment)
    requires ValidConfig(cfg) && ContextOk(cfg, c) && c.size <= buffered <= cfg.maxBytes
    ensures var v := Absorb(cfg, c, buffered, f);
            v.Keep? ==> && ContextOk(cfg, v.ctx) && v.ctx.key == c.key && v.ctx.started == c.started
                        && buffered - c.size + v.ctx.size <= cfg.maxBytes
  {
    PoisonedOk(cfg, c);
    if !c.poisoned && f.fid < cfg.maxFragments {
      var tlvs := Payload(f.payload, f.last);
      if tlvs.Some? && c.parts[f.fid].None? && !Overflows(cfg, c, buffered, f, tlvs.value) {
        PayloadBounds(f.payload, f.last);
        StoredOk(cfg, c, buffered, f, tlvs.value);
      }
    }
  }

  /** A delivery is the context completed by its last missing part. */
  lemma AbsorbDelivers(cfg: Config, c: Context, buffered: int, f: Fragment)
    requires ValidConfig(cfg) && ContextOk(cfg, c) && Absorb(cfg, c, buffered, f).Deliver?
    ensures f.relay == c.relay && f.fid < cfg.maxFragments && Payload(f.payload, f.last).Some?
    ensures var d := Stored(c, f, Payload(f.payload, f.last).value);
            && Complete(d) && Absorb(cfg, c, buffered, f).message == Assembled(d) && PartsOk(cfg, d.parts, d.last)
  {
    PayloadBounds(f.payload, f.last);
    StoredOk(cfg, c, buffered, f, Payload(f.payload, f.last).value);
  }

  // ----- the table

  lemma {:induction false} TotalUpdate(slots: seq<Slot>, i: nat, s: Slot)
    requires i < |slots|
    ensures TotalSize(slots[i := s]) == TotalSize(slots) - SlotSize(slots[i]) + SlotSize(s)
    decreases |slots|
  {
    var n := |slots| - 1;
    if i == n {
      assert slots[i := s][..n] == slots[..n];
    } else {
      assert slots[i := s][..n] == slots[..n][i := s];
      TotalUpdate(slots[..n], i, s);
    }
  }

  lemma {:induction false} SlotWithinTotal(slots: seq<Slot>, i: nat)
    requires i < |slots|
    ensures SlotSize(slots[i]) <= TotalSize(slots)
    decreases |slots|
  {
    if i < |slots| - 1 {
      SlotWithinTotal(slots[..|slots| - 1], i);
    }
  }

  lemma {:induction false} ExpireTotal(cfg: Config, slots: seq<Slot>, now: real)
    ensures TotalSize(ExpireSlots(cfg, slots, now)) <= TotalSize(slots)
    decreases |slots|
  {
    if slots != [] {
      var n := |slots| - 1;
      assert ExpireSlots(cfg, slots, now)[..n] == ExpireSlots(cfg, slots[..n], now);
      ExpireTotal(cfg, slots[..n], now);
    }
  }

  lemma ExpireValid(cfg: Config, st: State, now: real)
    requires Valid(cfg, st)
    ensures Valid(cfg, Expire(cfg, st, now))
  {
    ExpireTotal(cfg, st.slots, now);
  }

  lemma ValidIsShaped(cfg: Config, st: State)
    requires Valid(cfg, st)
    ensures Shaped(st)
  {
  }

  /** What `PlaceOf` finds: the key's own slot, or a free one when no slot has the key. */
  predicate IsPlace(slots: seq<Slot>, i: nat, c: Context) {
    && i < |slots|
    && (slots[i] == Used(c)
        || (slots[i].Free? && c.size == 0 && forall j :: 0 <= j < |slots| ==> !Holds(slots[j], c.key)))
  }

  lemma PlaceOk(cfg: Config, slots: seq<Slot>, f: Fragment, at: real)
    requires ValidConfig(cfg) && ContextsOk(cfg, slots)
    ensures var p := PlaceOf(slots, f, at);
            p.Place? ==> IsPlace(slots, p.slot, p.ctx) && ContextOk(cfg, p.ctx) && p.ctx.key == f.key
  {
    OpenedOk(cfg, f, at);
  }

  lemma SettledValid(cfg: Config, st: State, i: nat, c: Context, f: Fragment)
    requires ValidConfig(cfg) && Valid(cfg, st) && IsPlace(st.slots, i, c) && ContextOk(cfg, c)
    ensures Valid(cfg, Settled(st, i, c, Absorb(cfg, c, st.buffered, f)).state)
  {
    SlotWithinTotal(st.slots, i);
    AbsorbOk(cfg, c, st.buffered, f);
    var v := Absorb(cfg, c, st.buffered, f);
    TotalUpdate(st.slots, i, if v.Keep? then Used(v.ctx) else Free);
    assert st.slots[i].Used? ==> Holds(st.slots[i], c.key);
  }

  /**
   * Whatever frame arrives and whenever: the byte total stays the sum of the contexts, each
   * context the bytes and TLVs it stores, every budget holds, keys stay distinct, a poisoned
   * context stores nothing, a last fragment has nothing beyond it and no stored context is complete.
   */
  lemma StepValid(cfg: Config, st: State, e: Event)
    requires ValidConfig(cfg) && Valid(cfg, st)
    ensures Shaped(st) && Valid(cfg, Step(cfg, st, e).state)
  {
    ExpireValid(cfg, st, e.now);
    var live := Expire(cfg, st, e.now);
    var d := Decode(e.frame, e.ingress);
    if d.Accepted? {
      PlaceOk(cfg, live.slots, d.fragment, e.later);
      var p := PlaceOf(live.slots, d.fragment, e.later);
      if p.Place? {
        SettledValid(cfg, live, p.slot, p.ctx, d.fragment);
      }
    }
  }

  /** em_reassembler_new: no context and no byte. */
  function Initial(cfg: Config): (st: State)
    requires ValidConfig(cfg)
    ensures Valid(cfg, st) && forall i :: 0 <= i < |st.slots| ==> st.slots[i].Free?
  {
    var slots := seq(cfg.maxContexts, _ => Free);
    AllFree(slots);
    State(slots, 0)
  }

  lemma {:induction false} AllFree(slots: seq<Slot>)
    requires forall i :: 0 <= i < |slots| ==> slots[i].Free?
    ensures TotalSize(slots) == 0
    decreases |slots|
  {
    if slots != [] {
      AllFree(slots[..|slots| - 1]);
    }
  }
}
