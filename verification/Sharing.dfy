/** How many conversations a reassembler can serve at once without one hindering another. */
module Sharing {
  import opened Bytes
  import opened Tlvs
  import opened Fragmenter
  import opened Reassembly
  import opened Accounting
  import opened Runs
  import opened RoundTrip

  /** Only these keys have contexts. */
  predicate Among(slots: seq<Slot>, keys: set<Key>) {
    forall i :: 0 <= i < |slots| && slots[i].Used? ==> slots[i].ctx.key in keys
  }

  predicate EventAmong(e: Event, keys: set<Key>) {
    Decode(e.frame, e.ingress).Accepted? ==> FragmentOf(e).key in keys
  }

  lemma AmongStep(cfg: Config, st: State, e: Event, keys: set<Key>)
    requires ValidConfig(cfg) && Valid(cfg, st) && Among(st.slots, keys) && EventAmong(e, keys)
    ensures Shaped(st) && Among(Step(cfg, st, e).state.slots, keys)
  {
    StepValid(cfg, st, e);
    var next := Step(cfg, st, e).state;
    forall i | 0 <= i < |next.slots| && next.slots[i].Used?
      ensures next.slots[i].ctx.key in keys
    {
      var k := next.slots[i].ctx.key;
      if !About(e, k) {
        assert Holds(next.slots[i], k);
        FindUnique(next.slots, i, k);
        StepOther(cfg, st, e, k);
        ExpireView(cfg, st, e.now, k);
      }
    }
  }

  lemma {:induction false} AmongRun(cfg: Config, st: State, evs: seq<Event>, keys: set<Key>)
    requires ValidConfig(cfg) && Valid(cfg, st) && Among(st.slots, keys)
    requires forall i :: 0 <= i < |evs| ==> EventAmong(evs[i], keys)
    ensures Among(RunFrom(cfg, st, evs).slots, keys)
    decreases |evs|
  {
    if evs != [] {
      var n := |evs| - 1;
      AmongRun(cfg, st, evs[..n], keys);
      AmongStep(cfg, RunFrom(cfg, st, evs[..n]), evs[n], keys);
    }
  }

  // ----- what the other keys can take

  function OtherKeys(slots: seq<Slot>, k: Key): set<Key> {
    if slots == [] then {}
    else
      var n := |slots| - 1;
      OtherKeys(slots[..n], k) + (if slots[n].Used? && slots[n].ctx.key != k then {slots[n].ctx.key} else {})
  }

  function OtherBytes(slots: seq<Slot>, k: Key): nat {
    if slots == [] then 0
    else
      var n := |slots| - 1;
      OtherBytes(slots[..n], k) + (if slots[n].Used? && slots[n].ctx.key != k then slots[n].ctx.size else 0)
  }

  function OwnBytes(slots: seq<Slot>, k: Key): nat {
    var at := Find(slots, k);
    if at.Some? then slots[at.value].ctx.size else 0
  }

  lemma {:induction false} BytesSplit(slots: seq<Slot>, k: Key)
    requires UniqueKeys(slots)
    ensures TotalSize(slots) == OtherBytes(slots, k) + OwnBytes(slots, k)
    decreases |slots|
  {
    if slots != [] {
      var n := |slots| - 1;
      BytesSplit(slots[..n], k);
      if Holds(slots[n], k) {
        assert Find(slots[..n], k).None?;
      }
    }
  }

  lemma {:induction false} OtherKeyHeld(slots: seq<Slot>, k: Key, x: Key) returns (i: nat)
    requires x in OtherKeys(slots, k)
    ensures i < |slots| && Holds(slots[i], x) && x != k
    decreases |slots|
  {
    var n := |slots| - 1;
    if x in OtherKeys(slots[..n], k) {
      i := OtherKeyHeld(slots[..n], k, x);
    } else {
      i := n;
    }
  }

  lemma {:induction false} OtherKeyNew(slots: seq<Slot>, k: Key)
    requires slots != [] && UniqueKeys(slots) && slots[|slots| - 1].Used?
    ensures slots[|slots| - 1].ctx.key !in OtherKeys(slots[..|slots| - 1], k)
  {
    var x := slots[|slots| - 1].ctx.key;
    if x in OtherKeys(slots[..|slots| - 1], k) {
      var i := OtherKeyHeld(slots[..|slots| - 1], k, x);
    }
  }

  lemma Times(n: nat, m: nat)
    ensures (n + 1) * m == n * m + m
  {
  }

  lemma {:induction false} OtherBytesBound(slots: seq<Slot>, k: Key, most: nat)
    requires UniqueKeys(slots) && forall i :: 0 <= i < |slots| && slots[i].Used? ==> slots[i].ctx.size <= most
    ensures OtherBytes(slots, k) <= |OtherKeys(slots, k)| * most
    decreases |slots|
  {
    if slots != [] {
      var n := |slots| - 1;
      OtherBytesBound(slots[..n], k, most);
      if slots[n].Used? && slots[n].ctx.key != k {
        OtherKeyNew(slots, k);
        Times(|OtherKeys(slots[..n], k)|, most);
      }
    }
  }

  lemma {:induction false} OtherKeysFill(slots: seq<Slot>, k: Key)
    requires UniqueKeys(slots) && forall i :: 0 <= i < |slots| ==> slots[i].Used? && !Holds(slots[i], k)
    ensures |OtherKeys(slots, k)| == |slots|
    decreases |slots|
  {
    if slots != [] {
      OtherKeysFill(slots[..|slots| - 1], k);
      OtherKeyNew(slots, k);
    }
  }

  lemma {:induction false} OtherKeysAmong(slots: seq<Slot>, k: Key, keys: set<Key>)
    requires Among(slots, keys)
    ensures OtherKeys(slots, k) <= keys - {k}
  {
    forall x | x in OtherKeys(slots, k)
      ensures x in keys - {k}
    {
      var i := OtherKeyHeld(slots, k, x);
    }
  }

  lemma TimesMonotone(a: nat, b: nat, m: nat)
    requires a <= b
    ensures a * m <= b * m
  {
  }

  /** The receiver is sized for these conversations: a context and a whole message for each. */
  predicate Sized(cfg: Config, others: nat) {
    others < cfg.maxContexts && (others + 1) * cfg.maxMessageBytes <= cfg.maxBytes
  }

  lemma {:induction false} OthersLeaveRoom(cfg: Config, st: State, k: Key, keys: set<Key>)
    requires ValidConfig(cfg) && Valid(cfg, st) && Among(st.slots, keys) && Sized(cfg, |keys - {k}|)
    ensures Find(st.slots, k).Some? || Spare(st.slots).Some?
    ensures st.buffered - OwnBytes(st.slots, k) + cfg.maxMessageBytes <= cfg.maxBytes
  {
    var others, n := OtherKeys(st.slots, k), |keys - {k}|;
    OtherKeysAmong(st.slots, k, keys);
    SubsetSize(others, keys - {k});
    if Find(st.slots, k).None? && Spare(st.slots).None? {
      OtherKeysFill(st.slots, k);
    }
    BytesSplit(st.slots, k);
    OtherBytesBound(st.slots, k, cfg.maxMessageBytes);
    TimesMonotone(|others|, n, cfg.maxMessageBytes);
    Times(n, cfg.maxMessageBytes);
  }

  lemma {:induction false} SharedRoom(cfg: Config, st: State, e: Event, p: Plan, keys: set<Key>)
    requires ValidConfig(cfg) && Valid(cfg, st) && PlanOk(cfg, p) && Among(st.slots, keys)
    requires Sized(cfg, |keys - {p.key}|)
    ensures HasRoom(cfg, st, e, p)
  {
    var live := Expire(cfg, st, e.now);
    ExpireValid(cfg, st, e.now);
    assert Among(live.slots, keys);
    OthersLeaveRoom(cfg, live, p.key, keys);
  }

  lemma {:induction false} SharedRoomy(cfg: Config, st: State, evs: seq<Event>, p: Plan, keys: set<Key>)
    requires ValidConfig(cfg) && Valid(cfg, st) && PlanOk(cfg, p) && Among(st.slots, keys)
    requires forall i :: 0 <= i < |evs| ==> EventAmong(evs[i], keys)
    requires Sized(cfg, |keys - {p.key}|)
    ensures Roomy(cfg, st, evs, p)
  {
    forall n | 0 <= n < |evs|
      ensures RoomAt(cfg, st, evs, p, n)
    {
      AmongRun(cfg, st, evs[..n], keys);
      SharedRoom(cfg, RunFrom(cfg, st, evs[..n]), evs[n], p, keys);
    }
  }

  /** Only these keys are in use: those of the contexts there are and of all the frames. */
  ghost predicate InUse(st: State, evs: seq<Event>, keys: set<Key>) {
    Among(st.slots, keys) && forall i :: 0 <= i < |evs| ==> EventAmong(evs[i], keys)
  }

  lemma {:induction false} SharedCarried(cfg: Config, st: State, evs: seq<Event>, e: Envelope, tlvs: seq<Tlv>, mtu: nat,
                                         chunks: seq<seq<Tlv>>, ingress: Option<string>, keys: set<Key>)
    requires ValidConfig(cfg) && Valid(cfg, st)
    requires Carried(cfg, e, tlvs, mtu, chunks, ingress) && Interleaved(e, chunks, ingress, evs)
    requires InUse(st, evs, keys) && Sized(cfg, |keys - {KeyOf(e, ingress)}|)
    ensures Roomy(cfg, st, evs, PlanOf(e, chunks, ingress))
  {
    CarriedPlan(cfg, evs, e, tlvs, mtu, chunks, ingress);
    SharedRoomy(cfg, st, evs, PlanOf(e, chunks, ingress), keys);
  }

  /**
   * The round trip on a receiver sized for the conversations it has: with a context and a whole
   * message's bytes for each key in use, no interleaving of the others' frames, well-formed or
   * not, keeps a message from being delivered whole and in order by each event that brings the
   * last frame missing of those held, and by no other.
   */
  lemma {:induction false} SharedRoundTrips(cfg: Config, st: State, evs: seq<Event>, e: Envelope, tlvs: seq<Tlv>,
                                            mtu: nat, chunks: seq<seq<Tlv>>, ingress: Option<string>,
                                            keys: set<Key>, n: nat)
    requires ValidConfig(cfg) && Valid(cfg, st) && n < |evs| && View(st, KeyOf(e, ingress)).None?
    requires Carried(cfg, e, tlvs, mtu, chunks, ingress) && Interleaved(e, chunks, ingress, evs)
    requires InUse(st, evs, keys) && Sized(cfg, |keys - {KeyOf(e, ingress)}|)
    ensures About(evs[n], KeyOf(e, ingress)) ==>
              Trace(cfg, st, evs)[n].message ==
              if MakesWhole(cfg, PlanOf(e, chunks, ingress), evs, n) then Some(SentMessage(e, tlvs, |chunks|)) else None
  {
    SharedCarried(cfg, st, evs, e, tlvs, mtu, chunks, ingress, keys);
    RoundTrips(cfg, st, evs, e, tlvs, mtu, chunks, ingress, n);
  }

  /** A one-frame message is never held, so a duplicate of it is delivered again, whenever it comes. */
  lemma {:induction false} SingleFrameRedelivered(cfg: Config, st: State, evs: seq<Event>, e: Envelope, tlvs: seq<Tlv>,
                                                  mtu: nat, chunks: seq<seq<Tlv>>, ingress: Option<string>,
                                                  keys: set<Key>, n: nat)
    requires ValidConfig(cfg) && Valid(cfg, st) && n < |evs| && View(st, KeyOf(e, ingress)).None?
    requires Carried(cfg, e, tlvs, mtu, chunks, ingress) && Interleaved(e, chunks, ingress, evs) && |chunks| == 1
    requires InUse(st, evs, keys) && Sized(cfg, |keys - {KeyOf(e, ingress)}|)
    ensures About(evs[n], KeyOf(e, ingress)) ==> Trace(cfg, st, evs)[n].message == Some(SentMessage(e, tlvs, 1))
  {
    var p := PlanOf(e, chunks, ingress);
    CarriedPlan(cfg, evs, e, tlvs, mtu, chunks, ingress);
    SharedRoundTrips(cfg, st, evs, e, tlvs, mtu, chunks, ingress, keys, n);
    if About(evs[n], p.key) {
      SingleCompletes(cfg, p, evs, n);
    }
  }

  /** The input at which one message is delivered twice: its one frame, fed twice to a new reassembler. */
  lemma {:induction false} FedTwiceDeliveredTwice(cfg: Config, e: Envelope, ingress: Option<string>, a: real, b: real)
    requires ValidConfig(cfg) && |Ingress(ingress)| < INGRESS_SIZE
    ensures var f := Event(Frame(e, 0, true, END), ingress, a, a);
            var g := Event(Frame(e, 0, true, END), ingress, b, b);
            var trace := Trace(cfg, Initial(cfg), [f, g]);
            trace[0].message == trace[1].message == Some(SentMessage(e, [], 1))
  {
    var frame := Frame(e, 0, true, END);
    var evs := [Event(frame, ingress, a, a), Event(frame, ingress, b, b)];
    EmptyDelivered(cfg, e, ingress, evs, 0);
    EmptyDelivered(cfg, e, ingress, evs, 1);
  }

  /** A message with no TLVs is delivered by each of its frames. */
  lemma {:induction false} EmptyDelivered(cfg: Config, e: Envelope, ingress: Option<string>, evs: seq<Event>, n: nat)
    requires ValidConfig(cfg) && |Ingress(ingress)| < INGRESS_SIZE && n < |evs|
    requires forall i :: 0 <= i < |evs| ==> evs[i].frame == Frame(e, 0, true, END) && evs[i].ingress == ingress
    ensures Trace(cfg, Initial(cfg), evs)[n].message == Some(SentMessage(e, [], 1))
  {
    var k := KeyOf(e, ingress);
    EmptyCarried(cfg, e, ingress);
    FrameDecodes(e, 0, true, END, ingress);
    assert Frames(e, [[]])[0] == Frame(e, 0, true, END);
    assert {k} - {k} == {};
    SingleFrameRedelivered(cfg, Initial(cfg), evs, e, [], MAX_CMDU, [[]], ingress, {k}, n);
  }

  lemma EmptyCarried(cfg: Config, e: Envelope, ingress: Option<string>)
    requires ValidConfig(cfg) && |Ingress(ingress)| < INGRESS_SIZE
    ensures Carried(cfg, e, [], MAX_CMDU, [[]], ingress) && FrameOf(e, [[]], 0) == Frame(e, 0, true, END)
  {
    NoEmptyFragment([], MAX_CMDU - HEADER_SIZE);
    assert Encode([]) + END == END;
  }
}
