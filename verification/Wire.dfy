/** What the reassembler makes of a frame's octets, told without its decoder (c/src/cmdu.c, from line 290). */
module Wire {
  import opened Bytes
  import opened Tlvs
  import opened Fragmenter
  import opened Reassembly
  import opened Accounting
  import opened Runs
  import opened Soundness

  // ----- one frame

  /** A length the standard allows, and the EtherType of IEEE 1905.1. */
  predicate Enveloped(frame: seq<byte>) {
    22 <= |frame| <= 1514 && frame[12] == 0x89 && frame[13] == 0x3A
  }

  function NameOf(e: Event): string {
    if e.ingress.Some? then e.ingress.value else "offline"
  }

  /** Version 0, on an interface whose name a context can keep. */
  predicate Heard(e: Event) {
    Enveloped(e.frame) && e.frame[14] == 0 && |NameOf(e)| < 32
  }

  /** The key, octet by octet: addresses, message type and MID, on this interface. */
  predicate Names(e: Event, k: Key) {
    && Heard(e) && k.ingress == NameOf(e) && k.destination == e.frame[..6] && k.source == e.frame[6..12]
    && k.messageType / 256 == e.frame[16] && k.messageType % 256 == e.frame[17]
    && k.mid / 256 == e.frame[18] && k.mid % 256 == e.frame[19]
  }

  predicate LastBit(e: Event) {
    |e.frame| >= 22 && e.frame[21] >= 0x80
  }

  predicate RelayBit(e: Event) {
    |e.frame| >= 22 && e.frame[21] % 0x80 >= 0x40
  }

  /** The fields of a fragment; the low six flag bits and octet 15 are not looked at. */
  predicate Says(e: Event, f: Fragment) {
    && Names(e, f.key) && f.fid == e.frame[20] && f.last == LastBit(e) && f.relay == RelayBit(e)
    && f.payload == e.frame[22..]
  }

  lemma WordOctets(hi: byte, lo: byte)
    ensures FromU16(hi, lo) / 256 == hi && FromU16(hi, lo) % 256 == lo
  {
  }

  lemma Flags(b: byte)
    ensures b / 128 % 2 == 1 <==> b >= 0x80
    ensures b / 64 % 2 == 1 <==> b % 0x80 >= 0x40
  {
  }

  /** A frame is taken exactly when it is heard, and then for the fragment its octets say. */
  lemma {:induction false} DecodedExactly(e: Event)
    ensures var d := Decode(e.frame, e.ingress);
            && (d.Accepted? <==> Heard(e))
            && (d.Accepted? ==> Says(e, d.fragment))
            && (d == Refused(UnsupportedOperation) <==> Enveloped(e.frame) && e.frame[14] != 0)
            && (d.Refused? ==> d.reason in {InvalidInput, UnsupportedOperation})
  {
    if |e.frame| >= 22 {
      WordOctets(e.frame[12], e.frame[13]);
      WordOctets(e.frame[16], e.frame[17]);
      WordOctets(e.frame[18], e.frame[19]);
      Flags(e.frame[21]);
    }
  }

  function EnvelopeOf(f: Fragment): Envelope {
    Envelope(f.key.destination, f.key.source, f.key.messageType, f.key.mid, f.relay)
  }

  /** The frame with the octet and the bits a receiver ignores cleared. */
  function Cleared(frame: seq<byte>): seq<byte>
    requires |frame| >= 22
  {
    frame[15 := 0][21 := frame[21] / 64 * 64]
  }

  lemma FlagOctet(b: byte)
    ensures b / 64 * 64 == (if b >= 0x80 then 0x80 else 0) + (if b % 0x80 >= 0x40 then 0x40 else 0)
  {
  }

  /** Apart from what is ignored, the frame is the encoding of a fragment of the key. */
  predicate Encodes(e: Event, k: Key) {
    |e.frame| >= 22
    && OnWire(Cleared(e.frame), Envelope(k.destination, k.source, k.messageType, k.mid, RelayBit(e)),
              e.frame[20], LastBit(e), e.frame[22..])
  }

  lemma {:induction false} NamedIsEncoded(e: Event, k: Key)
    requires Names(e, k)
    ensures Encodes(e, k)
  {
    var r := Cleared(e.frame);
    FlagOctet(e.frame[21]);
    assert r[..6] == e.frame[..6] && r[6..12] == e.frame[6..12] && r[22..] == e.frame[22..];
  }

  /** The converse of decoding what was encoded: but for what is ignored, a frame taken is its fragment's encoding. */
  lemma {:induction false} TakenIsEncoded(e: Event)
    requires Decode(e.frame, e.ingress).Accepted?
    ensures Heard(e) && Says(e, FragmentOf(e))
    ensures var f := FragmentOf(e); Cleared(e.frame) == Frame(EnvelopeOf(f), f.fid, f.last, f.payload)
  {
    var f := FragmentOf(e);
    DecodedExactly(e);
    NamedIsEncoded(e, f.key);
    FrameIffOctets(Cleared(e.frame), EnvelopeOf(f), f.fid, f.last, f.payload);
  }

  lemma {:induction false} OneKey(e: Event, k: Key, l: Key)
    requires Names(e, k) && Names(e, l)
    ensures k == l
  {
    assert k.messageType == k.messageType / 256 * 256 + k.messageType % 256;
    assert l.messageType == l.messageType / 256 * 256 + l.messageType % 256;
    assert k.mid == k.mid / 256 * 256 + k.mid % 256 && l.mid == l.mid / 256 * 256 + l.mid % 256;
  }

  /** The events of a key are those whose octets name it. */
  lemma {:induction false} AboutIffNames(e: Event, k: Key)
    ensures About(e, k) <==> Names(e, k)
  {
    DecodedExactly(e);
    if Names(e, k) {
      OneKey(e, k, FragmentOf(e).key);
    }
  }

  // ----- one step

  /** A frame that is not heard does nothing; one that is changes no context but that of the key it names. */
  lemma {:induction false} OnlyNamedActs(cfg: Config, st: State, e: Event, k: Key)
    requires ValidConfig(cfg) && Valid(cfg, st)
    ensures Shaped(st)
    ensures var out, live := Step(cfg, st, e), Expire(cfg, st, e.now);
            && (!Heard(e) ==> out.state == live && out.message.None?)
            && (View(out.state, k) != View(live, k) ==> Names(e, k) && Encodes(e, k))
  {
    ValidIsShaped(cfg, st);
    DecodedExactly(e);
    AboutIffNames(e, k);
    if !About(e, k) {
      StepOther(cfg, st, e, k);
    } else {
      NamedIsEncoded(e, k);
    }
  }

  /** On every run, only such events open or change a context, its expiry apart. */
  lemma {:induction false} RunsActOnOctets(cfg: Config, evs: seq<Event>, n: nat, k: Key)
    requires ValidConfig(cfg) && n < |evs|
    requires View(Run(cfg, evs[..n + 1]), k) != View(Expire(cfg, Run(cfg, evs[..n]), evs[n].now), k)
    ensures Names(evs[n], k) && Encodes(evs[n], k)
  {
    assert evs[..n + 1][..n] == evs[..n];
    OnlyNamedActs(cfg, Run(cfg, evs[..n]), evs[n], k);
  }

  /** A message delivered has the addresses, type, MID and relay flag of the frame that completed it. */
  lemma {:induction false} DeliveredUnderItsKey(cfg: Config, st: State, e: Event)
    requires ValidConfig(cfg) && Valid(cfg, st) && Shaped(st) && Step(cfg, st, e).message.Some?
    ensures var m := Step(cfg, st, e).message.value;
            && Names(e, Key(NameOf(e), m.source, m.destination, m.messageType, m.mid))
            && m.relay == RelayBit(e)
  {
    DecodedExactly(e);
    var f := FragmentOf(e);
    StepOwn(cfg, st, e, f.key);
    var live := Expire(cfg, st, e.now);
    var v := View(live, f.key);
    var c := if v.Some? then v.value else Opened(f, e.later);
    AbsorbDelivers(cfg, c, live.buffered, f);
  }

  // ----- why a frame is refused

  /** Every slot holds a live context of another key. */
  ghost predicate Crowded(cfg: Config, st: State, e: Event) {
    forall i :: 0 <= i < |st.slots| ==>
      && st.slots[i].Used? && e.now - st.slots[i].ctx.started < cfg.timeout
      && !Names(e, st.slots[i].ctx.key)
  }

  lemma {:induction false} CrowdedIffNoPlace(cfg: Config, st: State, e: Event, k: Key)
    requires ValidConfig(cfg) && Valid(cfg, st) && Names(e, k)
    ensures var live := Expire(cfg, st, e.now);
            Crowded(cfg, st, e) <==> View(live, k).None? && Spare(live.slots).None?
  {
    var live := Expire(cfg, st, e.now);
    if Crowded(cfg, st, e) {
      assert forall i :: 0 <= i < |live.slots| ==> live.slots[i] == st.slots[i];
    }
    if View(live, k).None? && Spare(live.slots).None? {
      forall i | 0 <= i < |st.slots|
        ensures st.slots[i].Used? && e.now - st.slots[i].ctx.started < cfg.timeout && !Names(e, st.slots[i].ctx.key)
      {
        assert live.slots[i] == ExpireSlot(cfg, st.slots[i], e.now);
        assert !Holds(live.slots[i], k);
        if Names(e, st.slots[i].ctx.key) {
          OneKey(e, k, st.slots[i].ctx.key);
        }
      }
    }
  }

  /** After the frame the key it names has a poisoned context. */
  ghost predicate Poisons(out: Outcome, e: Event, k: Key) {
    Names(e, k) && View(out.state, k).Some? && View(out.state, k).value.poisoned
  }

  lemma {:induction false} AbsorbReason(cfg: Config, c: Context, buffered: int, f: Fragment)
    requires |c.parts| == SLOTS
    ensures match Absorb(cfg, c, buffered, f)
            case Keep(d, r) => if d.poisoned then r == InvalidInput else r == Ok
            case Deliver(_) => !c.poisoned
  {
  }

  lemma {:induction false} NamedReason(cfg: Config, st: State, e: Event, k: Key)
    requires ValidConfig(cfg) && Valid(cfg, st) && Shaped(st) && Names(e, k)
    ensures var out := Step(cfg, st, e);
            out.reason == if Crowded(cfg, st, e) then Busy else if Poisons(out, e, k) then InvalidInput else Ok
  {
    AboutIffNames(e, k);
    CrowdedIffNoPlace(cfg, st, e, k);
    StepOwn(cfg, st, e, k);
    var live, f := Expire(cfg, st, e.now), FragmentOf(e);
    var v := View(live, k);
    if !Crowded(cfg, st, e) {
      AbsorbReason(cfg, if v.Some? then v.value else Opened(f, e.later), live.buffered, f);
    }
  }

  /**
   * Each reason, exactly: unsupported for a nonzero version of an enveloped frame; busy for a frame
   * heard while live contexts of other keys take every slot; invalid for a frame not enveloped, an
   * interface name too long, or a fragment that leaves its key poisoned; and else it is taken.
   */
  lemma {:induction false} ReasonsExactly(cfg: Config, st: State, e: Event)
    requires ValidConfig(cfg) && Valid(cfg, st)
    ensures Shaped(st)
    ensures var out := Step(cfg, st, e);
            && (out.reason == UnsupportedOperation <==> Enveloped(e.frame) && e.frame[14] != 0)
            && (out.reason == Busy <==> Heard(e) && Crowded(cfg, st, e))
            && (out.reason == InvalidInput <==>
                  || !Enveloped(e.frame) || (e.frame[14] == 0 && |NameOf(e)| >= 32)
                  || (Heard(e) && !Crowded(cfg, st, e) && exists k :: Poisons(out, e, k)))
  {
    ValidIsShaped(cfg, st);
    DecodedExactly(e);
    if Heard(e) {
      var k := FragmentOf(e).key;
      NamedReason(cfg, st, e, k);
      forall l | Poisons(Step(cfg, st, e), e, l)
        ensures l == k
      {
        OneKey(e, k, l);
      }
    }
  }

  // ----- what poisons

  /** The payload's octets spell these TLVs, as many as a message may have. */
  ghost predicate Spelt(e: Event, ts: seq<Tlv>)
    requires |e.frame| >= 22
  {
    Spells(e.frame[22..], 0, LastBit(e), ts) && |ts| <= 256 && (LastBit(e) || ts != [])
  }

  /** A part that contradicts the context's end, or exceeds a limit. */
  ghost predicate Exceeds(cfg: Config, c: Context, buffered: int, fid: nat, last: bool, ts: seq<Tlv>) {
    || (c.last.Some? && (if last then fid != c.last.value else fid > c.last.value))
    || (last && exists i :: fid < i < |c.parts| && c.parts[i].Some?)
    || c.size + Size(ts) > cfg.maxMessageBytes || buffered + Size(ts) > cfg.maxBytes
    || |Join(c.parts)| + |ts| > 256
  }

  /** The TLVs do not go with what the context holds. */
  ghost predicate Clashes(cfg: Config, c: Context, buffered: int, fid: nat, last: bool, ts: seq<Tlv>) {
    fid < |c.parts|
    && if c.parts[fid].Some? then c.parts[fid].value != Part(last, ts) else Exceeds(cfg, c, buffered, fid, last, ts)
  }

  /** Why a context is poisoned by a frame, or was already. */
  ghost predicate Spoils(cfg: Config, c: Context, buffered: int, e: Event)
    requires |e.frame| >= 22
  {
    || c.poisoned || e.frame[20] >= cfg.maxFragments || RelayBit(e) != c.relay
    || !(exists ts :: Spelt(e, ts))
    || (exists ts :: Spelt(e, ts) && Clashes(cfg, c, buffered, e.frame[20], LastBit(e), ts))
  }

  lemma {:induction false} SpeltIsPayload(e: Event, ts: seq<Tlv>)
    requires |e.frame| >= 22
    ensures Spelt(e, ts) <==> Payload(e.frame[22..], LastBit(e)) == Some(ts)
  {
    ParseIffSpells(e.frame[22..], 0, LastBit(e), 0, ts);
  }

  lemma {:induction false} SpoilsByPayload(cfg: Config, c: Context, buffered: int, e: Event)
    requires |e.frame| >= 22
    ensures var p := Payload(e.frame[22..], LastBit(e));
            Spoils(cfg, c, buffered, e) <==>
              || c.poisoned || e.frame[20] >= cfg.maxFragments || RelayBit(e) != c.relay || p.None?
              || Clashes(cfg, c, buffered, e.frame[20], LastBit(e), p.value)
  {
    var p := Payload(e.frame[22..], LastBit(e));
    forall ts
      ensures Spelt(e, ts) <==> p == Some(ts)
    {
      SpeltIsPayload(e, ts);
    }
    if p.Some? {
      assert Spelt(e, p.value);
    }
  }

  lemma {:induction false} AbsorbSpoils(cfg: Config, c: Context, buffered: int, e: Event, f: Fragment)
    requires |c.parts| == SLOTS && Says(e, f)
    ensures var v := Absorb(cfg, c, buffered, f); v.Keep? && v.ctx.poisoned <==> Spoils(cfg, c, buffered, e)
  {
    SpoilsByPayload(cfg, c, buffered, e);
  }

  /**
   * A fragment leaves its key poisoned exactly when its context was, or its id is beyond the limit,
   * its relay flag another, its payload no list of TLVs, or its TLVs other than those kept under its
   * id, against the known end of the message, or too many for a budget.
   */
  lemma {:induction false} PoisonsExactly(cfg: Config, st: State, e: Event, k: Key)
    requires ValidConfig(cfg) && Valid(cfg, st) && Shaped(st) && Names(e, k) && !Crowded(cfg, st, e)
    ensures var live, v := Expire(cfg, st, e.now), View(Expire(cfg, st, e.now), k);
            var c := if v.Some? then v.value else Context(k, RelayBit(e), false, None, e.later, 0, NoParts());
            Poisons(Step(cfg, st, e), e, k) <==> Spoils(cfg, c, live.buffered, e)
  {
    AboutIffNames(e, k);
    DecodedExactly(e);
    CrowdedIffNoPlace(cfg, st, e, k);
    StepOwn(cfg, st, e, k);
    var live, f := Expire(cfg, st, e.now), FragmentOf(e);
    var v := View(live, k);
    AbsorbSpoils(cfg, if v.Some? then v.value else Opened(f, e.later), live.buffered, e, f);
  }

  // ----- what is delivered

  /** The event is fragment `i` of `n` under the key, octet by octet, with these TLVs. */
  ghost predicate FragmentOctets(e: Event, k: Key, relay: bool, i: nat, n: nat, ts: seq<Tlv>) {
    && Names(e, k) && Encodes(e, k)
    && e.frame[20] == i && RelayBit(e) == relay && (LastBit(e) <==> i == n - 1) && Spelt(e, ts)
  }

  ghost predicate PartAt(cfg: Config, evs: seq<Event>, k: Key, relay: bool, from: nat, picks: seq<nat>,
                         parts: seq<seq<Tlv>>, i: nat)
    requires from < |evs| && |picks| == |parts|
  {
    i < |picks| ==>
      && from <= picks[i] < |evs| && evs[picks[i]].now - evs[from].later < cfg.timeout
      && FragmentOctets(evs[picks[i]], k, relay, i, |picks|, parts[i])
  }

  /** The message is made of the TLVs that the octets of these events spell, in fragment order. */
  ghost predicate MadeOf(cfg: Config, evs: seq<Event>, k: Key, m: Message, from: nat, picks: seq<nat>,
                         parts: seq<seq<Tlv>>) {
    && from < |evs| && Names(evs[from], k)
    && m.destination == k.destination && m.source == k.source && m.messageType == k.messageType && m.mid == k.mid
    && 0 < |picks| == |parts| == m.fragments && m.tlvs == Flatten(parts)
    && forall i: nat :: PartAt(cfg, evs, k, m.relay, from, picks, parts, i)
  }

  function Parts(evs: seq<Event>, picks: seq<nat>): (r: seq<seq<Tlv>>)
    requires Within(evs, picks)
    ensures |r| == |picks| && forall i :: 0 <= i < |picks| ==> r[i] == TlvsOf(evs[picks[i]])
  {
    seq(|picks|, i requires 0 <= i < |picks| => TlvsOf(evs[picks[i]]))
  }

  lemma {:induction false} GatherFlatten(evs: seq<Event>, picks: seq<nat>)
    requires Within(evs, picks)
    ensures Gather(evs, picks) == Flatten(Parts(evs, picks))
    decreases |picks|
  {
    if picks != [] {
      var n := |picks| - 1;
      GatherFlatten(evs, picks[..n]);
      assert Parts(evs, picks) == Parts(evs, picks[..n]) + [TlvsOf(evs[picks[n]])];
      FlattenPush(Parts(evs, picks[..n]), TlvsOf(evs[picks[n]]));
    }
  }

  lemma {:induction false} PickOctets(cfg: Config, evs: seq<Event>, k: Key, relay: bool, from: nat, n: nat, i: nat,
                                      j: nat)
    requires from < |evs| && Picks(cfg, evs, k, relay, from, n, i, j)
    ensures FragmentOctets(evs[j], k, relay, i, n, TlvsOf(evs[j]))
  {
    AboutIffNames(evs[j], k);
    NamedIsEncoded(evs[j], k);
    DecodedExactly(evs[j]);
    SpeltIsPayload(evs[j], TlvsOf(evs[j]));
  }

  lemma {:induction false} JustifiedOctets(cfg: Config, evs: seq<Event>, k: Key, m: Message, from: nat, picks: seq<nat>)
    requires ValidConfig(cfg) && evs != [] && Justifies(cfg, evs, k, m, from, picks)
    ensures MadeOf(cfg, evs, k, m, from, picks, Parts(evs, picks))
  {
    AboutIffNames(evs[from], k);
    GatherFlatten(evs, picks);
    forall i: nat
      ensures PartAt(cfg, evs, k, m.relay, from, picks, Parts(evs, picks), i)
    {
      if i < |picks| {
        assert Picks(cfg, evs, k, m.relay, from, |picks|, i, picks[i]);
        PickOctets(cfg, evs, k, m.relay, from, |picks|, i, picks[i]);
      }
    }
  }

  /**
   * Soundness down to the octets: on every run of any frames, a delivered message is the
   * concatenation of TLV lists spelt by the payload octets of frames received since its context
   * was opened, in time, one for each fragment id in order, all with the EtherType, version 0 and
   * the message's addresses, type, MID and relay bit, and only the last with the last bit.
   */
  lemma {:induction false} DeliveredFromOctets(cfg: Config, evs: seq<Event>)
    returns (k: Key, from: nat, picks: seq<nat>, parts: seq<seq<Tlv>>)
    requires ValidConfig(cfg) && Timed(evs) && evs != [] && Results(cfg, evs)[|evs| - 1].message.Some?
    ensures var m := Results(cfg, evs)[|evs| - 1].message.value;
            MadeOf(cfg, evs, k, m, from, picks, parts) && Justifies(cfg, evs, k, m, from, picks)
  {
    var n := |evs| - 1;
    var m := Results(cfg, evs)[n].message.value;
    DeliveredIsAbout(cfg, evs);
    k := FragmentOf(evs[n]).key;
    DeliveriesAreSound(cfg, evs, k);
    from, picks :| Justifies(cfg, evs, k, m, from, picks);
    JustifiedOctets(cfg, evs, k, m, from, picks);
    parts := Parts(evs, picks);
  }

  lemma {:induction false} DeliveredIsAbout(cfg: Config, evs: seq<Event>)
    requires ValidConfig(cfg) && evs != [] && Results(cfg, evs)[|evs| - 1].message.Some?
    ensures Decode(evs[|evs| - 1].frame, evs[|evs| - 1].ingress).Accepted?
  {
    var n := |evs| - 1;
    OnlyNamedActs(cfg, Run(cfg, evs[..n]), evs[n], Key("", [0, 0, 0, 0, 0, 0], [0, 0, 0, 0, 0, 0], 0, 0));
    DecodedExactly(evs[n]);
  }
}
