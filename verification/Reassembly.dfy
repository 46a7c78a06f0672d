/** Bounded reassembly as a state machine over received frames (c/src/cmdu.c, from line 112). */
module Reassembly {
  import opened Bytes
  import opened Tlvs
  import opened Fragmenter

  const SLOTS := 256
  const INGRESS_SIZE := 32

  /** em_reassembler_new's arguments; the clock is given to each event instead. */
  datatype Config = Config(timeout: real, maxContexts: nat, maxBytes: nat, maxMessageBytes: nat, maxFragments: nat)

  predicate ValidConfig(cfg: Config) {
    && 0.0 < cfg.timeout <= 60.0 && 1 <= cfg.maxContexts <= 1024 && 1 <= cfg.maxFragments <= 256
    && 1 <= cfg.maxMessageBytes <= cfg.maxBytes <= 16777216
  }

  /** What contexts are told apart by. */
  datatype Key = Key(ingress: string, source: Mac, destination: Mac, messageType: word, mid: word)

  datatype Part = Part(last: bool, tlvs: seq<Tlv>)

  /** A message under reassembly; `last` is the id of its last fragment once seen. */
  datatype Context = Context(key: Key, relay: bool, poisoned: bool, last: Option<nat>,
                             started: real, size: nat, parts: seq<Option<Part>>)

  datatype Slot = Free | Used(ctx: Context)

  datatype State = State(slots: seq<Slot>, buffered: int)

  datatype Message = Message(destination: Mac, source: Mac, messageType: word, mid: word,
                             relay: bool, tlvs: seq<Tlv>, fragments: nat)

  /** A frame as it arrives, with the two clock readings of its handling: expiry, then opening. */
  datatype Event = Event(frame: seq<byte>, ingress: Option<string>, now: real, later: real)

  datatype Outcome = Outcome(state: State, reason: Reason, message: Option<Message>)

  // ----- one frame's header

  datatype Fragment = Fragment(key: Key, relay: bool, fid: byte, last: bool, payload: seq<byte>)

  datatype Decoded = Refused(reason: Reason) | Accepted(fragment: Fragment)

  function Ingress(ingress: Option<string>): string {
    if ingress.Some? then ingress.value else "offline"
  }

  function Decode(frame: seq<byte>, ingress: Option<string>): Decoded {
    if |frame| < 22 || |frame| > 14 + MAX_CMDU then Refused(InvalidInput)
    else if FromU16(frame[12], frame[13]) != ETHERTYPE then Refused(InvalidInput)
    else if frame[14] != 0 then Refused(UnsupportedOperation)
    else if |Ingress(ingress)| >= INGRESS_SIZE then Refused(InvalidInput)
    else
      var key := Key(Ingress(ingress), frame[6..12], frame[..6],
                     FromU16(frame[16], frame[17]), FromU16(frame[18], frame[19]));
      Accepted(Fragment(key, frame[21] / 64 % 2 == 1, frame[20], frame[21] / 128 % 2 == 1, frame[22..]))
  }

  // ----- one context

  /** The TLVs of the stored parts, in fragment order. */
  function Join(parts: seq<Option<Part>>): seq<Tlv> {
    if parts == [] then []
    else
      var p := parts[|parts| - 1];
      Join(parts[..|parts| - 1]) + (if p.Some? then p.value.tlvs else [])
  }

  function NoParts(): (r: seq<Option<Part>>)
    ensures |r| == SLOTS
  {
    seq(SLOTS, _ => None)
  }

  function Opened(f: Fragment, at: real): Context {
    Context(f.key, f.relay, false, None, at, 0, NoParts())
  }

  function Poisoned(c: Context): Context {
    c.(poisoned := true, size := 0, parts := NoParts())
  }

  predicate HasPartBeyond(c: Context, fid: nat) {
    exists i :: fid < i < |c.parts| && c.parts[i].Some?
  }

  /** Why a new, well-formed part is refused: its place, the budgets or the TLV limit. */
  predicate Overflows(cfg: Config, c: Context, buffered: int, f: Fragment, tlvs: seq<Tlv>) {
    || (c.last.Some? && (f.fid > c.last.value || (f.last && f.fid != c.last.value)))
    || (f.last && HasPartBeyond(c, f.fid))
    || c.size + Size(tlvs) > cfg.maxMessageBytes
    || buffered + Size(tlvs) > cfg.maxBytes
    || |Join(c.parts)| + |tlvs| > MAX_TLVS
  }

  function Stored(c: Context, f: Fragment, tlvs: seq<Tlv>): Context
    requires f.fid < |c.parts|
  {
    c.(parts := c.parts[f.fid as int := Some(Part(f.last, tlvs))], size := c.size + Size(tlvs),
       last := if f.last then Some(f.fid) else c.last)
  }

  predicate Complete(c: Context) {
    c.last.Some? && c.last.value < |c.parts| && forall i :: 0 <= i <= c.last.value ==> c.parts[i].Some?
  }

  function Assembled(c: Context): Message
    requires Complete(c)
  {
    Message(c.key.destination, c.key.source, c.key.messageType, c.key.mid, c.relay,
            Join(c.parts[..c.last.value + 1]), c.last.value + 1)
  }

  /** What a fragment does to its context: it stays, perhaps changed, or ends in a message. */
  datatype Verdict = Keep(ctx: Context, reason: Reason) | Deliver(message: Message)

  function Absorb(cfg: Config, c: Context, buffered: int, f: Fragment): Verdict
    requires |c.parts| == SLOTS
  {
    if c.poisoned then Keep(c, InvalidInput)
    else if f.fid >= cfg.maxFragments || f.relay != c.relay then Keep(Poisoned(c), InvalidInput)
    else
      var tlvs := Payload(f.payload, f.last);
      if tlvs.None? then Keep(Poisoned(c), InvalidInput)
      else if c.parts[f.fid].Some? then
        if c.parts[f.fid].value == Part(f.last, tlvs.value) then Keep(c, Ok) else Keep(Poisoned(c), InvalidInput)
      else if Overflows(cfg, c, buffered, f, tlvs.value) then Keep(Poisoned(c), InvalidInput)
      else Settle(Stored(c, f, tlvs.value))
  }

  function Settle(c: Context): Verdict {
    if Complete(c) then Deliver(Assembled(c)) else Keep(c, Ok)
  }

  // ----- the table

  function SlotSize(s: Slot): nat {
    if s.Used? then s.ctx.size else 0
  }

  function TotalSize(slots: seq<Slot>): nat {
    if slots == [] then 0 else TotalSize(slots[..|slots| - 1]) + SlotSize(slots[|slots| - 1])
  }

  predicate Expired(cfg: Config, c: Context, now: real) {
    now - c.started >= cfg.timeout
  }

  function ExpireSlot(cfg: Config, s: Slot, now: real): Slot {
    if s.Used? && Expired(cfg, s.ctx, now) then Free else s
  }

  function ExpireSlots(cfg: Config, slots: seq<Slot>, now: real): (r: seq<Slot>)
    ensures |r| == |slots|
    ensures forall i :: 0 <= i < |slots| ==> r[i] == ExpireSlot(cfg, slots[i], now)
  {
    seq(|slots|, i requires 0 <= i < |slots| => ExpireSlot(cfg, slots[i], now))
  }

  /** expire: every context past its fixed deadline goes, and its bytes with it. */
  function Expire(cfg: Config, st: State, now: real): State {
    var slots := ExpireSlots(cfg, st.slots, now);
    State(slots, st.buffered - (TotalSize(st.slots) - TotalSize(slots)))
  }

  predicate Holds(s: Slot, k: Key) {
    s.Used? && s.ctx.key == k
  }

  /** The context of a key: the last one the table scan meets. */
  function Find(slots: seq<Slot>, k: Key): (r: Option<nat>)
    ensures r.Some? ==> r.value < |slots| && Holds(slots[r.value], k)
    ensures r.None? ==> forall i :: 0 <= i < |slots| ==> !Holds(slots[i], k)
  {
    if slots == [] then None
    else
      var n := |slots| - 1;
      if Holds(slots[n], k) then Some(n) else Find(slots[..n], k)
  }

  /** The first free slot. */
  function Spare(slots: seq<Slot>): (r: Option<nat>)
    ensures r.Some? ==> r.value < |slots| && slots[r.value].Free?
    ensures r.None? ==> forall i :: 0 <= i < |slots| ==> slots[i].Used?
  {
    if slots == [] then None
    else
      var n := |slots| - 1;
      var s := Spare(slots[..n]);
      if s.Some? then s else if slots[n].Free? then Some(n) else None
  }

  predicate Shaped(st: State) {
    forall i :: 0 <= i < |st.slots| && st.slots[i].Used? ==> |st.slots[i].ctx.parts| == SLOTS
  }

  /** The slot and context a fragment goes to: its key's, else a new one in the first free slot. */
  datatype Place = NoPlace | Place(slot: nat, ctx: Context)

  function PlaceOf(slots: seq<Slot>, f: Fragment, at: real): Place {
    var own := Find(slots, f.key);
    if own.Some? then Place(own.value, slots[own.value].ctx)
    else
      var spare := Spare(slots);
      if spare.Some? then Place(spare.value, Opened(f, at)) else NoPlace
  }

  /** The table once the verdict on context `c` is written to its slot. */
  function Settled(st: State, i: nat, c: Context, v: Verdict): Outcome
    requires i < |st.slots|
  {
    match v
    case Keep(d, reason) => Outcome(State(st.slots[i := Used(d)], st.buffered - c.size + d.size), reason, None)
    case Deliver(m) => Outcome(State(st.slots[i := Free], st.buffered - c.size), Ok, Some(m))
  }

  /** em_reassembler_feed. */
  function Step(cfg: Config, st: State, e: Event): Outcome
    requires Shaped(st)
  {
    var live := Expire(cfg, st, e.now);
    match Decode(e.frame, e.ingress)
    case Refused(reason) => Outcome(live, reason, None)
    case Accepted(f) =>
      match PlaceOf(live.slots, f, e.later)
      case NoPlace => Outcome(live, Busy, None)
      case Place(i, c) => Settled(live, i, c, Absorb(cfg, c, live.buffered, f))
  }

  // ----- the accounting invariant

  predicate PartsOk(cfg: Config, parts: seq<Option<Part>>, last: Option<nat>) {
    forall i :: 0 <= i < |parts| && parts[i].Some? ==>
      i < cfg.maxFragments && AllEncodable(parts[i].value.tlvs) && (parts[i].value.last <==> last == Some(i))
  }

  predicate ContextOk(cfg: Config, c: Context) {
    && |c.parts| == SLOTS
    && c.size == Size(Join(c.parts)) <= cfg.maxMessageBytes
    && |Join(c.parts)| <= MAX_TLVS
    && (if c.poisoned then c.parts == NoParts()
        else
          && PartsOk(cfg, c.parts, c.last)
          && (c.last.Some? ==> c.last.value < SLOTS && c.parts[c.last.value].Some? && !HasPartBeyond(c, c.last.value))
          && !Complete(c))
  }

  predicate UniqueKeys(slots: seq<Slot>) {
    forall i, j :: 0 <= i < j < |slots| && slots[i].Used? && slots[j].Used? ==> slots[i].ctx.key != slots[j].ctx.key
  }

  predicate ContextsOk(cfg: Config, slots: seq<Slot>) {
    forall i :: 0 <= i < |slots| && slots[i].Used? ==> ContextOk(cfg, slots[i].ctx)
  }

  /** What holds of every reachable state. */
  predicate Valid(cfg: Config, st: State) {
    && |st.slots| == cfg.maxContexts
    && 0 <= st.buffered == TotalSize(st.slots) <= cfg.maxBytes
    && ContextsOk(cfg, st.slots)
    && UniqueKeys(st.slots)
  }
}
