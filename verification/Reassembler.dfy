/** em_reassembler as an object: the context table and byte total updated in place. */
module ReassemblerObject {
  import opened Bytes
  import opened Tlvs
  import opened Fragmenter
  import opened Reassembly
  import opened Accounting
  import opened Wire

  // ----- the loops over one context's part slots

  /** The TLVs stored in a context, and whether a part lies beyond `fid`. */
  method ScanParts(c: Context, fid: nat) returns (beyond: bool, stored: nat)
    ensures beyond <==> HasPartBeyond(c, fid)
    ensures stored == |Join(c.parts)|
  {
    beyond, stored := false, 0;
    for i := 0 to |c.parts|
      invariant beyond <==> exists j :: fid < j < i && c.parts[j].Some?
      invariant stored == |Join(c.parts[..i])|
    {
      assert c.parts[..i + 1][..i] == c.parts[..i];
      if c.parts[i].Some? {
        stored := stored + |c.parts[i].value.tlvs|;
        if i > fid {
          beyond := true;
        }
      }
    }
    assert c.parts[..|c.parts|] == c.parts;
  }

  method EncodedSize(tlvs: seq<Tlv>) returns (size: nat)
    ensures size == Size(tlvs)
  {
    size := 0;
    for i := 0 to |tlvs|
      invariant size == Size(tlvs[..i])
    {
      assert tlvs[..i + 1] == tlvs[..i] + [tlvs[i]];
      SizeAppend(tlvs[..i], [tlvs[i]]);
      SizeOne(tlvs[i]);
      size := size + |tlvs[i].value| + 3;
    }
    assert tlvs[..|tlvs|] == tlvs;
  }

  /** Every part up to the last fragment is there. */
  method AllPresent(c: Context) returns (yes: bool)
    requires c.last.Some? && c.last.value < |c.parts|
    ensures yes <==> Complete(c)
  {
    for i := 0 to c.last.value + 1
      invariant forall j :: 0 <= j < i ==> c.parts[j].Some?
    {
      if c.parts[i].None? {
        return false;
      }
    }
    return true;
  }

  /** The message's TLVs, moved over part by part. */
  method Collect(c: Context) returns (tlvs: seq<Tlv>)
    requires Complete(c)
    ensures tlvs == Join(c.parts[..c.last.value + 1])
  {
    tlvs := [];
    for i := 0 to c.last.value + 1
      invariant tlvs == Join(c.parts[..i])
    {
      assert c.parts[..i + 1][..i] == c.parts[..i];
      var moved := c.parts[i].value.tlvs;
      var start := tlvs;
      for j := 0 to |moved|
        invariant tlvs == start + moved[..j]
      {
        tlvs := tlvs + [moved[j]];
      }
      assert moved[..|moved|] == moved;
    }
  }

  /** same_tlvs: the flag, the number and then each TLV. */
  method SameTlvs(p: Part, last: bool, tlvs: seq<Tlv>) returns (same: bool)
    ensures same <==> p == Part(last, tlvs)
  {
    if p.last != last || |p.tlvs| != |tlvs| {
      return false;
    }
    for i := 0 to |tlvs|
      invariant p.tlvs[..i] == tlvs[..i]
    {
      if p.tlvs[i].kind != tlvs[i].kind || |p.tlvs[i].value| != |tlvs[i].value| || p.tlvs[i].value != tlvs[i].value {
        assert p.tlvs[i] != tlvs[i];
        return false;
      }
    }
    assert p.tlvs[..|tlvs|] == p.tlvs && tlvs[..|tlvs|] == tlvs;
    same := true;
  }

  /** poison: the parts cleared one by one, the size with them, and the mark set. */
  method Poison(c: Context) returns (d: Context)
    requires |c.parts| == SLOTS
    ensures d == Poisoned(c)
  {
    var parts := c.parts;
    for i := 0 to SLOTS
      invariant |parts| == SLOTS && forall j :: 0 <= j < i ==> parts[j] == None
    {
      parts := parts[i := None];
    }
    assert parts == NoParts();
    d := c.(parts := parts, size := 0, poisoned := true);
  }

  /** The part put in its place, the bytes counted, the last fragment's id noted. */
  method Store(c: Context, f: Fragment, tlvs: seq<Tlv>, size: nat) returns (d: Context)
    requires f.fid < |c.parts| && size == Size(tlvs)
    ensures d == Stored(c, f, tlvs)
  {
    d := c.(parts := c.parts[f.fid as int := Some(Part(f.last, tlvs))]);
    d := d.(size := d.size + size);
    if f.last {
      d := d.(last := Some(f.fid));
    }
  }

  /** The end of em_reassembler_feed: the message, if no part up to the last one is missing. */
  method Finish(d: Context) returns (v: Verdict)
    requires |d.parts| == SLOTS && (d.last.Some? ==> d.last.value < SLOTS)
    ensures v == Settle(d)
  {
    if d.last.None? {
      return Keep(d, Ok);
    }
    var complete := AllPresent(d);
    if !complete {
      return Keep(d, Ok);
    }
    var all := Collect(d);
    var k := d.key;
    return Deliver(Message(k.destination, k.source, k.messageType, k.mid, d.relay, all, d.last.value + 1));
  }

  /** A part the context has not yet: refused for its place or the limits, else stored. */
  method JudgeNew(cfg: Config, c: Context, buffered: int, f: Fragment, tlvs: seq<Tlv>) returns (v: Verdict)
    requires |c.parts| == SLOTS && f.fid < SLOTS && (c.last.Some? ==> c.last.value < SLOTS)
    ensures v == if Overflows(cfg, c, buffered, f, tlvs) then Keep(Poisoned(c), InvalidInput)
                 else Settle(Stored(c, f, tlvs))
  {
    var beyond, stored := ScanParts(c, f.fid);
    var size := EncodedSize(tlvs);
    if (c.last.Some? && (f.fid > c.last.value || (f.last && f.fid != c.last.value))) || (f.last && beyond)
       || c.size + size > cfg.maxMessageBytes || buffered + size > cfg.maxBytes || stored + |tlvs| > MAX_TLVS {
      var d := Poison(c);
      return Keep(d, InvalidInput);
    }
    var d := Store(c, f, tlvs, size);
    v := Finish(d);
  }

  /** What em_reassembler_feed does once it has the context of a fragment. */
  method Judge(cfg: Config, c: Context, buffered: int, f: Fragment) returns (v: Verdict)
    requires ValidConfig(cfg) && ContextOk(cfg, c)
    ensures v == Absorb(cfg, c, buffered, f)
  {
    if c.poisoned {
      return Keep(c, InvalidInput);
    }
    var poisoned: Context;
    if f.fid >= cfg.maxFragments || f.relay != c.relay {
      poisoned := Poison(c);
      return Keep(poisoned, InvalidInput);
    }
    var parsed := ParseTlvs(f.payload, f.last);
    if parsed.None? {
      poisoned := Poison(c);
      return Keep(poisoned, InvalidInput);
    }
    if c.parts[f.fid].Some? {
      var same := SameTlvs(c.parts[f.fid].value, f.last, parsed.value);
      if same {
        return Keep(c, Ok);
      }
      poisoned := Poison(c);
      return Keep(poisoned, InvalidInput);
    }
    v := JudgeNew(cfg, c, buffered, f, parsed.value);
  }

  /** The header of a frame, or why it is refused; reserved bits and the reserved octet are not looked at. */
  method ReadHeader(frame: seq<byte>, ingress: Option<string>) returns (d: Decoded)
    ensures d == Decode(frame, ingress)
    ensures var e := Event(frame, ingress, 0.0, 0.0);
            && (d.Accepted? <==> Heard(e)) && (d.Accepted? ==> Says(e, d.fragment))
            && (d == Refused(UnsupportedOperation) <==> Enveloped(frame) && frame[14] != 0)
  {
    DecodedExactly(Event(frame, ingress, 0.0, 0.0));
    if |frame| < 22 || |frame| > 14 + MAX_CMDU {
      return Refused(InvalidInput);
    }
    if FromU16(frame[12], frame[13]) != ETHERTYPE {
      return Refused(InvalidInput);
    }
    var version, messageType := frame[14], FromU16(frame[16], frame[17]);
    var mid, fid := FromU16(frame[18], frame[19]), frame[20];
    var last, relay := frame[21] >= 0x80, frame[21] % 0x80 >= 0x40;
    if version != 0 {
      return Refused(UnsupportedOperation);
    }
    var name := if ingress.Some? then ingress.value else "offline";
    if |name| >= INGRESS_SIZE {
      return Refused(InvalidInput);
    }
    return Accepted(Fragment(Key(name, frame[6..12], frame[..6], messageType, mid), relay, fid, last, frame[22..]));
  }

  /** A context for a fragment that found none: empty, with the fragment's key and relay flag. */
  method Open(f: Fragment, at: real) returns (c: Context)
    ensures c == Opened(f, at)
  {
    var parts: seq<Option<Part>> := [];
    for i := 0 to SLOTS
      invariant |parts| == i && forall j :: 0 <= j < i ==> parts[j] == None
    {
      parts := parts + [None];
    }
    assert parts == NoParts();
    c := Context(f.key, f.relay, false, None, at, 0, parts);
  }

  // ----- the object

  class Reassembler {
    const cfg: Config
    const contexts: array<Slot>
    var buffered: nat

    ghost predicate Valid()
      reads this, contexts
    {
      ValidConfig(cfg) && Reassembly.Valid(cfg, Contents())
    }

    ghost function Contents(): State
      reads this, contexts
    {
      State(contexts[..], buffered)
    }

    constructor (cfg: Config)
      requires ValidConfig(cfg)
      ensures Valid() && fresh(contexts) && this.cfg == cfg && Contents() == Initial(cfg)
    {
      this.cfg := cfg;
      contexts := new Slot[cfg.maxContexts](_ => Free);
      buffered := 0;
      new;
      assert contexts[..] == Initial(cfg).slots;
    }

    /** expire: each context past its deadline is dropped, and its bytes with it. */
    method DropExpired(now: real)
      requires Valid()
      modifies this`buffered, contexts
      ensures Valid() && Contents() == Expire(cfg, old(Contents()), now)
    {
      ghost var before := contexts[..];
      for i := 0 to contexts.Length
        invariant forall j :: 0 <= j < i ==> contexts[j] == ExpireSlot(cfg, before[j], now)
        invariant forall j :: i <= j < contexts.Length ==> contexts[j] == before[j]
        invariant buffered == TotalSize(contexts[..])
      {
        if contexts[i].Used? && now - contexts[i].ctx.started >= cfg.timeout {
          SlotWithinTotal(contexts[..], i);
          TotalUpdate(contexts[..], i, Free);
          ghost var was := contexts[..];
          buffered := buffered - contexts[i].ctx.size;
          contexts[i] := Free;
          assert contexts[..] == was[i := Free];
        }
      }
      assert contexts[..] == ExpireSlots(cfg, before, now);
      ExpireValid(cfg, old(Contents()), now);
    }

    /** The key's context and the first free slot, in one scan of the table. */
    method Lookup(k: Key) returns (own: Option<nat>, spare: Option<nat>)
      ensures own == Find(contexts[..], k) && spare == Spare(contexts[..])
    {
      own, spare := None, None;
      for i := 0 to contexts.Length
        invariant own == Find(contexts[..i], k) && spare == Spare(contexts[..i])
      {
        assert contexts[..i + 1][..i] == contexts[..i];
        if contexts[i].Free? {
          if spare.None? {
            spare := Some(i);
          }
        } else if contexts[i].ctx.key == k {
          own := Some(i);
        }
      }
      assert contexts[..contexts.Length] == contexts[..];
    }

    /** em_reassembler_feed, with the two clock readings it takes. */
    method Feed(frame: seq<byte>, ingress: Option<string>, now: real, later: real)
      returns (reason: Reason, message: Option<Message>)
      requires Valid()
      modifies this`buffered, contexts
      ensures Valid()
      ensures Shaped(old(Contents()))
           && Outcome(Contents(), reason, message) == Step(cfg, old(Contents()), Event(frame, ingress, now, later))
      ensures reason == UnsupportedOperation <==> Enveloped(frame) && frame[14] != 0
      ensures message.Some? ==> Heard(Event(frame, ingress, now, later))
    {
      StepValid(cfg, Contents(), Event(frame, ingress, now, later));
      DecodedExactly(Event(frame, ingress, now, later));
      ReasonsExactly(cfg, Contents(), Event(frame, ingress, now, later));
      DropExpired(now);
      var decoded := ReadHeader(frame, ingress);
      if decoded.Refused? {
        return decoded.reason, None;
      }
      var f := decoded.fragment;
      var own, spare := Lookup(f.key);
      if own.None? && spare.None? {
        return Busy, None;
      }
      PlaceOk(cfg, contexts[..], f, later);
      if own.Some? {
        reason, message := Write(own.value, contexts[own.value].ctx, f);
      } else {
        var c := Open(f, later);
        reason, message := Write(spare.value, c, f);
      }
    }

    /** The verdict on a context written to its slot, its bytes to the total. */
    method Write(i: nat, c: Context, f: Fragment) returns (reason: Reason, message: Option<Message>)
      requires Valid() && IsPlace(contexts[..], i, c) && ContextOk(cfg, c)
      modifies this`buffered, contexts
      ensures Valid()
      ensures Outcome(Contents(), reason, message)
           == Settled(old(Contents()), i, c, Absorb(cfg, c, old(Contents()).buffered, f))
    {
      SettledValid(cfg, Contents(), i, c, f);
      SlotWithinTotal(contexts[..], i);
      var v := Judge(cfg, c, buffered, f);
      ghost var before := contexts[..];
      match v {
        case Keep(d, r) =>
          contexts[i] := Used(d);
          buffered := buffered - c.size + d.size;
          reason, message := r, None;
          assert contexts[..] == before[i := Used(d)];
        case Deliver(m) =>
          contexts[i] := Free;
          buffered := buffered - c.size;
          reason, message := Ok, Some(m);
          assert contexts[..] == before[i := Free];
      }
    }
  }

  /** em_reassembler_new: nothing unless every limit is in its range. */
  method NewReassembler(cfg: Config) returns (r: Reassembler?)
    ensures r == null <==> !ValidConfig(cfg)
    ensures r != null <==>
              && 0.0 < cfg.timeout <= 60.0 && 1 <= cfg.maxContexts <= 1024 && 1 <= cfg.maxFragments <= 256
              && 1 <= cfg.maxMessageBytes <= cfg.maxBytes <= 16777216
    ensures r != null ==> fresh(r) && fresh(r.contexts) && r.Valid() && r.cfg == cfg && r.Contents() == Initial(cfg)
  {
    if !ValidConfig(cfg) {
      return null;
    }
    r := new Reassembler(cfg);
  }
}
