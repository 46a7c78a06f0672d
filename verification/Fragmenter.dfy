/** TLV-boundary fragmentation of one message into Ethernet frames (em_fragment, c/src/cmdu.c). */
module Fragmenter {
  import opened Bytes
  import opened Tlvs

  const ETHERTYPE: word := 0x893A
  const MAX_CMDU := 1500
  const HEADER_SIZE := 8
  const MAX_CHUNKS := 64

  /** The addresses and header fields all fragments of one message share. */
  datatype Envelope = Envelope(destination: Mac, source: Mac, messageType: word, mid: word, relay: bool)

  /** A chunk fits when it leaves room for the end marker. */
  predicate Fits(chunk: seq<Tlv>, budget: nat) {
    Size(chunk) + 3 <= budget
  }

  predicate AllFit(tlvs: seq<Tlv>, budget: nat) {
    forall i :: 0 <= i < |tlvs| ==> Encodable(tlvs[i]) && Fits([tlvs[i]], budget)
  }

  function Flatten(chunks: seq<seq<Tlv>>): seq<Tlv> {
    if chunks == [] then [] else Flatten(chunks[..|chunks| - 1]) + chunks[|chunks| - 1]
  }

  /** What the loop has closed and the chunk it is filling, after these TLVs. */
  datatype Packing = Packing(done: seq<seq<Tlv>>, current: seq<Tlv>)

  function Chunks(p: Packing): seq<seq<Tlv>> {
    p.done + [p.current]
  }

  /** A TLV goes to the open chunk, or closes it and opens the next when it and an end marker do not fit. */
  function Placed(p: Packing, t: Tlv, budget: nat): Packing {
    if Size(p.current) + TlvSize(t) + 3 > budget then Packing(p.done + [p.current], [t])
    else Packing(p.done, p.current + [t])
  }

  function Pack(tlvs: seq<Tlv>, budget: nat): Packing {
    if tlvs == [] then Packing([], [])
    else Placed(Pack(tlvs[..|tlvs| - 1], budget), tlvs[|tlvs| - 1], budget)
  }

  /** An order-preserving split at TLV boundaries with end-marker room in every fragment. */
  ghost predicate IsSplit(chunks: seq<seq<Tlv>>, tlvs: seq<Tlv>, budget: nat) {
    && chunks != [] && Flatten(chunks) == tlvs
    && forall i :: 0 <= i < |chunks| ==> Fits(chunks[i], budget)
  }

  lemma {:induction false} FlattenPush(chunks: seq<seq<Tlv>>, c: seq<Tlv>)
    ensures Flatten(chunks + [c]) == Flatten(chunks) + c
  {
    assert (chunks + [c])[..|chunks|] == chunks;
  }

  lemma SizeOne(t: Tlv)
    ensures Size([t]) == TlvSize(t)
  {
    assert [t][1..] == [];
  }

  /** The closed chunks and the open one hold these TLVs in order. */
  predicate HoldsInOrder(p: Packing, tlvs: seq<Tlv>) {
    Flatten(p.done) + p.current == tlvs
  }

  lemma {:induction false} PlacedFlatten(p: Packing, q: Packing, tlvs: seq<Tlv>, t: Tlv, budget: nat)
    requires q == Placed(p, t, budget) && HoldsInOrder(p, tlvs)
    ensures HoldsInOrder(q, tlvs + [t])
  {
    FlattenPush(p.done, p.current);
    assert Flatten(p.done) + (p.current + [t]) == Flatten(p.done) + p.current + [t];
  }

  lemma {:induction false} PackFlatten(tlvs: seq<Tlv>, budget: nat)
    ensures HoldsInOrder(Pack(tlvs, budget), tlvs)
    decreases |tlvs|
  {
    if tlvs != [] {
      var n := |tlvs| - 1;
      PackFlatten(tlvs[..n], budget);
      assert tlvs == tlvs[..n] + [tlvs[n]];
      PlacedFlatten(Pack(tlvs[..n], budget), Pack(tlvs, budget), tlvs[..n], tlvs[n], budget);
    }
  }

  lemma {:induction false} PackFits(tlvs: seq<Tlv>, budget: nat)
    requires AllFit(tlvs, budget) && budget >= 3
    ensures var p := Pack(tlvs, budget);
            Fits(p.current, budget) && forall i :: 0 <= i < |p.done| ==> Fits(p.done[i], budget)
    decreases |tlvs|
  {
    if tlvs != [] {
      var n := |tlvs| - 1;
      PackFits(tlvs[..n], budget);
      SizeAppend(Pack(tlvs[..n], budget).current, [tlvs[n]]);
      SizeOne(tlvs[n]);
      assert Fits([tlvs[n]], budget);
    }
  }

  lemma {:induction false} PackNonEmpty(tlvs: seq<Tlv>, budget: nat)
    requires AllFit(tlvs, budget) && tlvs != []
    ensures var p := Pack(tlvs, budget);
            p.current != [] && forall i :: 0 <= i < |p.done| ==> p.done[i] != []
    decreases |tlvs|
  {
    var n := |tlvs| - 1;
    SizeOne(tlvs[n]);
    assert Fits([tlvs[n]], budget);
    if n > 0 {
      PackNonEmpty(tlvs[..n], budget);
    } else {
      assert tlvs[..n] == [];
    }
  }

  /** The greedy packing is a split. */
  lemma {:induction false} PackIsSplit(tlvs: seq<Tlv>, budget: nat)
    requires AllFit(tlvs, budget) && budget >= 3
    ensures IsSplit(Chunks(Pack(tlvs, budget)), tlvs, budget)
  {
    PackFlatten(tlvs, budget);
    PackFits(tlvs, budget);
    ChunksSplit(Pack(tlvs, budget), tlvs, budget);
  }

  lemma {:induction false} ChunksSplit(p: Packing, tlvs: seq<Tlv>, budget: nat)
    requires Flatten(p.done) + p.current == tlvs
    requires Fits(p.current, budget) && forall i :: 0 <= i < |p.done| ==> Fits(p.done[i], budget)
    ensures IsSplit(Chunks(p), tlvs, budget)
  {
    FlattenPush(p.done, p.current);
  }

  predicate NoneEmpty(chunks: seq<seq<Tlv>>) {
    forall i :: 0 <= i < |chunks| ==> |chunks[i]| > 0
  }

  /** No fragment is empty, or an end marker alone, unless the message has no TLV. */
  lemma {:induction false} NoEmptyFragment(tlvs: seq<Tlv>, budget: nat)
    requires AllFit(tlvs, budget)
    ensures if tlvs == [] then Chunks(Pack(tlvs, budget)) == [[]] else NoneEmpty(Chunks(Pack(tlvs, budget)))
  {
    if tlvs != [] {
      PackNonEmpty(tlvs, budget);
    }
  }

  /** Equal suffix lengths of one list: the shorter suffix is no larger. */
  lemma SuffixSize(tlvs: seq<Tlv>, a: seq<Tlv>, b: seq<Tlv>, x: seq<Tlv>, y: seq<Tlv>)
    requires tlvs == x + a == y + b && |a| <= |b|
    ensures Size(a) <= Size(b)
  {
    var k := |b| - |a|;
    assert b == tlvs[|y|..] && a == tlvs[|x|..];
    assert b[k..] == a;
    assert b == b[..k] + a;
    SizeAppend(b[..k], a);
  }

  /** Greedy stays ahead: no more chunks than any split, and on a tie no longer last chunk. */
  lemma {:induction false} GreedyStaysAhead(tlvs: seq<Tlv>, budget: nat, s: seq<seq<Tlv>>)
    requires AllFit(tlvs, budget) && budget >= 3
    requires IsSplit(s, tlvs, budget)
    ensures var p := Pack(tlvs, budget);
            |p.done| + 1 <= |s| && (|p.done| + 1 == |s| ==> |p.current| <= |s[|s| - 1]|)
    decreases |tlvs|, |s|
  {
    var m := |s| - 1;
    if tlvs == [] {
    } else if s[m] == [] {
      assert Flatten(s[..m]) == tlvs;
      GreedyStaysAhead(tlvs, budget, s[..m]);
    } else {
      var n := |tlvs| - 1;
      var k := |s[m]| - 1;
      var t := tlvs[n];
      var s' := s[..m] + [s[m][..k]];
      assert s[m] == s[m][..k] + [s[m][k]];
      assert Flatten(s) == Flatten(s[..m]) + s[m];
      assert s[m][k] == t;
      assert Flatten(s') == Flatten(s[..m]) + s[m][..k] by { FlattenPush(s[..m], s[m][..k]); }
      assert Flatten(s') == tlvs[..n];
      SizeAppend(s[m][..k], [t]);
      SizeOne(t);
      GreedyStaysAhead(tlvs[..n], budget, s');
      var p := Pack(tlvs[..n], budget);
      if |p.done| + 1 == |s'| {
        PackFlatten(tlvs[..n], budget);
        SuffixSize(tlvs[..n], p.current, s[m][..k], Flatten(p.done), Flatten(s[..m]));
      }
    }
  }

  /** The fewest fragments: what is packed is a split, and no split is shorter. */
  lemma {:induction false} GreedyIsOptimal(tlvs: seq<Tlv>, budget: nat)
    requires AllFit(tlvs, budget) && budget >= 3
    ensures IsSplit(Chunks(Pack(tlvs, budget)), tlvs, budget)
    ensures forall s :: IsSplit(s, tlvs, budget) ==> |Chunks(Pack(tlvs, budget))| <= |s|
  {
    PackIsSplit(tlvs, budget);
    forall s | IsSplit(s, tlvs, budget)
      ensures |Chunks(Pack(tlvs, budget))| <= |s|
    {
      GreedyStaysAhead(tlvs, budget, s);
    }
  }

  /** A TLV of the whole is one of some chunk's. */
  lemma {:induction false} FlattenMember(chunks: seq<seq<Tlv>>, t: Tlv) returns (j: nat)
    requires t in Flatten(chunks)
    ensures j < |chunks| && t in chunks[j]
    decreases |chunks|
  {
    var n := |chunks| - 1;
    if t in chunks[n] {
      j := n;
    } else {
      j := FlattenMember(chunks[..n], t);
    }
  }

  lemma MemberFits(chunk: seq<Tlv>, t: Tlv, budget: nat)
    requires t in chunk && Fits(chunk, budget)
    ensures Fits([t], budget)
  {
    var k :| 0 <= k < |chunk| && chunk[k] == t;
    assert chunk == chunk[..k] + [t] + chunk[k + 1..];
    SizeAppend(chunk[..k] + [t], chunk[k + 1..]);
    SizeAppend(chunk[..k], [t]);
  }

  /** Some split has no more fragments than can be sent. */
  ghost predicate Splittable(tlvs: seq<Tlv>, budget: nat) {
    exists s :: IsSplit(s, tlvs, budget) && |s| <= 64
  }

  lemma {:induction false} SplitFits(tlvs: seq<Tlv>, budget: nat, s: seq<seq<Tlv>>)
    requires IsSplit(s, tlvs, budget) && AllEncodable(tlvs)
    ensures AllFit(tlvs, budget)
  {
    forall i | 0 <= i < |tlvs|
      ensures Fits([tlvs[i]], budget)
    {
      var j := FlattenMember(s, tlvs[i]);
      MemberFits(s[j], tlvs[i], budget);
    }
  }

  lemma {:induction false} SplitIsSent(tlvs: seq<Tlv>, budget: nat)
    requires budget >= 3 && AllEncodable(tlvs) && Splittable(tlvs, budget)
    ensures AllFit(tlvs, budget) && |Chunks(Pack(tlvs, budget))| <= MAX_CHUNKS
  {
    var s :| IsSplit(s, tlvs, budget) && |s| <= MAX_CHUNKS;
    SplitFits(tlvs, budget, s);
    GreedyStaysAhead(tlvs, budget, s);
  }

  lemma {:induction false} SentIsSplit(tlvs: seq<Tlv>, budget: nat)
    requires budget >= 3 && AllFit(tlvs, budget) && |Chunks(Pack(tlvs, budget))| <= MAX_CHUNKS
    ensures Splittable(tlvs, budget)
  {
    PackIsSplit(tlvs, budget);
  }

  /** What em_fragment can send: a valid MTU, at most 256 encodable TLVs, and a split of at most 64 fragments. */
  ghost predicate CanSend(tlvs: seq<Tlv>, mtu: nat) {
    14 <= mtu <= 1500 && |tlvs| <= 256 && AllEncodable(tlvs) && Splittable(tlvs, mtu - 8)
  }

  lemma {:induction false} CanSendIsAccepted(tlvs: seq<Tlv>, mtu: nat)
    requires CanSend(tlvs, mtu)
    ensures Acceptable(tlvs, mtu) && |Sent(tlvs, mtu)| <= MAX_CHUNKS
  {
    SplitIsSent(tlvs, mtu - HEADER_SIZE);
  }

  lemma {:induction false} AcceptedCanSend(tlvs: seq<Tlv>, mtu: nat)
    requires Acceptable(tlvs, mtu) && |Sent(tlvs, mtu)| <= MAX_CHUNKS
    ensures CanSend(tlvs, mtu)
  {
    SentIsSplit(tlvs, mtu - HEADER_SIZE);
  }

  /** With a valid MTU and TLVs, a message is refused only when no split of it fits in 64 fragments at all. */
  lemma {:induction false} AcceptedIffSplittable(tlvs: seq<Tlv>, mtu: nat)
    ensures mtu >= HEADER_SIZE ==>
              (Acceptable(tlvs, mtu) && |Sent(tlvs, mtu)| <= MAX_CHUNKS <==> CanSend(tlvs, mtu))
    ensures mtu < HEADER_SIZE ==> !Acceptable(tlvs, mtu) && !CanSend(tlvs, mtu)
  {
    if CanSend(tlvs, mtu) {
      CanSendIsAccepted(tlvs, mtu);
    } else if Acceptable(tlvs, mtu) && |Sent(tlvs, mtu)| <= MAX_CHUNKS {
      AcceptedCanSend(tlvs, mtu);
      assert false;
    }
  }

  /** One frame on the wire (encode_fragment). */
  function Frame(e: Envelope, fid: byte, last: bool, payload: seq<byte>): (r: seq<byte>)
    ensures |r| == 22 + |payload|
  {
    e.destination + e.source + U16(ETHERTYPE) + [0, 0] + U16(e.messageType) + U16(e.mid)
    + [fid, (if last then 0x80 else 0) + (if e.relay then 0x40 else 0)] + payload
  }

  /**
   * The octets of a frame, position by position: the addresses, the EtherType, version and reserved
   * octet, the message type and MID, the fragment id, the two flags, and the payload.
   */
  predicate OnWire(r: seq<byte>, e: Envelope, fid: nat, last: bool, payload: seq<byte>) {
    && |r| == 22 + |payload| && r[..6] == e.destination && r[6..12] == e.source
    && r[12] == 0x89 && r[13] == 0x3A && r[14] == 0 && r[15] == 0
    && r[16] == e.messageType / 256 && r[17] == e.messageType % 256 && r[18] == e.mid / 256 && r[19] == e.mid % 256
    && r[20] == fid && r[21] == (if last then 0x80 else 0) + (if e.relay then 0x40 else 0)
    && r[22..] == payload
  }

  /** A frame's octets, and that they leave nothing open. */
  lemma FrameIffOctets(r: seq<byte>, e: Envelope, fid: byte, last: bool, payload: seq<byte>)
    ensures r == Frame(e, fid, last, payload) <==> OnWire(r, e, fid, last, payload)
  {
    FrameOctets(e, fid, last, payload);
    if OnWire(r, e, fid, last, payload) {
      SameOctets(r, Frame(e, fid, last, payload), e, fid, last, payload);
    }
  }

  lemma FrameOctets(e: Envelope, fid: byte, last: bool, payload: seq<byte>)
    ensures OnWire(Frame(e, fid, last, payload), e, fid, last, payload)
  {
    var r := Frame(e, fid, last, payload);
    var flags := (if last then 0x80 else 0) + (if e.relay then 0x40 else 0);
    assert r[..6] == e.destination && r[6..12] == e.source && r[22..] == payload;
    assert r[12..22] == U16(ETHERTYPE) + [0, 0] + U16(e.messageType) + U16(e.mid) + [fid, flags];
    assert forall i :: 12 <= i < 22 ==> r[i] == r[12..22][i - 12];
  }

  lemma SameOctets(r: seq<byte>, s: seq<byte>, e: Envelope, fid: nat, last: bool, payload: seq<byte>)
    requires OnWire(r, e, fid, last, payload) && OnWire(s, e, fid, last, payload)
    ensures r == s
  {
    assert r[..12] == r[..6] + r[6..12] && s[..12] == s[..6] + s[6..12];
    assert r[12..22] == s[12..22];
    assert r == r[..12] + r[12..22] + r[22..] && s == s[..12] + s[12..22] + s[22..];
  }

  /** The frames of a split, octet by octet: fragment `f` of them, its chunk's TLVs, the last one ended and flagged. */
  ghost predicate SentOctets(frames: seq<seq<byte>>, e: Envelope, chunks: seq<seq<Tlv>>) {
    && |frames| == |chunks|
    && forall f :: 0 <= f < |frames| ==> FrameSent(frames[f], e, f, f == |frames| - 1, chunks[f])
  }

  ghost predicate FrameSent(r: seq<byte>, e: Envelope, f: nat, last: bool, chunk: seq<Tlv>) {
    |r| >= 22 && OnWire(r, e, f, last, r[22..]) && Octets(r[22..], 0, chunk, last)
  }

  /** The frame of fragment `fid` of a packed message: the last carries the end marker. */
  function ChunkPayload(chunks: seq<seq<Tlv>>, fid: nat): seq<byte>
    requires fid < |chunks| && AllEncodable(chunks[fid])
  {
    Encode(chunks[fid]) + Ending(fid == |chunks| - 1)
  }

  predicate ChunksEncodable(chunks: seq<seq<Tlv>>) {
    && |chunks| <= MAX_CHUNKS
    && forall i :: 0 <= i < |chunks| ==> AllEncodable(chunks[i])
  }

  function FrameOf(e: Envelope, chunks: seq<seq<Tlv>>, fid: nat): seq<byte>
    requires fid < |chunks| && ChunksEncodable(chunks)
  {
    Frame(e, fid, fid == |chunks| - 1, ChunkPayload(chunks, fid))
  }

  function Frames(e: Envelope, chunks: seq<seq<Tlv>>): (r: seq<seq<byte>>)
    requires ChunksEncodable(chunks)
  {
    seq(|chunks|, f requires 0 <= f < |chunks| => FrameOf(e, chunks, f))
  }

  /** The bytes and message em_fragment is asked for are acceptable apart from their number. */
  predicate Acceptable(tlvs: seq<Tlv>, mtu: nat) {
    && 14 <= mtu <= MAX_CMDU && |tlvs| <= MAX_TLVS && AllFit(tlvs, mtu - HEADER_SIZE)
  }

  /** The split em_fragment sends. */
  function Sent(tlvs: seq<Tlv>, mtu: nat): seq<seq<Tlv>>
    requires mtu >= HEADER_SIZE
  {
    Chunks(Pack(tlvs, mtu - HEADER_SIZE))
  }

  lemma {:induction false} PackEncodable(tlvs: seq<Tlv>, budget: nat)
    requires AllEncodable(tlvs)
    ensures forall i :: 0 <= i < |Pack(tlvs, budget).done| ==> AllEncodable(Pack(tlvs, budget).done[i])
    ensures AllEncodable(Pack(tlvs, budget).current)
    decreases |tlvs|
  {
    if tlvs != [] {
      PackEncodable(tlvs[..|tlvs| - 1], budget);
    }
  }

  /** The closed chunks only grow with the message. */
  lemma {:induction false} PackMonotone(tlvs: seq<Tlv>, budget: nat, i: nat)
    requires i <= |tlvs|
    ensures |Pack(tlvs[..i], budget).done| <= |Pack(tlvs, budget).done|
    decreases |tlvs| - i
  {
    if i < |tlvs| {
      assert tlvs[..i + 1][..i] == tlvs[..i];
      PackMonotone(tlvs, budget, i + 1);
    } else {
      assert tlvs[..i] == tlvs;
    }
  }

  /** The byte buffers of the loop encode the packing so far. */
  ghost predicate Packed(p: Packing, chunks: seq<seq<byte>>, current: seq<byte>) {
    && |chunks| == |p.done| && |chunks| <= MAX_CHUNKS
    && (forall i :: 0 <= i < |chunks| ==> AllEncodable(p.done[i]) && chunks[i] == Encode(p.done[i]))
    && AllEncodable(p.current) && current == Encode(p.current)
  }

  lemma {:induction false} PackSnoc(tlvs: seq<Tlv>, budget: nat, i: nat)
    requires i < |tlvs|
    ensures Pack(tlvs[..i + 1], budget) == Placed(Pack(tlvs[..i], budget), tlvs[i], budget)
  {
    assert tlvs[..i + 1][..i] == tlvs[..i];
  }

  /** One turn of the loop keeps the buffers the encoding of the packing. */
  lemma {:induction false} PackedStep(p: Packing, chunks: seq<seq<byte>>, current: seq<byte>, t: Tlv)
    requires Packed(p, chunks, current) && Encodable(t)
    ensures Packed(Packing(p.done, p.current + [t]), chunks, current + EncodeTlv(t))
    ensures |chunks| < MAX_CHUNKS ==> Packed(Packing(p.done + [p.current], [t]), chunks + [current], EncodeTlv(t))
  {
    EncodeAppend(p.current, t);
    EncodeAppend([], t);
    assert [] + [t] == [t] && Encode([]) + EncodeTlv(t) == EncodeTlv(t);
  }

  /** One turn: the TLV's bytes go to the open buffer, or to a new one if there may be one. */
  method PlaceChunk(tlvs: seq<Tlv>, budget: nat, i: nat, chunks: seq<seq<byte>>, current: seq<byte>)
    returns (ok: bool, done: seq<seq<byte>>, last: seq<byte>)
    requires i < |tlvs| && Encodable(tlvs[i]) && Packed(Pack(tlvs[..i], budget), chunks, current)
    ensures ok ==> Packed(Pack(tlvs[..i + 1], budget), done, last)
    ensures !ok ==> |Pack(tlvs, budget).done| >= MAX_CHUNKS
  {
    var t := tlvs[i];
    PackSnoc(tlvs, budget, i);
    PackedStep(Pack(tlvs[..i], budget), chunks, current, t);
    ok, done, last := true, chunks, current + EncodeTlv(t);
    if |current| + 3 + |t.value| + 3 > budget {
      if |chunks| == MAX_CHUNKS {
        PackMonotone(tlvs, budget, i + 1);
        return false, [], [];
      }
      done, last := chunks + [current], EncodeTlv(t);
    }
  }

  /** The packing loop of em_fragment, over the encoded bytes of each chunk. */
  method PackChunks(tlvs: seq<Tlv>, budget: nat) returns (ok: bool, chunks: seq<seq<byte>>)
    requires budget >= 3
    ensures ok <==> AllFit(tlvs, budget) && |Pack(tlvs, budget).done| < MAX_CHUNKS
    ensures ok ==> |chunks| > 0
    ensures ok ==> Packed(Pack(tlvs, budget), chunks[..|chunks| - 1], chunks[|chunks| - 1])
  {
    var current: seq<byte>;
    chunks, current := [], [];
    assert tlvs[..0] == [];
    for i := 0 to |tlvs|
      invariant AllFit(tlvs[..i], budget)
      invariant Packed(Pack(tlvs[..i], budget), chunks, current)
    {
      var t := tlvs[i];
      if t.kind == 0 || |t.value| > MAX_VALUE {
        assert !Encodable(tlvs[i]);
        return false, [];
      }
      SizeOne(t);
      if 3 + |t.value| + 3 > budget {
        assert !Fits([tlvs[i]], budget);
        return false, [];
      }
      ok, chunks, current := PlaceChunk(tlvs, budget, i, chunks, current);
      if !ok {
        return false, [];
      }
    }
    assert tlvs[..|tlvs|] == tlvs;
    if |chunks| == MAX_CHUNKS {
      return false, [];
    }
    ok, chunks := true, chunks + [current];
  }

  /**
   * em_fragment: accepts exactly the acceptable messages whose packing needs at most 64
   * fragments, and then sends one frame per chunk, in order, each within the MTU.
   */
  method Fragment(e: Envelope, tlvs: seq<Tlv>, mtu: nat) returns (reason: Reason, frames: seq<seq<byte>>)
    ensures reason == if Acceptable(tlvs, mtu) && |Sent(tlvs, mtu)| <= MAX_CHUNKS then Ok else InvalidInput
    ensures reason != Ok ==> frames == []
    ensures reason == Ok ==> ChunksEncodable(Sent(tlvs, mtu)) && frames == Frames(e, Sent(tlvs, mtu))
    ensures reason == Ok ==> SentOctets(frames, e, Sent(tlvs, mtu))
    ensures forall f :: 0 <= f < |frames| ==> |frames[f]| <= 14 + mtu
  {
    if mtu < 14 || mtu > MAX_CMDU || |tlvs| > MAX_TLVS {
      return InvalidInput, [];
    }
    var ok, chunks := PackChunks(tlvs, mtu - HEADER_SIZE);
    if !ok {
      return InvalidInput, [];
    }
    var n := |chunks| - 1;
    ClosedChunks(tlvs, mtu, chunks);
    chunks := chunks[..n] + [chunks[n] + END];
    frames := EncodeFrames(e, chunks);
    assert frames == Frames(e, Sent(tlvs, mtu));
    FramesOctets(e, Sent(tlvs, mtu));
    reason := Ok;
  }

  lemma {:induction false} FramesOctets(e: Envelope, chunks: seq<seq<Tlv>>)
    requires ChunksEncodable(chunks)
    ensures SentOctets(Frames(e, chunks), e, chunks)
  {
    forall f | 0 <= f < |chunks|
      ensures FrameSent(Frames(e, chunks)[f], e, f, f == |chunks| - 1, chunks[f])
    {
      var last, payload := f == |chunks| - 1, ChunkPayload(chunks, f);
      FrameOctets(e, f, last, payload);
      assert payload[0..] == payload;
      EncodedOctets(payload, 0, chunks[f], last);
    }
  }

  /** The buffers, the last one ended, are the payloads of the split, each within the budget. */
  lemma {:induction false} ClosedChunks(tlvs: seq<Tlv>, mtu: nat, chunks: seq<seq<byte>>)
    requires Acceptable(tlvs, mtu) && 0 < |chunks| <= MAX_CHUNKS
    requires Packed(Pack(tlvs, mtu - HEADER_SIZE), chunks[..|chunks| - 1], chunks[|chunks| - 1])
    ensures var closed, s := chunks[..|chunks| - 1] + [chunks[|chunks| - 1] + END], Sent(tlvs, mtu);
            && ChunksEncodable(s) && |closed| == |s|
            && forall f :: 0 <= f < |s| ==> closed[f] == ChunkPayload(s, f) && |closed[f]| <= mtu - HEADER_SIZE
  {
    PackFits(tlvs, mtu - HEADER_SIZE);
    var p := Pack(tlvs, mtu - HEADER_SIZE);
    assert forall f :: 0 <= f < |p.done| ==> Sent(tlvs, mtu)[f] == p.done[f] && Fits(p.done[f], mtu - HEADER_SIZE);
  }

  /** The frames of the closed chunks, fragment ids in order, the last one flagged. */
  method EncodeFrames(e: Envelope, chunks: seq<seq<byte>>) returns (frames: seq<seq<byte>>)
    requires |chunks| <= MAX_CHUNKS
    ensures |frames| == |chunks|
    ensures forall f :: 0 <= f < |frames| ==> frames[f] == Frame(e, f, f == |chunks| - 1, chunks[f])
    ensures forall f :: 0 <= f < |frames| ==> OnWire(frames[f], e, f, f == |chunks| - 1, chunks[f])
  {
    frames := [];
    for fid := 0 to |chunks|
      invariant |frames| == fid
      invariant forall f :: 0 <= f < fid ==> frames[f] == Frame(e, f, f == |chunks| - 1, chunks[f])
      invariant forall f :: 0 <= f < fid ==> OnWire(frames[f], e, f, f == |chunks| - 1, chunks[f])
    {
      FrameOctets(e, fid, fid == |chunks| - 1, chunks[fid]);
      frames := frames + [Frame(e, fid, fid == |chunks| - 1, chunks[fid])];
    }
  }
}
