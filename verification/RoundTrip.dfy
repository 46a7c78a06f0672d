/** Reassembly undoes fragmentation: any order, duplicates and interleaving, and when it delivers again. */
module RoundTrip {
  import opened Bytes
  import opened Tlvs
  import opened Fragmenter
  import opened Reassembly
  import opened Accounting
  import opened Runs

  /** A fragmented message as the receiver keys it: chunk `f` travels in fragment `f`. */
  datatype Plan = Plan(key: Key, relay: bool, chunks: seq<seq<Tlv>>)

  /** The message is within the receiver's limits. */
  predicate PlanOk(cfg: Config, p: Plan) {
    && 0 < |p.chunks| <= cfg.maxFragments
    && Size(Flatten(p.chunks)) <= cfg.maxMessageBytes && |Flatten(p.chunks)| <= MAX_TLVS
  }

  function Whole(p: Plan): Message {
    Message(p.key.destination, p.key.source, p.key.messageType, p.key.mid, p.relay, Flatten(p.chunks), |p.chunks|)
  }

  /** The event is one of the plan's fragments. */
  predicate IsPiece(p: Plan, e: Event) {
    About(e, p.key)
    && var f := FragmentOf(e);
       && f.relay == p.relay && f.fid < |p.chunks| && (f.last <==> f.fid == |p.chunks| - 1)
       && Payload(f.payload, f.last) == Some(p.chunks[f.fid])
  }

  /** Every event of the key is one of the plan's fragments. */
  predicate Faithful(p: Plan, evs: seq<Event>) {
    forall i :: 0 <= i < |evs| && About(evs[i], p.key) ==> IsPiece(p, evs[i])
  }

  /** The fragment id an event brings of the key, if any. */
  function Brings(p: Plan, e: Event): set<nat> {
    if About(e, p.key) then {FragmentOf(e).fid as nat} else {}
  }

  /** The fragment ids that events `i` to `m` bring, the last not included. */
  function Seen(p: Plan, evs: seq<Event>, i: nat, m: nat): set<nat>
    requires m <= |evs|
    decreases m
  {
    if m <= i then {} else Seen(p, evs, i, m - 1) + Brings(p, evs[m - 1])
  }

  /** Every fragment of the plan is among them, and only those are. */
  predicate Covers(p: Plan, seen: set<nat>) {
    forall i: nat :: i < |p.chunks| ==> i in seen
  }

  predicate Only(p: Plan, seen: set<nat>) {
    forall i: nat :: i in seen ==> i < |p.chunks|
  }

  /** The fragments held after an event: none once they are the whole message. */
  function Grown(p: Plan, batch: set<nat>, e: Event): set<nat> {
    var more := batch + Brings(p, e);
    if Covers(p, more) then {} else more
  }

  /** The fragments held of the message, and the clock reading at which the first of them opened a context. */
  datatype Held = Held(batch: set<nat>, start: real)

  /** Those still held when an event comes: none past the deadline. */
  function Alive(cfg: Config, h: Held, e: Event): set<nat> {
    if e.now - h.start >= cfg.timeout then {} else h.batch
  }

  function HeldNext(cfg: Config, p: Plan, h: Held, e: Event): Held {
    var alive := Alive(cfg, h, e);
    Held(Grown(p, alive, e), if alive == {} then e.later else h.start)
  }

  /** What is held after the first `m` events, told from the events alone. */
  function HeldAfter(cfg: Config, p: Plan, evs: seq<Event>, m: nat): Held
    requires m <= |evs|
  {
    if m == 0 then Held({}, 0.0) else HeldNext(cfg, p, HeldAfter(cfg, p, evs, m - 1), evs[m - 1])
  }

  /** What the n-th event finds held. */
  function AliveAt(cfg: Config, p: Plan, evs: seq<Event>, n: nat): set<nat>
    requires n < |evs|
  {
    Alive(cfg, HeldAfter(cfg, p, evs, n), evs[n])
  }

  /** The n-th event brings the last fragment missing. */
  predicate MakesWhole(cfg: Config, p: Plan, evs: seq<Event>, n: nat) {
    n < |evs| && About(evs[n], p.key) && Covers(p, AliveAt(cfg, p, evs, n) + Brings(p, evs[n]))
  }

  // ----- the context that holds a set of fragments

  function PieceAt(p: Plan, seen: set<nat>, i: nat): Option<Part> {
    if i in seen && i < |p.chunks| then Some(Part(i == |p.chunks| - 1, p.chunks[i])) else None
  }

  function Pieces(p: Plan, seen: set<nat>): (r: seq<Option<Part>>)
    ensures |r| == SLOTS && forall i :: 0 <= i < SLOTS ==> r[i] == PieceAt(p, seen, i)
  {
    seq(SLOTS, i requires 0 <= i => PieceAt(p, seen, i))
  }

  function Holding(p: Plan, seen: set<nat>, started: real): Context {
    Context(p.key, p.relay, false, if |p.chunks| - 1 in seen && p.chunks != [] then Some(|p.chunks| - 1) else None,
            started, Size(Join(Pieces(p, seen))), Pieces(p, seen))
  }

  /** A prefix of the fragments held is no more than that prefix of the message, and all of it when none is missing. */
  ghost predicate Bounded(parts: seq<Option<Part>>, chunks: seq<seq<Tlv>>, all: bool) {
    var j, whole := Join(parts), Flatten(chunks);
    Size(j) <= Size(whole) && |j| <= |whole| && (all ==> j == whole)
  }

  lemma {:induction false} BoundedNext(parts: seq<Option<Part>>, chunks: seq<seq<Tlv>>, all: bool, x: Option<Part>,
                                       c: seq<Tlv>)
    requires Bounded(parts, chunks, all) && (x.Some? ==> x.value.tlvs == c)
    ensures Bounded(parts + [x], chunks + [c], all && x.Some?)
  {
    var tail := if x.Some? then c else [];
    assert (parts + [x])[..|parts|] == parts;
    FlattenPush(chunks, c);
    SizeAppend(Join(parts), tail);
    SizeAppend(Flatten(chunks), c);
  }

  /** Any set of fragments holds no more than the message. */
  lemma {:induction false} PiecesBounded(p: Plan, seen: set<nat>, n: nat)
    requires n <= |p.chunks| <= SLOTS
    ensures Bounded(Pieces(p, seen)[..n], p.chunks[..n], forall i :: 0 <= i < n ==> i in seen)
    decreases n
  {
    if n > 0 {
      var parts, m := Pieces(p, seen), n - 1;
      PiecesBounded(p, seen, m);
      BoundedNext(parts[..m], p.chunks[..m], forall i :: 0 <= i < m ==> i in seen, parts[m], p.chunks[m]);
      assert parts[..n] == parts[..m] + [parts[m]] && p.chunks[..n] == p.chunks[..m] + [p.chunks[m]];
    }
  }

  lemma {:induction false} JoinTail(parts: seq<Option<Part>>, n: nat)
    requires n <= |parts| && forall i :: n <= i < |parts| ==> parts[i].None?
    ensures Join(parts) == Join(parts[..n])
    decreases |parts|
  {
    if n == |parts| {
      assert parts[..n] == parts;
    } else {
      var m := |parts| - 1;
      assert parts[..m][..n] == parts[..n];
      JoinTail(parts[..m], n);
    }
  }

  lemma HoldingBounded(p: Plan, seen: set<nat>)
    requires |p.chunks| <= SLOTS
    ensures var j := Join(Pieces(p, seen));
            Size(j) <= Size(Flatten(p.chunks)) && |j| <= |Flatten(p.chunks)|
    ensures Covers(p, seen) ==> Join(Pieces(p, seen)[..|p.chunks|]) == Flatten(p.chunks)
  {
    var n := |p.chunks|;
    assert p.chunks[..n] == p.chunks;
    PiecesBounded(p, seen, n);
    JoinTail(Pieces(p, seen), n);
  }

  /** One more fragment: the context holds it too, or the message is delivered. */
  lemma HoldingStored(p: Plan, seen: set<nat>, started: real, f: Fragment)
    requires 0 < |p.chunks| <= SLOTS && f.fid < |p.chunks| && f.fid !in seen
    requires f.last <==> f.fid == |p.chunks| - 1
    ensures Stored(Holding(p, seen, started), f, p.chunks[f.fid]) == Holding(p, seen + {f.fid as nat}, started)
  {
    var more := seen + {f.fid as nat};
    var part := Part(f.last, p.chunks[f.fid]);
    JoinFill(Pieces(p, seen), f.fid, part);
    assert Pieces(p, seen)[f.fid as int := Some(part)] == Pieces(p, more);
  }

  lemma HoldingComplete(p: Plan, seen: set<nat>, started: real)
    requires 0 < |p.chunks| <= SLOTS
    ensures Complete(Holding(p, seen, started)) <==> Covers(p, seen)
    ensures Covers(p, seen) ==> Assembled(Holding(p, seen, started)) == Whole(p)
  {
    var c := Holding(p, seen, started);
    if Covers(p, seen) {
      assert Complete(c);
      HoldingBounded(p, seen);
    }
    if Complete(c) {
      forall i: nat | i < |p.chunks|
        ensures i in seen
      {
        assert c.parts[i].Some?;
      }
    }
  }

  /** A missing fragment within the byte budget is never refused. */
  lemma HoldingFits(cfg: Config, p: Plan, seen: set<nat>, started: real, buffered: int, f: Fragment)
    requires ValidConfig(cfg) && PlanOk(cfg, p) && f.fid < |p.chunks| && f.fid !in seen && Only(p, seen)
    requires f.last <==> f.fid == |p.chunks| - 1
    requires buffered - Holding(p, seen, started).size + Size(Flatten(p.chunks)) <= cfg.maxBytes
    ensures !Overflows(cfg, Holding(p, seen, started), buffered, f, p.chunks[f.fid])
  {
    var part := Part(f.last, p.chunks[f.fid]);
    var more := seen + {f.fid as nat};
    JoinFill(Pieces(p, seen), f.fid, part);
    assert Pieces(p, seen)[f.fid as int := Some(part)] == Pieces(p, more);
    HoldingBounded(p, more);
  }

  lemma HoldingAbsorbs(cfg: Config, p: Plan, seen: set<nat>, started: real, buffered: int, e: Event)
    requires ValidConfig(cfg) && PlanOk(cfg, p) && IsPiece(p, e) && Only(p, seen) && !Covers(p, seen)
    requires buffered - Holding(p, seen, started).size + Size(Flatten(p.chunks)) <= cfg.maxBytes
    ensures var more := seen + {FragmentOf(e).fid as nat};
            Absorb(cfg, Holding(p, seen, started), buffered, FragmentOf(e)) ==
            if Covers(p, more) then Deliver(Whole(p)) else Keep(Holding(p, more, started), Ok)
  {
    var f := FragmentOf(e);
    var fid := f.fid as nat;
    if fid in seen {
      assert seen + {fid} == seen;
    } else {
      HoldingFits(cfg, p, seen, started, buffered, f);
      HoldingStored(p, seen, started, f);
      HoldingComplete(p, seen + {fid}, started);
    }
  }

  // ----- runs

  /** The key's context is what holding these fragments means. */
  ghost predicate Tracks(st: State, p: Plan, h: Held) {
    View(st, p.key) == if h.batch == {} then None else Some(Holding(p, h.batch, h.start))
  }

  /** The table has a slot for the key and room for the rest of the message when the event comes. */
  ghost predicate HasRoom(cfg: Config, st: State, e: Event, p: Plan) {
    var live := Expire(cfg, st, e.now);
    var v := View(live, p.key);
    && (v.Some? || Spare(live.slots).Some?)
    && live.buffered - (if v.Some? then v.value.size else 0) + Size(Flatten(p.chunks)) <= cfg.maxBytes
  }

  ghost predicate RoomAt(cfg: Config, st: State, evs: seq<Event>, p: Plan, n: nat)
    requires ValidConfig(cfg) && Valid(cfg, st) && n < |evs|
  {
    About(evs[n], p.key) ==> HasRoom(cfg, RunFrom(cfg, st, evs[..n]), evs[n], p)
  }

  /** Along the run there is room at each event of the key. */
  ghost predicate Roomy(cfg: Config, st: State, evs: seq<Event>, p: Plan)
    requires ValidConfig(cfg) && Valid(cfg, st)
  {
    forall n :: 0 <= n < |evs| ==> RoomAt(cfg, st, evs, p, n)
  }

  lemma OpenedHolds(p: Plan, e: Event)
    requires IsPiece(p, e)
    ensures Opened(FragmentOf(e), e.later) == Holding(p, {}, e.later)
  {
    assert Pieces(p, {}) == NoParts();
    JoinEmpty(NoParts());
  }

  /** Expiry leaves the context of what is still held. */
  lemma {:induction false} AliveTracks(cfg: Config, st: State, e: Event, p: Plan, h: Held)
    requires ValidConfig(cfg) && Valid(cfg, st) && Tracks(st, p, h)
    ensures Tracks(Expire(cfg, st, e.now), p, Held(Alive(cfg, h, e), h.start))
  {
    ExpireView(cfg, st, e.now, p.key);
  }

  /** One event of the key: one fragment more, or the message. */
  lemma {:induction false} TrackOwn(cfg: Config, st: State, e: Event, p: Plan, h: Held)
    requires ValidConfig(cfg) && Valid(cfg, st) && PlanOk(cfg, p) && IsPiece(p, e)
    requires Tracks(st, p, h) && Only(p, h.batch) && !Covers(p, Alive(cfg, h, e)) && HasRoom(cfg, st, e, p)
    ensures Shaped(st)
    ensures var more, out := Alive(cfg, h, e) + {FragmentOf(e).fid as nat}, Step(cfg, st, e);
            && Tracks(out.state, p, HeldNext(cfg, p, h, e))
            && out.message == if Covers(p, more) then Some(Whole(p)) else None
  {
    var alive := Alive(cfg, h, e);
    AliveTracks(cfg, st, e, p, h);
    StepOwn(cfg, st, e, p.key);
    OpenedHolds(p, e);
    HoldingAbsorbs(cfg, p, alive, if alive == {} then e.later else h.start, Expire(cfg, st, e.now).buffered, e);
  }

  lemma {:induction false} TrackOther(cfg: Config, st: State, e: Event, p: Plan, h: Held)
    requires ValidConfig(cfg) && Valid(cfg, st) && !About(e, p.key)
    requires Tracks(st, p, h) && !Covers(p, Alive(cfg, h, e))
    ensures Shaped(st) && Tracks(Step(cfg, st, e).state, p, HeldNext(cfg, p, h, e))
  {
    AliveTracks(cfg, st, e, p, h);
    StepOther(cfg, st, e, p.key);
    assert Alive(cfg, h, e) + {} == Alive(cfg, h, e);
  }

  lemma NothingCovers(p: Plan)
    requires 0 < |p.chunks|
    ensures !Covers(p, {})
  {
    var nothing: set<nat> := {};
    assert 0 !in nothing;
  }

  /** What is held is never the whole message, nor anything else. */
  lemma {:induction false} HeldWithin(cfg: Config, p: Plan, evs: seq<Event>, m: nat)
    requires m <= |evs| && Faithful(p, evs) && 0 < |p.chunks|
    ensures Only(p, HeldAfter(cfg, p, evs, m).batch) && !Covers(p, HeldAfter(cfg, p, evs, m).batch)
    ensures m < |evs| ==> !Covers(p, AliveAt(cfg, p, evs, m))
    decreases m
  {
    NothingCovers(p);
    if m > 0 {
      HeldWithin(cfg, p, evs, m - 1);
      assert About(evs[m - 1], p.key) ==> IsPiece(p, evs[m - 1]);
    }
  }

  /** After `m` events the context holds what they say. */
  ghost predicate Tracking(cfg: Config, st: State, evs: seq<Event>, p: Plan, m: nat)
    requires ValidConfig(cfg) && Valid(cfg, st) && m <= |evs|
  {
    Tracks(RunFrom(cfg, st, evs[..m]), p, HeldAfter(cfg, p, evs, m))
  }

  /** What event `m` of a run with room does and returns. */
  lemma {:induction false} TrackNext(cfg: Config, st: State, evs: seq<Event>, m: nat, p: Plan)
    requires ValidConfig(cfg) && Valid(cfg, st) && PlanOk(cfg, p) && m < |evs|
    requires Faithful(p, evs) && Roomy(cfg, st, evs, p) && Tracking(cfg, st, evs, p, m)
    ensures Tracking(cfg, st, evs, p, m + 1)
    ensures Shaped(RunFrom(cfg, st, evs[..m]))
    ensures About(evs[m], p.key) ==>
              Step(cfg, RunFrom(cfg, st, evs[..m]), evs[m]).message ==
              if MakesWhole(cfg, p, evs, m) then Some(Whole(p)) else None
  {
    var before, next, e := evs[..m], evs[..m + 1], evs[m];
    assert next[..m] == before && next[m] == e;
    HeldWithin(cfg, p, evs, m);
    if About(e, p.key) {
      assert RoomAt(cfg, st, evs, p, m);
      TrackOwn(cfg, RunFrom(cfg, st, before), e, p, HeldAfter(cfg, p, evs, m));
    } else {
      TrackOther(cfg, RunFrom(cfg, st, before), e, p, HeldAfter(cfg, p, evs, m));
    }
  }

  lemma {:induction false} TrackRun(cfg: Config, st: State, evs: seq<Event>, m: nat, p: Plan)
    requires ValidConfig(cfg) && Valid(cfg, st) && PlanOk(cfg, p) && View(st, p.key).None? && m <= |evs|
    requires Faithful(p, evs) && Roomy(cfg, st, evs, p)
    ensures Tracking(cfg, st, evs, p, m)
    decreases m
  {
    if m > 0 {
      TrackRun(cfg, st, evs, m - 1, p);
      TrackNext(cfg, st, evs, m - 1, p);
    }
  }

  lemma TraceLast(cfg: Config, st: State, evs: seq<Event>)
    requires ValidConfig(cfg) && Valid(cfg, st) && evs != []
    ensures var n := |evs| - 1;
            && Shaped(RunFrom(cfg, st, evs[..n]))
            && Trace(cfg, st, evs) == Trace(cfg, st, evs[..n]) + [Step(cfg, RunFrom(cfg, st, evs[..n]), evs[n])]
  {
    ValidIsShaped(cfg, RunFrom(cfg, st, evs[..|evs| - 1]));
  }

  lemma {:induction false} TraceShorter(cfg: Config, st: State, evs: seq<Event>, n: nat, m: nat)
    requires ValidConfig(cfg) && Valid(cfg, st) && n < m <= |evs|
    ensures Trace(cfg, st, evs)[n] == Trace(cfg, st, evs[..m])[n]
    decreases |evs|
  {
    if m < |evs| {
      var shorter := evs[..|evs| - 1];
      TraceLast(cfg, st, evs);
      assert shorter[..m] == evs[..m];
      TraceShorter(cfg, st, shorter, n, m);
    } else {
      assert evs[..m] == evs;
    }
  }

  /** What a run returns at an event is what the step there returns. */
  lemma {:induction false} TraceAt(cfg: Config, st: State, evs: seq<Event>, n: nat)
    requires ValidConfig(cfg) && Valid(cfg, st) && n < |evs|
    ensures Shaped(RunFrom(cfg, st, evs[..n]))
    ensures Trace(cfg, st, evs)[n] == Step(cfg, RunFrom(cfg, st, evs[..n]), evs[n])
  {
    TraceShorter(cfg, st, evs, n, n + 1);
    TraceLast(cfg, st, evs[..n + 1]);
    assert evs[..n + 1][..n] == evs[..n];
  }

  /** The n-th event delivers the message if it completes it, and else nothing of the key. */
  ghost predicate DeliversExactly(cfg: Config, st: State, evs: seq<Event>, p: Plan, n: nat)
    requires ValidConfig(cfg) && Valid(cfg, st) && n < |evs|
  {
    About(evs[n], p.key) ==>
      Trace(cfg, st, evs)[n].message == if MakesWhole(cfg, p, evs, n) then Some(Whole(p)) else None
  }

  /**
   * The plan's fragments in any order and at any time, with duplicates and anything about other
   * keys between: an event delivers the message exactly when it brings the last fragment missing
   * of those held, what was held going at each completion and at each deadline.
   */
  lemma {:induction false} PlanDelivered(cfg: Config, st: State, evs: seq<Event>, p: Plan, n: nat)
    requires ValidConfig(cfg) && Valid(cfg, st) && PlanOk(cfg, p) && View(st, p.key).None? && n < |evs|
    requires Faithful(p, evs) && Roomy(cfg, st, evs, p)
    ensures DeliversExactly(cfg, st, evs, p, n)
  {
    TrackRun(cfg, st, evs, n, p);
    TrackNext(cfg, st, evs, n, p);
    TraceAt(cfg, st, evs, n);
  }

  // ----- when a message is delivered, and when again

  /** Event `i` of the key finds nothing held: it opens a context. */
  predicate Opening(cfg: Config, p: Plan, evs: seq<Event>, i: nat) {
    i < |evs| && About(evs[i], p.key) && AliveAt(cfg, p, evs, i) == {}
  }

  /** The events after `i` up to `m` come before the deadline of a context opened at `i`. */
  predicate InTime(cfg: Config, evs: seq<Event>, i: nat, m: nat) {
    i <= m < |evs| && forall j :: i < j <= m ==> evs[j].now - evs[i].later < cfg.timeout
  }

  /** From the opening at `i` to `m`, in time, every fragment comes. */
  predicate AllCome(cfg: Config, p: Plan, evs: seq<Event>, i: nat, m: nat) {
    Opening(cfg, p, evs, i) && InTime(cfg, evs, i, m) && Covers(p, Seen(p, evs, i, m + 1))
  }

  ghost predicate AllComeSince(cfg: Config, p: Plan, evs: seq<Event>, from: nat) {
    exists i, m :: from <= i && AllCome(cfg, p, evs, i, m)
  }

  ghost predicate CompletedSince(cfg: Config, p: Plan, evs: seq<Event>, from: nat) {
    exists n :: from <= n && MakesWhole(cfg, p, evs, n)
  }

  /** `h` is what has come since an opening at `i`. */
  ghost predicate HoldsSince(p: Plan, evs: seq<Event>, i: nat, m: nat, h: Held)
    requires i <= m < |evs|
  {
    h == Held(Seen(p, evs, i, m + 1), evs[i].later) && h.batch != {}
  }

  lemma {:induction false} OpeningHolds(cfg: Config, p: Plan, evs: seq<Event>, i: nat)
    requires Opening(cfg, p, evs, i) && !MakesWhole(cfg, p, evs, i)
    ensures HoldsSince(p, evs, i, i, HeldAfter(cfg, p, evs, i + 1))
  {
    assert {} + Brings(p, evs[i]) == Brings(p, evs[i]);
  }

  lemma {:induction false} HoldsNext(cfg: Config, p: Plan, evs: seq<Event>, i: nat, m: nat)
    requires i < m < |evs| && HoldsSince(p, evs, i, m - 1, HeldAfter(cfg, p, evs, m))
    requires evs[m].now - evs[i].later < cfg.timeout && !MakesWhole(cfg, p, evs, m)
    requires !Covers(p, Seen(p, evs, i, m))
    ensures HoldsSince(p, evs, i, m, HeldAfter(cfg, p, evs, m + 1))
  {
    if !About(evs[m], p.key) {
      assert Seen(p, evs, i, m) + {} == Seen(p, evs, i, m);
    }
  }

  /** While nothing is completed, what is held since an opening is all that has come since it. */
  lemma {:induction false} WindowHeld(cfg: Config, p: Plan, evs: seq<Event>, i: nat, m: nat)
    requires Faithful(p, evs) && 0 < |p.chunks| && Opening(cfg, p, evs, i) && InTime(cfg, evs, i, m)
    requires forall j :: i <= j <= m ==> !MakesWhole(cfg, p, evs, j)
    ensures HoldsSince(p, evs, i, m, HeldAfter(cfg, p, evs, m + 1))
    decreases m
  {
    assert !MakesWhole(cfg, p, evs, m);
    if m == i {
      OpeningHolds(cfg, p, evs, i);
    } else {
      WindowHeld(cfg, p, evs, i, m - 1);
      HeldWithin(cfg, p, evs, m);
      HoldsNext(cfg, p, evs, i, m);
    }
  }

  /** If every fragment comes in time, some event up to the last of them completes the message. */
  lemma {:induction false} WindowCompletes(cfg: Config, p: Plan, evs: seq<Event>, i: nat, m: nat) returns (n: nat)
    requires Faithful(p, evs) && 0 < |p.chunks| && AllCome(cfg, p, evs, i, m)
    ensures i <= n <= m && MakesWhole(cfg, p, evs, n)
  {
    if j :| i <= j <= m && MakesWhole(cfg, p, evs, j) {
      n := j;
    } else {
      WindowHeld(cfg, p, evs, i, m);
      HeldWithin(cfg, p, evs, m + 1);
      assert false;
    }
  }

  /** What is held since an opening, one event on and still held. */
  lemma {:induction false} SinceExtends(cfg: Config, p: Plan, evs: seq<Event>, i: nat, m: nat)
    requires i < m < |evs| && InTime(cfg, evs, i, m - 1) && HoldsSince(p, evs, i, m - 1, HeldAfter(cfg, p, evs, m))
    requires !Covers(p, Seen(p, evs, i, m)) && AliveAt(cfg, p, evs, m) != {}
    requires HeldAfter(cfg, p, evs, m + 1).batch != {}
    ensures InTime(cfg, evs, i, m) && HoldsSince(p, evs, i, m, HeldAfter(cfg, p, evs, m + 1))
  {
    NotWhole(cfg, p, evs, m);
    HoldsNext(cfg, p, evs, i, m);
  }

  /** The opening of what is held. */
  lemma {:induction false} OpeningOf(cfg: Config, p: Plan, evs: seq<Event>, from: nat, n: nat) returns (i: nat)
    requires from <= n <= |evs| && Faithful(p, evs) && 0 < |p.chunks|
    requires HeldAfter(cfg, p, evs, from).batch == {} && HeldAfter(cfg, p, evs, n).batch != {}
    ensures from <= i < n && Opening(cfg, p, evs, i) && InTime(cfg, evs, i, n - 1)
    ensures HoldsSince(p, evs, i, n - 1, HeldAfter(cfg, p, evs, n))
    decreases n
  {
    var m := n - 1;
    if AliveAt(cfg, p, evs, m) == {} {
      i := m;
      OpenedHere(cfg, p, evs, m);
    } else {
      i := OpeningOf(cfg, p, evs, from, m);
      HeldWithin(cfg, p, evs, m);
      SinceExtends(cfg, p, evs, i, m);
    }
  }

  lemma {:induction false} NotWhole(cfg: Config, p: Plan, evs: seq<Event>, m: nat)
    requires m < |evs| && HeldAfter(cfg, p, evs, m + 1).batch != {}
    ensures !MakesWhole(cfg, p, evs, m)
  {
  }

  lemma {:induction false} OpenedHere(cfg: Config, p: Plan, evs: seq<Event>, m: nat)
    requires m < |evs| && AliveAt(cfg, p, evs, m) == {} && HeldAfter(cfg, p, evs, m + 1).batch != {}
    ensures Opening(cfg, p, evs, m) && HoldsSince(p, evs, m, m, HeldAfter(cfg, p, evs, m + 1))
  {
    NotWhole(cfg, p, evs, m);
    OpeningHolds(cfg, p, evs, m);
  }

  lemma {:induction false} WindowCloses(cfg: Config, p: Plan, evs: seq<Event>, i: nat, n: nat)
    requires i < n < |evs| && Opening(cfg, p, evs, i) && InTime(cfg, evs, i, n - 1)
    requires HoldsSince(p, evs, i, n - 1, HeldAfter(cfg, p, evs, n))
    requires AliveAt(cfg, p, evs, n) != {} && MakesWhole(cfg, p, evs, n)
    ensures AllCome(cfg, p, evs, i, n)
  {
  }

  /** A completion has a window: its opening, and every fragment in time since. */
  lemma {:induction false} CompletionWindow(cfg: Config, p: Plan, evs: seq<Event>, from: nat, n: nat) returns (i: nat)
    requires from <= n && Faithful(p, evs) && 0 < |p.chunks| && MakesWhole(cfg, p, evs, n)
    requires HeldAfter(cfg, p, evs, from).batch == {}
    ensures from <= i && AllCome(cfg, p, evs, i, n)
  {
    if AliveAt(cfg, p, evs, n) == {} {
      i := n;
    } else {
      i := OpeningOf(cfg, p, evs, from, n);
      WindowCloses(cfg, p, evs, i, n);
    }
  }

  /**
   * With nothing held at first, a message is completed if and only if every fragment of it comes
   * between an opening and its deadline.
   */
  lemma {:induction false} CompletedIffAllCome(cfg: Config, p: Plan, evs: seq<Event>, from: nat)
    requires from <= |evs| && Faithful(p, evs) && 0 < |p.chunks| && HeldAfter(cfg, p, evs, from).batch == {}
    ensures CompletedSince(cfg, p, evs, from) <==> AllComeSince(cfg, p, evs, from)
  {
    if CompletedSince(cfg, p, evs, from) {
      var n: nat :| from <= n && MakesWhole(cfg, p, evs, n);
      var i := CompletionWindow(cfg, p, evs, from, n);
    }
    if AllComeSince(cfg, p, evs, from) {
      var i: nat, m: nat :| from <= i && AllCome(cfg, p, evs, i, m);
      var n := WindowCompletes(cfg, p, evs, i, m);
    }
  }

  /** A completion leaves nothing held. */
  lemma CompletionEmpties(cfg: Config, p: Plan, evs: seq<Event>, c: nat)
    requires MakesWhole(cfg, p, evs, c)
    ensures HeldAfter(cfg, p, evs, c + 1).batch == {}
  {
  }

  /** A message of one fragment is completed by every event of its key. */
  lemma {:induction false} SingleCompletes(cfg: Config, p: Plan, evs: seq<Event>, n: nat)
    requires |p.chunks| == 1 && Faithful(p, evs) && n < |evs| && About(evs[n], p.key)
    ensures MakesWhole(cfg, p, evs, n)
  {
    assert IsPiece(p, evs[n]);
    assert 0 in Brings(p, evs[n]);
  }

  lemma HalfMissing(p: Plan, id: nat)
    requires |p.chunks| == 2
    ensures !Covers(p, {id})
  {
    var alone, other := {id}, if id == 0 then 1 else 0;
    assert other !in alone;
  }

  /** Half of a two-fragment message, coming to nothing held. */
  lemma HalfHeld(cfg: Config, p: Plan, evs: seq<Event>, m: nat, id: nat)
    requires |p.chunks| == 2 && m < |evs| && AliveAt(cfg, p, evs, m) == {} && Brings(p, evs[m]) == {id}
    ensures !MakesWhole(cfg, p, evs, m) && HeldAfter(cfg, p, evs, m + 1) == Held({id}, evs[m].later)
  {
    HalfMissing(p, id);
    assert AliveAt(cfg, p, evs, m) + Brings(p, evs[m]) == {id};
  }

  lemma HalvesCover(p: Plan, evs: seq<Event>, c: nat)
    requires |p.chunks| == 2 && |evs| == c + 2 && Brings(p, evs[c]) == {0} && Brings(p, evs[c + 1]) == {1}
    ensures Covers(p, Seen(p, evs, c, |evs|))
  {
    assert Seen(p, evs, c, c) == {};
    assert Seen(p, evs, c, c + 1) == {0};
  }

  lemma {:induction false} LateHalves(cfg: Config, p: Plan, evs: seq<Event>, m: nat)
    requires |p.chunks| == 2 && m + 1 < |evs| && HeldAfter(cfg, p, evs, m).batch == {}
    requires Brings(p, evs[m]) == {0} && Brings(p, evs[m + 1]) == {1}
    requires evs[m + 1].now - evs[m].later >= cfg.timeout
    ensures !MakesWhole(cfg, p, evs, m) && !MakesWhole(cfg, p, evs, m + 1)
  {
    HalfHeld(cfg, p, evs, m, 0);
    HalfHeld(cfg, p, evs, m + 1, 1);
  }

  /** All fragments come again, and still nothing is completed again. */
  lemma {:induction false} ExpiredNotAgain(cfg: Config, p: Plan, evs: seq<Event>, c: nat)
    requires |p.chunks| == 2 && |evs| == c + 3 && MakesWhole(cfg, p, evs, c)
    requires Brings(p, evs[c + 1]) == {0} && Brings(p, evs[c + 2]) == {1}
    requires evs[c + 2].now - evs[c + 1].later >= cfg.timeout
    ensures Covers(p, Seen(p, evs, c + 1, |evs|)) && !CompletedSince(cfg, p, evs, c + 1)
  {
    HalvesCover(p, evs, c + 1);
    CompletionEmpties(cfg, p, evs, c);
    LateHalves(cfg, p, evs, c + 1);
    forall n: nat | c + 1 <= n
      ensures !MakesWhole(cfg, p, evs, n)
    {
      assert n == c + 1 || n == c + 2 || n >= |evs|;
    }
  }

  /**
   * Late duplicates of a two-fragment message, both of them, the second past the deadline of the
   * first: every fragment comes again after the delivery at `c`, and nothing is delivered again.
   */
  lemma {:induction false} ExpiredNotRedelivered(cfg: Config, st: State, evs: seq<Event>, p: Plan, c: nat)
    requires ValidConfig(cfg) && Valid(cfg, st) && PlanOk(cfg, p) && View(st, p.key).None?
    requires Faithful(p, evs) && Roomy(cfg, st, evs, p)
    requires |p.chunks| == 2 && |evs| == c + 3 && MakesWhole(cfg, p, evs, c)
    requires Brings(p, evs[c + 1]) == {0} && Brings(p, evs[c + 2]) == {1}
    requires evs[c + 2].now - evs[c + 1].later >= cfg.timeout
    ensures Trace(cfg, st, evs)[c].message == Some(Whole(p)) && Covers(p, Seen(p, evs, c + 1, |evs|))
    ensures Trace(cfg, st, evs)[c + 1].message.None? && Trace(cfg, st, evs)[c + 2].message.None?
  {
    ExpiredNotAgain(cfg, p, evs, c);
    PlanDelivered(cfg, st, evs, p, c);
    PlanDelivered(cfg, st, evs, p, c + 1);
    PlanDelivered(cfg, st, evs, p, c + 2);
  }

  /** Event `c` delivers a message of the key, and no other event does. */
  ghost predicate OnlyDelivery(evs: seq<Event>, trace: seq<Outcome>, c: nat, k: Key)
    requires |evs| == |trace|
  {
    c < |evs| && forall n :: 0 <= n < |evs| ==> (DeliversAt(evs, trace, n, k) <==> n == c)
  }

  lemma {:induction false} OnlyIffNotAgain(cfg: Config, p: Plan, evs: seq<Event>, trace: seq<Outcome>, c: nat)
    requires |evs| == |trace| && MakesWhole(cfg, p, evs, c) && forall j :: 0 <= j < c ==> !MakesWhole(cfg, p, evs, j)
    requires forall n :: 0 <= n < |evs| ==> (DeliversAt(evs, trace, n, p.key) <==> MakesWhole(cfg, p, evs, n))
    ensures OnlyDelivery(evs, trace, c, p.key) <==> !CompletedSince(cfg, p, evs, c + 1)
  {
    if CompletedSince(cfg, p, evs, c + 1) {
      var n: nat :| c + 1 <= n && MakesWhole(cfg, p, evs, n);
      assert DeliversAt(evs, trace, n, p.key);
    }
  }

  /** The first completion is the only delivery if and only if the fragments do not all come again in time. */
  lemma {:induction false} DeliveredOnceIff(cfg: Config, st: State, evs: seq<Event>, p: Plan, c: nat)
    requires ValidConfig(cfg) && Valid(cfg, st) && PlanOk(cfg, p) && View(st, p.key).None?
    requires Faithful(p, evs) && Roomy(cfg, st, evs, p)
    requires MakesWhole(cfg, p, evs, c) && forall j :: 0 <= j < c ==> !MakesWhole(cfg, p, evs, j)
    ensures OnlyDelivery(evs, Trace(cfg, st, evs), c, p.key) <==> !AllComeSince(cfg, p, evs, c + 1)
  {
    forall n | 0 <= n < |evs|
      ensures DeliversAt(evs, Trace(cfg, st, evs), n, p.key) <==> MakesWhole(cfg, p, evs, n)
    {
      PlanDelivered(cfg, st, evs, p, n);
    }
    CompletionEmpties(cfg, p, evs, c);
    CompletedIffAllCome(cfg, p, evs, c + 1);
    OnlyIffNotAgain(cfg, p, evs, Trace(cfg, st, evs), c);
  }

  // ----- the fragmenter's own frames

  /** The receiver's key of a message sent with this envelope over this ingress. */
  function KeyOf(e: Envelope, ingress: Option<string>): Key {
    Key(Ingress(ingress), e.source, e.destination, e.messageType, e.mid)
  }

  /** The header the receiver decodes is the one that was encoded. */
  lemma FrameDecodes(e: Envelope, fid: byte, last: bool, payload: seq<byte>, ingress: Option<string>)
    requires |payload| + HEADER_SIZE <= MAX_CMDU && |Ingress(ingress)| < INGRESS_SIZE
    ensures Decode(Frame(e, fid, last, payload), ingress)
         == Accepted(Fragment(KeyOf(e, ingress), e.relay, fid, last, payload))
  {
    FrameOctets(e, fid, last, payload);
  }

  /** The receiver's view of a message sent in these chunks. */
  function PlanOf(e: Envelope, chunks: seq<seq<Tlv>>, ingress: Option<string>): Plan {
    Plan(KeyOf(e, ingress), e.relay, chunks)
  }

  lemma {:induction false} FlattenCounts(chunks: seq<seq<Tlv>>, f: nat)
    requires f < |chunks|
    ensures |chunks[f]| <= |Flatten(chunks)|
    decreases |chunks|
  {
    if f < |chunks| - 1 {
      FlattenCounts(chunks[..|chunks| - 1], f);
    }
  }

  /** What the fragmenter's split promises of each chunk, apart from being encodable. */
  predicate Sendable(chunks: seq<seq<Tlv>>) {
    && ChunksEncodable(chunks)
    && forall f :: 0 <= f < |chunks| ==>
         && Size(chunks[f]) + 3 + HEADER_SIZE <= MAX_CMDU && |chunks[f]| <= MAX_TLVS
         && (f < |chunks| - 1 ==> |chunks[f]| > 0)
  }

  lemma {:induction false} SentSendable(tlvs: seq<Tlv>, mtu: nat)
    requires Acceptable(tlvs, mtu) && ChunksEncodable(Sent(tlvs, mtu))
    ensures Sendable(Sent(tlvs, mtu)) && Flatten(Sent(tlvs, mtu)) == tlvs
  {
    var chunks := Sent(tlvs, mtu);
    PackIsSplit(tlvs, mtu - HEADER_SIZE);
    NoEmptyFragment(tlvs, mtu - HEADER_SIZE);
    forall f | 0 <= f < |chunks|
      ensures |chunks[f]| <= MAX_TLVS && Fits(chunks[f], mtu - HEADER_SIZE)
      ensures f < |chunks| - 1 ==> |chunks[f]| > 0
    {
      FlattenCounts(chunks, f);
      assert tlvs == [] || NoneEmpty(chunks);
    }
  }

  /** Frame `f` of a message is piece `f` of its plan. */
  lemma {:induction false} FrameIsPiece(e: Envelope, chunks: seq<seq<Tlv>>, ingress: Option<string>, f: nat, ev: Event)
    requires Sendable(chunks) && f < |chunks| && |Ingress(ingress)| < INGRESS_SIZE
    requires ev.ingress == ingress && ev.frame == FrameOf(e, chunks, f)
    ensures IsPiece(PlanOf(e, chunks, ingress), ev) && FragmentOf(ev).fid == f
  {
    var last := f == |chunks| - 1;
    PayloadEncoded(chunks[f], last, if last then END else []);
    FrameDecodes(e, f, last, ChunkPayload(chunks, f), ingress);
  }

  /** An event of the run is one of the message's own frames, or not about its key at all. */
  predicate OwnOrOther(frames: seq<seq<byte>>, ingress: Option<string>, k: Key, ev: Event) {
    !About(ev, k) || (ev.ingress == ingress && ev.frame in frames)
  }

  lemma {:induction false} OwnIsFaithful(evs: seq<Event>, e: Envelope, chunks: seq<seq<Tlv>>, ingress: Option<string>)
    requires Sendable(chunks) && |Ingress(ingress)| < INGRESS_SIZE
    requires forall i :: 0 <= i < |evs| ==> OwnOrOther(Frames(e, chunks), ingress, KeyOf(e, ingress), evs[i])
    ensures Faithful(PlanOf(e, chunks, ingress), evs)
  {
    forall i | 0 <= i < |evs| && About(evs[i], KeyOf(e, ingress))
      ensures IsPiece(PlanOf(e, chunks, ingress), evs[i])
    {
      var frames := Frames(e, chunks);
      assert OwnOrOther(frames, ingress, KeyOf(e, ingress), evs[i]);
      var f :| 0 <= f < |frames| && frames[f] == evs[i].frame;
      FrameIsPiece(e, chunks, ingress, f, evs[i]);
    }
  }

  /** The message that goes in. */
  function SentMessage(e: Envelope, tlvs: seq<Tlv>, fragments: nat): Message {
    Message(e.destination, e.source, e.messageType, e.mid, e.relay, tlvs, fragments)
  }

  /** The fragmenter accepts the message, and it is within the receiver's limits. */
  ghost predicate Carried(cfg: Config, e: Envelope, tlvs: seq<Tlv>, mtu: nat, chunks: seq<seq<Tlv>>,
                          ingress: Option<string>) {
    && Acceptable(tlvs, mtu) && chunks == Sent(tlvs, mtu) && ChunksEncodable(chunks)
    && |chunks| <= cfg.maxFragments && Size(tlvs) <= cfg.maxMessageBytes && |Ingress(ingress)| < INGRESS_SIZE
  }

  /** Every event is one of the message's frames, or not about its key. */
  ghost predicate Interleaved(e: Envelope, chunks: seq<seq<Tlv>>, ingress: Option<string>, evs: seq<Event>) {
    && ChunksEncodable(chunks)
    && forall i :: 0 <= i < |evs| ==> OwnOrOther(Frames(e, chunks), ingress, KeyOf(e, ingress), evs[i])
  }

  lemma {:induction false} CarriedPlan(cfg: Config, evs: seq<Event>, e: Envelope, tlvs: seq<Tlv>, mtu: nat,
                                       chunks: seq<seq<Tlv>>, ingress: Option<string>)
    requires Carried(cfg, e, tlvs, mtu, chunks, ingress) && Interleaved(e, chunks, ingress, evs)
    ensures var p := PlanOf(e, chunks, ingress);
            PlanOk(cfg, p) && Faithful(p, evs) && Whole(p) == SentMessage(e, tlvs, |chunks|)
  {
    SentSendable(tlvs, mtu);
    OwnIsFaithful(evs, e, chunks, ingress);
  }

  /**
   * The round trip. Of a message the fragmenter accepts and that is within the receiver's limits,
   * each event delivers the whole message, its TLVs in order, exactly when it brings the last
   * frame missing of those held, and else nothing: whatever the order and the times of the frames,
   * their repetition and the frames of other keys between, from any reachable state that has no
   * context for the key, as long as a slot and room are there for it.
   */
  lemma {:induction false} RoundTrips(cfg: Config, st: State, evs: seq<Event>, e: Envelope, tlvs: seq<Tlv>, mtu: nat,
                                      chunks: seq<seq<Tlv>>, ingress: Option<string>, n: nat)
    requires ValidConfig(cfg) && Valid(cfg, st) && n < |evs| && View(st, KeyOf(e, ingress)).None?
    requires Carried(cfg, e, tlvs, mtu, chunks, ingress) && Interleaved(e, chunks, ingress, evs)
    requires Roomy(cfg, st, evs, PlanOf(e, chunks, ingress))
    ensures About(evs[n], KeyOf(e, ingress)) ==>
              Trace(cfg, st, evs)[n].message ==
              if MakesWhole(cfg, PlanOf(e, chunks, ingress), evs, n) then Some(SentMessage(e, tlvs, |chunks|)) else None
  {
    CarriedPlan(cfg, evs, e, tlvs, mtu, chunks, ingress);
    PlanDelivered(cfg, st, evs, PlanOf(e, chunks, ingress), n);
  }

  /**
   * Delivered exactly once: if every frame comes in time after an opening, the first event that
   * makes the message whole delivers it, and it is the only one to deliver if and only if the
   * frames do not all come again after it between an opening and its deadline.
   */
  lemma {:induction false} RoundTripsOnceIff(cfg: Config, st: State, evs: seq<Event>, e: Envelope, tlvs: seq<Tlv>,
                                             mtu: nat, chunks: seq<seq<Tlv>>, ingress: Option<string>)
    returns (c: nat)
    requires ValidConfig(cfg) && Valid(cfg, st) && View(st, KeyOf(e, ingress)).None?
    requires Carried(cfg, e, tlvs, mtu, chunks, ingress) && Interleaved(e, chunks, ingress, evs)
    requires Roomy(cfg, st, evs, PlanOf(e, chunks, ingress))
    requires AllComeSince(cfg, PlanOf(e, chunks, ingress), evs, 0)
    ensures c < |evs| && Trace(cfg, st, evs)[c].message == Some(SentMessage(e, tlvs, |chunks|))
    ensures OnlyDelivery(evs, Trace(cfg, st, evs), c, KeyOf(e, ingress))
       <==> !AllComeSince(cfg, PlanOf(e, chunks, ingress), evs, c + 1)
  {
    var p := PlanOf(e, chunks, ingress);
    CarriedPlan(cfg, evs, e, tlvs, mtu, chunks, ingress);
    CompletedIffAllCome(cfg, p, evs, 0);
    var n: nat :| MakesWhole(cfg, p, evs, n);
    c := FirstFrom(cfg, p, evs, 0, n);
    PlanDelivered(cfg, st, evs, p, c);
    DeliveredOnceIff(cfg, st, evs, p, c);
  }

  lemma {:induction false} FirstFrom(cfg: Config, p: Plan, evs: seq<Event>, i: nat, n: nat) returns (c: nat)
    requires i <= n && MakesWhole(cfg, p, evs, n) && forall j :: 0 <= j < i ==> !MakesWhole(cfg, p, evs, j)
    ensures MakesWhole(cfg, p, evs, c) && forall j :: 0 <= j < c ==> !MakesWhole(cfg, p, evs, j)
    decreases n - i
  {
    c := i;
    if !MakesWhole(cfg, p, evs, i) {
      c := FirstFrom(cfg, p, evs, i + 1, n);
    }
  }

  /** Nothing is held before the first event of the key. */
  lemma {:induction false} NothingHeld(cfg: Config, p: Plan, evs: seq<Event>, i: nat)
    requires i <= |evs| && 0 < |p.chunks| && forall j :: 0 <= j < i ==> !About(evs[j], p.key)
    ensures HeldAfter(cfg, p, evs, i).batch == {}
    decreases i
  {
    if i > 0 {
      NothingHeld(cfg, p, evs, i - 1);
      }
  }

  /** In particular: if every frame comes before the deadline the first one sets, the message is delivered by then. */
  lemma {:induction false} DeliveredInTime(cfg: Config, st: State, evs: seq<Event>, e: Envelope, tlvs: seq<Tlv>,
                                           mtu: nat, chunks: seq<seq<Tlv>>, ingress: Option<string>, i: nat, m: nat)
    returns (c: nat)
    requires ValidConfig(cfg) && Valid(cfg, st) && View(st, KeyOf(e, ingress)).None?
    requires Carried(cfg, e, tlvs, mtu, chunks, ingress) && Interleaved(e, chunks, ingress, evs)
    requires Roomy(cfg, st, evs, PlanOf(e, chunks, ingress)) && InTime(cfg, evs, i, m)
    requires About(evs[i], KeyOf(e, ingress)) && forall j :: 0 <= j < i ==> !About(evs[j], KeyOf(e, ingress))
    requires Covers(PlanOf(e, chunks, ingress), Seen(PlanOf(e, chunks, ingress), evs, i, m + 1))
    ensures i <= c <= m && Trace(cfg, st, evs)[c].message == Some(SentMessage(e, tlvs, |chunks|))
  {
    var p := PlanOf(e, chunks, ingress);
    CarriedPlan(cfg, evs, e, tlvs, mtu, chunks, ingress);
    NothingHeld(cfg, p, evs, i);
    assert AllCome(cfg, p, evs, i, m);
    c := WindowCompletes(cfg, p, evs, i, m);
    PlanDelivered(cfg, st, evs, p, c);
  }
}
