/** What the steering coordinator answers, to which request and when: exactly, in octets (c/src/bhsteer.c). */
module SteeringAnswers {
  import opened Bytes
  import opened Tlvs
  import opened Steering
  import opened SteeringRuns

  // ----- the request

  /** The first six octets are no group address and not all zero. */
  predicate Individual(m: seq<byte>) {
    |m| >= 6 && m[0] % 2 == 0 && exists k :: 0 <= k < 6 && m[k] != 0
  }

  lemma UnicastIffIndividual(m: seq<byte>)
    requires |m| >= 6
    ensures Unicast(m) <==> Individual(m)
  {
    var zero: seq<byte> := [0, 0, 0, 0, 0, 0];
    if forall k :: 0 <= k < 6 ==> m[k] == 0 {
      assert m[..6] == zero;
    } else {
      var k :| 0 <= k < 6 && m[k] != 0;
      assert m[..6][k] != zero[k];
    }
  }

  /** The TLV at `i` is this one, and it alone is a Backhaul Steering Request. */
  predicate SoleAt(tlvs: seq<Tlv>, t: Tlv, i: nat) {
    && i < |tlvs| && tlvs[i] == t && t.kind == 0x9E
    && forall j :: 0 <= j < |tlvs| && j != i ==> tlvs[j].kind != 0x9E
  }

  ghost predicate Sole(tlvs: seq<Tlv>, t: Tlv) {
    exists i: nat :: SoleAt(tlvs, t, i)
  }

  /** The message has one request TLV: these 14 octets, its station an individual address. */
  ghost predicate Asks(m: Message, r: Request) {
    Individual(r) && Sole(m.tlvs, Tlv(0x9E, r))
  }

  lemma {:induction false} NoRequestTlvs(tlvs: seq<Tlv>)
    ensures RequestTlvs(tlvs) == [] <==> forall j :: 0 <= j < |tlvs| ==> tlvs[j].kind != 0x9E
    decreases |tlvs|
  {
    if tlvs != [] {
      NoRequestTlvs(tlvs[..|tlvs| - 1]);
    }
  }

  lemma {:induction false} OneRequestTlv(tlvs: seq<Tlv>, t: Tlv)
    ensures RequestTlvs(tlvs) == [t] <==> Sole(tlvs, t)
    decreases |tlvs|
  {
    if tlvs != [] {
      var n := |tlvs| - 1;
      OneRequestTlv(tlvs[..n], t);
      if tlvs[n].kind == 0x9E {
        LastRequest(tlvs, t);
      } else {
        EarlierRequest(tlvs, t);
      }
    }
  }

  lemma SnocIsOne(a: seq<Tlv>, x: Tlv, t: Tlv)
    ensures a + [x] == [t] <==> a == [] && x == t
  {
    assert |a + [x]| == |a| + 1 && (a + [x])[|a|] == x;
  }

  lemma {:induction false} LastRequest(tlvs: seq<Tlv>, t: Tlv)
    requires tlvs != [] && tlvs[|tlvs| - 1].kind == 0x9E
    ensures RequestTlvs(tlvs) == [t] <==> Sole(tlvs, t)
  {
    var n := |tlvs| - 1;
    NoRequestTlvs(tlvs[..n]);
    assert Sole(tlvs, t) <==> SoleAt(tlvs, t, n);
    assert RequestTlvs(tlvs) == RequestTlvs(tlvs[..n]) + [tlvs[n]];
    SnocIsOne(RequestTlvs(tlvs[..n]), tlvs[n], t);
  }

  lemma {:induction false} EarlierRequest(tlvs: seq<Tlv>, t: Tlv)
    requires tlvs != [] && tlvs[|tlvs| - 1].kind != 0x9E
    ensures Sole(tlvs, t) <==> Sole(tlvs[..|tlvs| - 1], t)
  {
    var before := tlvs[..|tlvs| - 1];
    if Sole(tlvs, t) {
      var i: nat :| SoleAt(tlvs, t, i);
      assert SoleAt(before, t, i);
    }
    if Sole(before, t) {
      var i: nat :| SoleAt(before, t, i);
      assert SoleAt(tlvs, t, i);
    }
  }

  /** The coordinator takes a message for a request exactly when it asks for something. */
  lemma {:induction false} RequestIffAsked(m: Message, r: Request)
    ensures RequestOf(m) == Some(r) <==> Asks(m, r)
  {
    var ts := RequestTlvs(m.tlvs);
    UnicastIffIndividual(r);
    OneRequestTlv(m.tlvs, Tlv(0x9E, r));
    if |ts| == 1 {
      assert ts == [ts[0]];
      OneRequestTlv(m.tlvs, ts[0]);
    }
  }

  // ----- the answers kept

  /** Answer `i` is for the MID and has not expired. */
  predicate LiveAt(answers: seq<Answer>, mid: word, now: real, i: nat) {
    i < |answers| && answers[i].mid == mid && answers[i].expiry > now
  }

  ghost predicate Live(answers: seq<Answer>, mid: word, now: real) {
    exists i: nat :: LiveAt(answers, mid, now, i)
  }

  lemma {:induction false} PurgedIffLive(answers: seq<Answer>, mid: word, now: real, a: Answer)
    ensures a in Purge(answers, now) <==> a in answers && a.expiry > now
    decreases |answers|
  {
    if answers != [] {
      PurgedIffLive(answers[..|answers| - 1], mid, now, a);
    }
  }

  /** After the purge a MID has a slot exactly when it has a live answer, which is then the one in the slot. */
  lemma {:induction false} SlotIffLive(answers: seq<Answer>, mid: word, now: real)
    requires DistinctMids(answers)
    ensures var live := Purge(answers, now);
            && (SlotOf(live, mid).Some? <==> Live(answers, mid, now))
            && forall i: nat :: LiveAt(answers, mid, now, i) ==>
                                  SlotOf(live, mid).Some? && live[SlotOf(live, mid).value] == answers[i]
  {
    var live := Purge(answers, now);
    var slot := SlotOf(live, mid);
    if slot.Some? {
      PurgedIffLive(answers, mid, now, live[slot.value]);
      var j: nat :| j < |answers| && answers[j] == live[slot.value];
      assert LiveAt(answers, mid, now, j);
      assert forall i: nat :: LiveAt(answers, mid, now, i) ==> i == j;
    } else {
      forall i: nat
        ensures !LiveAt(answers, mid, now, i)
      {
        if LiveAt(answers, mid, now, i) {
          PurgedIffLive(answers, mid, now, answers[i]);
          assert false;
        }
      }
    }
  }

  // ----- what is said to a request

  /** A request of the session's controller to this agent, and not relayed. */
  predicate FromController(s: Session, m: Message) {
    m.messageType == 0x8019 && m.source == s.controller && m.destination == s.localAl && !m.relay
  }

  /** The response's TLVs, octet by octet: station, target and status, and an Error Code if it failed. */
  function Succeeded(station: Mac, r: Request): seq<Tlv> {
    [Tlv(0x9F, station + r[6..12] + [0x00])]
  }

  function RefusedWith(code: byte, station: Mac, r: Request): seq<Tlv> {
    [Tlv(0x9F, station + r[6..12] + [0x01]), Tlv(0xA3, [code] + station)]
  }

  lemma ResponseOctets(station: Mac, r: Request, error: byte)
    ensures ResponseTlvs(station, r, error)
         == if error == 0 then Succeeded(station, r) else RefusedWith(error, station, r)
  {
  }

  /** What is not a request of the controller, or asks for nothing, is neither answered nor acknowledged. */
  lemma {:induction false} SilentExactly(s: Session, sh: Shared, m: Message, now: real, stations: seq<Mac>,
                                         answer: Option<string>)
    ensures var h := Handle(s, sh, m, now, stations, answer);
            && (h.effects == [] <==> !FromController(s, m) || forall r :: !Asks(m, r))
            && (h.verdict == NotARequest <==> m.messageType != 0x8019)
            && (h.verdict == Rejected <==> m.messageType == 0x8019 && h.effects == [])
            && (h.effects != [] ==> h.effects[0] == AckSent(m.mid))
  {
    forall r
      ensures RequestOf(m) == Some(r) <==> Asks(m, r)
    {
      RequestIffAsked(m, r);
    }
  }

  /** A MID with a live answer is acknowledged and given that answer again, whatever it asks for now. */
  lemma {:induction false} RepeatExactly(s: Session, sh: Shared, m: Message, r: Request, now: real, stations: seq<Mac>,
                                         answer: Option<string>, i: nat)
    requires Valid(sh) && FromController(s, m) && Asks(m, r) && LiveAt(sh.answered, m.mid, now, i)
    ensures var h, a := Handle(s, sh, m, now, stations, answer), sh.answered[i];
            && h.verdict == RepeatedResponse && h.shared.pending == sh.pending
            && h.effects == [AckSent(m.mid), ResponseSent(m.mid, ResponseTlvs(a.station, a.request, a.error))]
  {
    RequestIffAsked(m, r);
    SlotIffLive(sh.answered, m.mid, now);
  }

  /** The pending MID again is only acknowledged. */
  lemma {:induction false} PendingExactly(s: Session, sh: Shared, m: Message, r: Request, now: real, stations: seq<Mac>,
                                          answer: Option<string>)
    requires Valid(sh) && FromController(s, m) && Asks(m, r) && !Live(sh.answered, m.mid, now)
    requires sh.pending.Some? && sh.pending.value.mid == m.mid
    ensures var h := Handle(s, sh, m, now, stations, answer);
            h.verdict == RepeatedAck && h.shared.pending == sh.pending && h.effects == [AckSent(m.mid)]
  {
    RequestIffAsked(m, r);
    SlotIffLive(sh.answered, m.mid, now);
  }

  /** The MID is new: neither answered nor pending. */
  ghost predicate New(sh: Shared, mid: word, now: real) {
    !Live(sh.answered, mid, now) && (sh.pending.Some? ==> sh.pending.value.mid != mid)
  }

  /** Nothing stands in the way of asking the executor. */
  predicate Clear(s: Session, sh: Shared, r: Request, stations: seq<Mac>) {
    r[..6] in stations && Individual(r[6..]) && sh.pending.None? && !s.closed && s.hasExecutor
  }

  /** Why the executor is not asked: an unknown station first, then the target, a move under way, a closed session. */
  function Obstacle(s: Session, sh: Shared, r: Request, stations: seq<Mac>): string {
    if r[..6] !in stations then "not_backhaul_station"
    else if !Individual(r[6..]) then "invalid_target"
    else if sh.pending.Some? then "move_in_progress"
    else "session_closed"
  }

  /** The Error Code of an executor's refusal: 0x04 for its channel, else 0x06. */
  function CodeFor(why: string): byte {
    if why in {"no_station_on_band", "channel_not_operable"} then 0x04 else 0x06
  }

  /** What is said after the acknowledgement of a new request. */
  function Said(s: Session, sh: Shared, mid: word, r: Request, stations: seq<Mac>,
                answer: Option<string>): seq<Effect> {
    if !Clear(s, sh, r, stations) then [ResponseSent(mid, RefusedWith(0x06, r[..6], r))]
    else if answer.Some? then
      [ExecutorCalled(mid, r), ResponseSent(mid, RefusedWith(CodeFor(answer.value), r[..6], r))]
    else [ExecutorCalled(mid, r), MoveStarted(mid, r)]
  }

  lemma RefusalOctets(sh: Shared, mid: word, r: Request, reason: string, now: real)
    ensures Refuse(sh, mid, r, reason, now).effects == [ResponseSent(mid, RefusedWith(CodeFor(reason), r[..6], r))]
  {
    ResponseOctets(r[..6], r, ErrorOf(reason));
  }

  lemma {:induction false} BeginExactly(s: Session, sh: Shared, mid: word, r: Request, now: real, stations: seq<Mac>,
                                        answer: Option<string>)
    ensures var h := Begin(s, sh, mid, r, now, stations, answer);
            && h.effects == Said(s, sh, mid, r, stations, answer)
            && h.verdict == (if !Clear(s, sh, r, stations) then Refused(Obstacle(s, sh, r, stations))
                             else if answer.Some? then Refused(answer.value) else Started)
            && h.shared.pending == if h.verdict == Started then Some(Move(mid, r, now + 120.0)) else sh.pending
  {
    UnicastIffIndividual(r[6..]);
    if !Clear(s, sh, r, stations) {
      RefusalOctets(sh, mid, r, Obstacle(s, sh, r, stations), now);
    } else if answer.Some? {
      RefusalOctets(sh, mid, r, answer.value, now);
    }
  }

  /**
   * A new request, exactly: an obstacle is answered with code 0x06 and the executor is not called;
   * without one it is called once, and its refusal is answered with the code for it, while its
   * consent starts the move, to be done in 120 s.
   */
  lemma {:induction false} NewRequestExactly(s: Session, sh: Shared, m: Message, r: Request, now: real,
                                             stations: seq<Mac>, answer: Option<string>)
    requires Valid(sh) && FromController(s, m) && Asks(m, r) && New(sh, m.mid, now)
    ensures var h := Handle(s, sh, m, now, stations, answer);
            && h.effects == [AckSent(m.mid)] + Said(s, sh, m.mid, r, stations, answer)
            && h.verdict == (if !Clear(s, sh, r, stations) then Refused(Obstacle(s, sh, r, stations))
                             else if answer.Some? then Refused(answer.value) else Started)
            && h.shared.pending == if h.verdict == Started then Some(Move(m.mid, r, now + 120.0)) else sh.pending
  {
    RequestIffAsked(m, r);
    SlotIffLive(sh.answered, m.mid, now);
    BeginExactly(s, sh.(answered := Purge(sh.answered, now)), m.mid, r, now, stations, answer);
  }

  /** Everything that has to hold for an event to start a move for this request. */
  ghost predicate Starts(st: State, e: Event, mid: word, r: Request) {
    && e.HandleEvent? && st.session.Some? && FromController(st.session.value, e.message) && e.message.mid == mid
    && Asks(e.message, r) && New(st.shared, mid, e.now) && Clear(st.session.value, st.shared, r, e.stations)
    && e.answer.None?
  }

  lemma {:induction false} HandleStartsIff(s: Session, sh: Shared, m: Message, now: real, stations: seq<Mac>,
                                           answer: Option<string>, mid: word, r: Request)
    requires Valid(sh)
    ensures MoveStarted(mid, r) in Handle(s, sh, m, now, stations, answer).effects
       <==> && FromController(s, m) && m.mid == mid && Asks(m, r) && New(sh, mid, now)
            && Clear(s, sh, r, stations) && answer.None?
  {
    SilentExactly(s, sh, m, now, stations, answer);
    if FromController(s, m) && exists q :: Asks(m, q) {
      var q :| Asks(m, q);
      RequestIffAsked(m, q);
      RequestIffAsked(m, r);
      if Live(sh.answered, m.mid, now) {
        var i: nat :| LiveAt(sh.answered, m.mid, now, i);
        RepeatExactly(s, sh, m, q, now, stations, answer, i);
      } else if sh.pending.Some? && sh.pending.value.mid == m.mid {
        PendingExactly(s, sh, m, q, now, stations, answer);
      } else {
        NewRequestExactly(s, sh, m, q, now, stations, answer);
      }
    }
  }

  /**
   * An event starts a move if and only if it is a well-formed request of the session's controller
   * with a new MID, for a known station and an individual target, with nothing pending, the
   * session open and the executor willing.
   */
  lemma {:induction false} StartsExactly(st: State, e: Event, mid: word, r: Request)
    requires Valid(st.shared)
    ensures MoveStarted(mid, r) in Step(st, e).effects <==> Starts(st, e, mid, r)
  {
    if st.session.Some? && e.HandleEvent? {
      HandleStartsIff(st.session.value, st.shared, e.message, e.now, e.stations, e.answer, mid, r);
    }
  }

  // ----- ticks

  /** The move is over for this tick: its outcome is known, cannot be known, or is overdue. */
  predicate Over(s: Session, p: Move, now: real, outcome: Result) {
    !s.hasOutcome || outcome != UnderWay || now >= p.deadline
  }

  /**
   * A tick, exactly: a move is left as it is until it is over, and then while the source is away, up to
   * 30 s past the deadline; after that it is dropped unanswered; with the source there it is answered
   * for the station associated if it was applied, and else with status 0x01 and code 0x06.
   */
  lemma {:induction false} TickExactly(s: Session, sh: Shared, now: real, source: bool, associated: Option<Mac>,
                                       outcome: Result)
    requires sh.pending.Some?
    ensures var p, t := sh.pending.value, Tick(s, sh, now, source, associated, outcome);
            if !Over(s, p, now, outcome) || (!source && now < p.deadline + 30.0) then t == Ticked(sh, [])
            else if !source then t == Ticked(sh.(pending := None), [Unanswered(p.mid)])
            else
              && t.shared.pending.None?
              && t.effects == [ResponseSent(p.mid,
                   if s.hasOutcome && outcome == Applied then
                     Succeeded(if associated.Some? then associated.value else p.request[..6], p.request)
                   else RefusedWith(0x06, p.request[..6], p.request))]
  {
    var p := sh.pending.value;
    ResponseOctets(Named(p.request, associated), p.request, 0);
    ResponseOctets(p.request[..6], p.request, 0x06);
  }

  // ----- what was sent is kept, and sent again

  function TimeOf(e: Event): real {
    match e
    case HandleEvent(_, now, _, _) => now
    case TickEvent(now, _, _, _) => now
    case _ => 0.0
  }

  /** How many answers stand behind the MID's in the table: those answered after it and still there. */
  function Behind(answers: seq<Answer>, mid: word): nat {
    var slot := SlotOf(answers, mid);
    if slot.Some? then |answers| - 1 - slot.value else 0
  }

  /** The table has this answer, and it is the response sent at that time, good for 30 s. */
  ghost predicate KeptAsSent(answers: seq<Answer>, a: Answer, mid: word, ts: seq<Tlv>, now: real) {
    && a.mid == mid && a.expiry == now + 30.0 && ResponseSent(mid, ts) == ResponseOf(a)
    && exists i: nat :: Keeps(answers, a, Behind(answers, mid), i)
  }

  lemma RecordedIsKept(answers: seq<Answer>, a: Answer)
    ensures var r := Record(answers, a);
            && SlotOf(r, a.mid).Some? && Keeps(r, a, Behind(r, a.mid), SlotOf(r, a.mid).value)
            && (SlotOf(answers, a.mid).None? ==> Behind(r, a.mid) == 0)
  {
    var r, slot := Record(answers, a), SlotOf(answers, a.mid);
    var at := if slot.Some? then slot.value else |r| - 1;
    assert r[at] == a;
    RecordedSlot(answers, a);
  }

  /** An answer goes to its MID's slot, where it stays, or to the end. */
  lemma {:induction false} RecordedSlot(answers: seq<Answer>, a: Answer)
    ensures var r, slot := Record(answers, a), SlotOf(answers, a.mid);
            SlotOf(r, a.mid) == Some(if slot.Some? then slot.value else |r| - 1)
  {
    var slot := SlotOf(answers, a.mid);
    if slot.Some? {
      UpdatedSlot(answers, slot.value, a);
    }
  }

  lemma {:induction false} UpdatedSlot(answers: seq<Answer>, i: nat, a: Answer)
    requires SlotOf(answers, a.mid) == Some(i)
    ensures SlotOf(answers[i := a], a.mid) == Some(i)
    decreases |answers|
  {
    var n := |answers| - 1;
    if i < n {
      assert answers[i := a][..n] == answers[..n][i := a];
      UpdatedSlot(answers[..n], i, a);
    }
  }

  lemma {:induction false} HandleKeepsSent(s: Session, sh: Shared, m: Message, now: real, stations: seq<Mac>,
                                           answer: Option<string>, mid: word, ts: seq<Tlv>) returns (a: Answer)
    requires ResponseSent(mid, ts) in Handle(s, sh, m, now, stations, answer).effects
    ensures var h := Handle(s, sh, m, now, stations, answer);
            && KeptAsSent(h.shared.answered, a, mid, ts, now)
            && (h.verdict.Refused? ==> Behind(h.shared.answered, mid) == 0)
  {
    var live, h := Purge(sh.answered, now), Handle(s, sh, m, now, stations, answer);
    var slot := SlotOf(live, m.mid);
    if slot.Some? {
      a := live[slot.value].(expiry := now + ANSWER_LIFE);
    } else {
      a := AnswerTo(m.mid, RequestOf(m).value, ErrorOf(h.verdict.reason), None, now);
    }
    RecordedIsKept(live, a);
  }

  lemma {:induction false} TickKeepsSent(s: Session, sh: Shared, now: real, source: bool, associated: Option<Mac>,
                                         outcome: Result, mid: word, ts: seq<Tlv>) returns (a: Answer)
    requires Valid(sh) && ResponseSent(mid, ts) in Tick(s, sh, now, source, associated, outcome).effects
    ensures var t := Tick(s, sh, now, source, associated, outcome);
            KeptAsSent(t.shared.answered, a, mid, ts, now) && Behind(t.shared.answered, mid) == 0
  {
    var p := sh.pending.value;
    var applied := s.hasOutcome && outcome == Applied;
    a := AnswerTo(p.mid, p.request, if applied then 0 else ASSOCIATION_FAILED,
                  if applied then associated else None, now);
    RecordedIsKept(sh.answered, a);
  }

  /** Whatever response a step sends, the table then has it under its MID for 30 s, last if it is a new answer. */
  lemma {:induction false} SentIsKept(st: State, e: Event, mid: word, ts: seq<Tlv>) returns (a: Answer)
    requires Valid(st.shared) && ResponseSent(mid, ts) in Step(st, e).effects
    ensures var answers := Step(st, e).state.shared.answered;
            && KeptAsSent(answers, a, mid, ts, TimeOf(e))
            && (NewAnswer(st, e) ==> Behind(answers, mid) == 0)
  {
    var s := st.session.value;
    if e.HandleEvent? {
      a := HandleKeepsSent(s, st.shared, e.message, e.now, e.stations, e.answer, mid, ts);
    } else {
      a := TickKeepsSent(s, st.shared, e.now, e.sourceAvailable, e.associated, e.outcome, mid, ts);
    }
  }

  /** The event comes in the 30 s after `from`. */
  predicate Soon(e: Event, from: real) {
    e.HandleEvent? || e.TickEvent? ==> from <= TimeOf(e) < from + 30.0
  }

  /** A request of the session's controller with this MID, whatever it asks for. */
  ghost predicate Requests(st: State, e: Event, mid: word) {
    && e.HandleEvent? && st.session.Some? && FromController(st.session.value, e.message) && e.message.mid == mid
    && exists r :: Asks(e.message, r)
  }

  /**
   * Idempotence from the wire: once a response is sent, a request with its MID within 30 s gets the
   * identical response and nothing else after its acknowledgement, and the executor is not called
   * for that MID meanwhile, as long as fewer than 16 answers stand behind it or are new since.
   */
  lemma {:induction false} ResponseRepeated(st: State, e: Event, mid: word, ts: seq<Tlv>, evs: seq<Event>, again: Event)
    requires Valid(st.shared) && ResponseSent(mid, ts) in Step(st, e).effects
    requires (forall n :: 0 <= n < |evs| ==> Soon(evs[n], TimeOf(e))) && Soon(again, TimeOf(e))
    requires var next := Step(st, e).state;
             && Behind(next.shared.answered, mid) + NewAnswers(next, evs) < 16
             && Requests(Run(next, evs).state, again, mid)
    ensures var next := Step(st, e).state;
            && Step(Run(next, evs).state, again).effects == [AckSent(mid), ResponseSent(mid, ts)]
            && forall x :: x in Run(next, evs).effects ==> !(x.ExecutorCalled? && x.mid == mid)
  {
    var next := Step(st, e).state;
    var a := SentIsKept(st, e, mid, ts);
    StepValid(st, e);
    var rank := Behind(next.shared.answered, mid);
    var i: nat :| Keeps(next.shared.answered, a, rank, i);
    forall n | 0 <= n < |evs|
      ensures During(evs[n], a)
    {
      assert Soon(evs[n], TimeOf(e));
    }
    var r :| Asks(again.message, r);
    RequestIffAsked(again.message, r);
    RepeatedRequestSameAnswer(next, evs, a, rank, i, again);
    ExecutorNotWhileKept(next, evs, a, rank, i);
  }

  /** For a new answer: fewer than 16 new answers since. */
  lemma {:induction false} NewResponseRepeated(st: State, e: Event, mid: word, ts: seq<Tlv>, evs: seq<Event>,
                                               again: Event)
    requires Valid(st.shared) && ResponseSent(mid, ts) in Step(st, e).effects && NewAnswer(st, e)
    requires (forall n :: 0 <= n < |evs| ==> Soon(evs[n], TimeOf(e))) && Soon(again, TimeOf(e))
    requires var next := Step(st, e).state; NewAnswers(next, evs) < 16 && Requests(Run(next, evs).state, again, mid)
    ensures Step(Run(Step(st, e).state, evs).state, again).effects == [AckSent(mid), ResponseSent(mid, ts)]
  {
    var a := SentIsKept(st, e, mid, ts);
    ResponseRepeated(st, e, mid, ts, evs, again);
  }

  // ----- which answer is lost

  /** A new answer takes the place of another exactly when 16 are kept: of the oldest, whatever was repeated since. */
  lemma {:induction false} LostExactly(answers: seq<Answer>, b: Answer, i: nat)
    requires |answers| <= 16 && DistinctMids(answers) && !Cached(answers, b.mid) && i < |answers|
    ensures Cached(Record(answers, b), answers[i].mid) <==> !(i == 0 && |answers| == 16)
  {
    var r := Record(answers, b);
    assert b.mid != answers[i].mid;
    if i > 0 || |answers| < 16 {
      assert r[if |answers| == 16 then i - 1 else i].mid == answers[i].mid;
    } else {
      assert forall j :: 0 <= j < |r| ==> r[j] == if j < 15 then answers[j + 1] else b;
    }
  }

  /** A repeat leaves every answer in its place: the oldest of 16, just repeated, is lost to the next new one. */
  lemma {:induction false} RepeatedOldestIsLost(answers: seq<Answer>, until: real, b: Answer)
    requires |answers| == 16 && DistinctMids(answers) && !Cached(answers, b.mid)
    ensures var again := answers[0].(expiry := until);
            && Record(answers, again) == answers[0 := again]
            && !Cached(Record(Record(answers, again), b), answers[0].mid)
  {
    var again := answers[0].(expiry := until);
    var slot := SlotOf(answers, again.mid);
    assert answers[0].mid == again.mid;
    assert slot == Some(0);
    var r := answers[0 := again];
    assert forall j :: 0 <= j < |r| ==> r[j].mid == answers[j].mid;
    LostExactly(r, b, 0);
  }

  // ----- sessions

  /** No session, or a closed one. */
  predicate Shut(st: State) {
    st.session.None? || st.session.value.closed
  }

  /** A start opens a session with these peers and callbacks over the answers and the move there are. */
  lemma {:induction false} StartsAfresh(st: State, s: Session)
    ensures var next := Step(st, StartEvent(s));
            && !Shut(next.state) && next.effects == [] && next.state.shared == st.shared
            && (var t := next.state.session.value;
                && t.controller == s.controller && t.localAl == s.localAl
                && t.hasExecutor == s.hasExecutor && t.hasOutcome == s.hasOutcome)
            && Shut(Step(next.state, CloseEvent).state) && Step(next.state, CloseEvent).state.shared == st.shared
  {
  }

  lemma {:induction false} ShutStep(st: State, e: Event)
    requires Shut(st) && !e.StartEvent?
    ensures Shut(Step(st, e).state) && forall x :: x in Step(st, e).effects ==> !x.ExecutorCalled? && !x.MoveStarted?
  {
    if st.session.Some? && e.HandleEvent? {
      var s := st.session.value;
      forall x | x in Step(st, e).effects && x.ExecutorCalled?
        ensures false
      {
        ExecutorOnlyForNew(s, st.shared, e.message, e.now, e.stations, e.answer, x);
      }
    }
  }

  /** Once a session is closed no executor is called and no move starts, on any run, until one is started. */
  lemma {:induction false} ClosedStartsNothing(st: State, evs: seq<Event>)
    requires Shut(st) && forall n :: 0 <= n < |evs| ==> !evs[n].StartEvent?
    ensures Shut(Run(st, evs).state) && forall x :: x in Run(st, evs).effects ==> !x.ExecutorCalled? && !x.MoveStarted?
    decreases |evs|
  {
    if evs != [] {
      var n := |evs| - 1;
      ClosedStartsNothing(st, evs[..n]);
      ShutStep(Run(st, evs[..n]).state, evs[n]);
    }
  }
}
