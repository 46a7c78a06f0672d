/** The Backhaul Steering coordinator (c/src/bhsteer.c) as a state machine across sessions. */
module Steering {
  import opened Bytes
  import opened Tlvs
  import Reassembly

  type Message = Reassembly.Message

  const REQUEST: word := 0x8019
  const REQUEST_TLV: byte := 0x9E
  const RESPONSE_TLV: byte := 0x9F
  const ERROR_CODE_TLV: byte := 0xA3
  const CHANNEL_NOT_OPERABLE: byte := 0x04
  const ASSOCIATION_FAILED: byte := 0x06
  const DEADLINE := 120.0
  const ANSWER_LIFE := 30.0
  const GRACE := 30.0
  const ANSWERS := 16

  /** A request's value: station, target, operating class, channel. */
  type Request = r: seq<byte> | |r| == 14 witness [0, 0, 0, 0, 0, 0, 0, 0, 0, 0, 0, 0, 0, 0]

  datatype Answer = Answer(mid: word, request: Request, error: byte, station: Mac, expiry: real)

  datatype Move = Move(mid: word, request: Request, deadline: real)

  /** em_bh_shared: the move under way and the recent answers, kept across sessions. */
  datatype Shared = Shared(pending: Option<Move>, answered: seq<Answer>)

  /** What em_bh_start sets of the coordinator; the callbacks are there or not. */
  datatype Session = Session(controller: Mac, localAl: Mac, hasExecutor: bool, hasOutcome: bool, closed: bool)

  /** What the session sends, calls and decides, in order. */
  datatype Effect =
    | AckSent(mid: word)
    | ResponseSent(mid: word, tlvs: seq<Tlv>)
    | ExecutorCalled(mid: word, request: Request)
    | MoveStarted(mid: word, request: Request)
    | Unanswered(mid: word)

  datatype Label = NotARequest | Rejected | RepeatedResponse | RepeatedAck | Refused(reason: string) | Started

  datatype Handled = Handled(shared: Shared, effects: seq<Effect>, verdict: Label)

  // ----- answers

  /** The response's TLVs: the station named, the target, and an Error Code when it failed. */
  function ResponseTlvs(named: Mac, request: Request, error: byte): seq<Tlv> {
    [Tlv(RESPONSE_TLV, named + request[6..12] + [if error != 0 then 1 else 0])]
    + (if error != 0 then [Tlv(ERROR_CODE_TLV, [error] + named)] else [])
  }

  /** The slot of a MID among the answers: the last one a scan meets. */
  function SlotOf(answers: seq<Answer>, mid: word): (r: Option<nat>)
    ensures r.Some? ==> r.value < |answers| && answers[r.value].mid == mid
    ensures r.None? ==> forall i :: 0 <= i < |answers| ==> answers[i].mid != mid
  {
    if answers == [] then None
    else
      var n := |answers| - 1;
      if answers[n].mid == mid then Some(n) else SlotOf(answers[..n], mid)
  }

  /** An answer kept: in place of one with its MID, else last, the oldest going when all are taken. */
  function Record(answers: seq<Answer>, a: Answer): seq<Answer> {
    var slot := SlotOf(answers, a.mid);
    if slot.Some? then answers[slot.value := a]
    else if |answers| == ANSWERS then answers[1..] + [a]
    else answers + [a]
  }

  function Named(request: Request, station: Option<Mac>): Mac {
    if station.Some? then station.value else request[..6]
  }

  function AnswerTo(mid: word, request: Request, error: byte, station: Option<Mac>, now: real): Answer {
    Answer(mid, request, error, Named(request, station), now + ANSWER_LIFE)
  }

  function ResponseOf(a: Answer): Effect {
    ResponseSent(a.mid, ResponseTlvs(a.station, a.request, a.error))
  }

  /** The answers not yet expired, in their order. */
  function Purge(answers: seq<Answer>, now: real): seq<Answer> {
    if answers == [] then []
    else
      var n := |answers| - 1;
      Purge(answers[..n], now) + (if answers[n].expiry > now then [answers[n]] else [])
  }

  // ----- requests

  function RequestTlvs(tlvs: seq<Tlv>): seq<Tlv> {
    if tlvs == [] then []
    else
      var n := |tlvs| - 1;
      RequestTlvs(tlvs[..n]) + (if tlvs[n].kind == REQUEST_TLV then [tlvs[n]] else [])
  }

  /** The one Backhaul Steering Request TLV of a message, if it is acceptable. */
  function RequestOf(m: Message): Option<Request> {
    var ts := RequestTlvs(m.tlvs);
    if |ts| == 1 && |ts[0].value| == 14 && Unicast(ts[0].value) then Some(ts[0].value) else None
  }

  predicate Bound(s: Session, m: Message) {
    m.source == s.controller && m.destination == s.localAl && !m.relay
  }

  /** Why a request is refused before the executor is asked. */
  function EarlyRefusal(sh: Shared, request: Request, stations: seq<Mac>): Option<string> {
    if request[..6] !in stations then Some("not_backhaul_station")
    else if !Unicast(request[6..]) then Some("invalid_target")
    else if sh.pending.Some? then Some("move_in_progress")
    else None
  }

  function ErrorOf(reason: string): byte {
    if reason == "no_station_on_band" || reason == "channel_not_operable" then CHANNEL_NOT_OPERABLE
    else ASSOCIATION_FAILED
  }

  /** A refusal: its response, kept as the answer. */
  function Refuse(sh: Shared, mid: word, request: Request, reason: string, now: real): Handled {
    var a := AnswerTo(mid, request, ErrorOf(reason), None, now);
    Handled(sh.(answered := Record(sh.answered, a)), [ResponseOf(a)], Refused(reason))
  }

  /** A request that is neither a repeat nor pending. `answer` is the executor's, should it be asked. */
  function Begin(s: Session, sh: Shared, mid: word, request: Request, now: real, stations: seq<Mac>,
                 answer: Option<string>): Handled {
    var early := EarlyRefusal(sh, request, stations);
    if early.Some? then Refuse(sh, mid, request, early.value, now)
    else if s.closed || !s.hasExecutor then Refuse(sh, mid, request, "session_closed", now)
    else if answer.Some? then
      var r := Refuse(sh, mid, request, answer.value, now);
      r.(effects := [ExecutorCalled(mid, request)] + r.effects)
    else
      Handled(sh.(pending := Some(Move(mid, request, now + DEADLINE))),
              [ExecutorCalled(mid, request), MoveStarted(mid, request)], Started)
  }

  /** em_bh_handle. */
  function Handle(s: Session, sh: Shared, m: Message, now: real, stations: seq<Mac>, answer: Option<string>): Handled {
    if m.messageType != REQUEST then Handled(sh, [], NotARequest)
    else if !Bound(s, m) then Handled(sh, [], Rejected)
    else
      var live := sh.(answered := Purge(sh.answered, now));
      var request := RequestOf(m);
      if request.None? then Handled(live, [], Rejected)
      else
        var h := Answered(s, live, m.mid, request.value, now, stations, answer);
        h.(effects := [AckSent(m.mid)] + h.effects)
  }

  /** An acknowledged request: a repeat of an answered or a pending one, or a new one. */
  function Answered(s: Session, sh: Shared, mid: word, request: Request, now: real, stations: seq<Mac>,
                    answer: Option<string>): Handled {
    var slot := SlotOf(sh.answered, mid);
    if slot.Some? then
      var again := sh.answered[slot.value].(expiry := now + ANSWER_LIFE);
      Handled(sh.(answered := Record(sh.answered, again)), [ResponseOf(again)], RepeatedResponse)
    else if sh.pending.Some? && sh.pending.value.mid == mid then Handled(sh, [], RepeatedAck)
    else Begin(s, sh, mid, request, now, stations, answer)
  }

  // ----- ticks

  datatype Result = UnderWay | Applied | Failed

  datatype Ticked = Ticked(shared: Shared, effects: seq<Effect>)

  /** em_bh_tick. */
  function Tick(s: Session, sh: Shared, now: real, sourceAvailable: bool, associated: Option<Mac>,
                outcome: Result): Ticked {
    if sh.pending.None? then Ticked(sh, [])
    else
      var p := sh.pending.value;
      var result := if s.hasOutcome then outcome else Failed;
      if result == UnderWay && now < p.deadline then Ticked(sh, [])
      else if !sourceAvailable then
        if now < p.deadline + GRACE then Ticked(sh, [])
        else Ticked(sh.(pending := None), [Unanswered(p.mid)])
      else
        var a := AnswerTo(p.mid, p.request, if result == Applied then 0 else ASSOCIATION_FAILED,
                          if result == Applied then associated else None, now);
        Ticked(Shared(None, Record(sh.answered, a)), [ResponseOf(a)])
  }

  // ----- runs

  datatype Event =
    | StartEvent(session: Session)
    | CloseEvent
    | HandleEvent(message: Message, now: real, stations: seq<Mac>, answer: Option<string>)
    | TickEvent(now: real, sourceAvailable: bool, associated: Option<Mac>, outcome: Result)

  datatype State = State(session: Option<Session>, shared: Shared)

  datatype Stepped = Stepped(state: State, effects: seq<Effect>)

  /** One event; without a session nothing is handled and nothing ticks. */
  function Step(st: State, e: Event): Stepped {
    match e
    case StartEvent(s) => Stepped(st.(session := Some(s.(closed := false))), [])
    case CloseEvent =>
      Stepped(if st.session.Some? then st.(session := Some(st.session.value.(closed := true))) else st, [])
    case HandleEvent(m, now, stations, answer) =>
      if st.session.None? then Stepped(st, [])
      else
        var h := Handle(st.session.value, st.shared, m, now, stations, answer);
        Stepped(st.(shared := h.shared), h.effects)
    case TickEvent(now, source, associated, outcome) =>
      if st.session.None? then Stepped(st, [])
      else
        var t := Tick(st.session.value, st.shared, now, source, associated, outcome);
        Stepped(st.(shared := t.shared), t.effects)
  }

  function Run(st: State, evs: seq<Event>): Stepped {
    if evs == [] then Stepped(st, [])
    else
      var n := |evs| - 1;
      var before := Run(st, evs[..n]);
      var next := Step(before.state, evs[n]);
      Stepped(next.state, before.effects + next.effects)
  }

  const INITIAL := State(None, Shared(None, []))
}
