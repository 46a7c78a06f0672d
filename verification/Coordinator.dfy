/** em_bh_shared and em_bh_coordinator as objects, updated in place. */
module CoordinatorObject {
  import opened Bytes
  import opened Tlvs
  import opened Steering
  import Runs = SteeringRuns

  class SharedRecord {
    var pending: Option<Move>
    var nanswered: nat
    const answered: array<Answer>

    ghost predicate Valid()
      reads this, answered
    {
      answered.Length == ANSWERS && nanswered <= ANSWERS && Runs.Valid(Contents())
    }

    ghost function Contents(): Shared
      requires answered.Length == ANSWERS && nanswered <= ANSWERS
      reads this, answered
    {
      Shared(pending, answered[..nanswered])
    }

    constructor ()
      ensures Valid() && fresh(answered) && Contents() == INITIAL.shared
    {
      pending, nanswered := None, 0;
      answered := new Answer[ANSWERS](_ => Answer(0, seq(14, _ => 0), 0, seq(6, _ => 0), 0.0));
    }

    /** The answers still alive, moved down over the expired ones. */
    method Compact(now: real) returns (kept: nat)
      requires answered.Length == ANSWERS && nanswered <= ANSWERS
      modifies answered
      ensures kept <= nanswered && answered[..kept] == Purge(old(answered[..nanswered]), now)
    {
      ghost var before := answered[..nanswered];
      kept := 0;
      for i := 0 to nanswered
        invariant kept <= i && answered[..kept] == Purge(before[..i], now)
        invariant forall j :: i <= j < nanswered ==> answered[j] == before[j]
      {
        assert before[..i + 1][..i] == before[..i];
        if answered[i].expiry > now {
          ghost var done := answered[..kept];
          answered[kept] := answered[i];
          kept := kept + 1;
          assert answered[..kept] == done + [before[i]];
        }
      }
      assert before[..nanswered] == before;
    }

    method PurgeExpired(now: real)
      requires Valid()
      modifies this`nanswered, answered
      ensures Valid() && Contents() == old(Contents()).(answered := Purge(old(Contents()).answered, now))
    {
      Runs.PurgedValid(Contents(), now);
      nanswered := Compact(now);
    }

    /** The MID's slot, or the first unused one: the scan of respond. */
    method SlotFor(mid: word) returns (slot: nat)
      requires answered.Length == ANSWERS && nanswered <= ANSWERS
      ensures var s := SlotOf(answered[..nanswered], mid); slot == if s.Some? then s.value else nanswered
    {
      ghost var before := answered[..nanswered];
      slot := nanswered;
      for i := 0 to nanswered
        invariant slot == (var s := SlotOf(before[..i], mid); if s.Some? then s.value else nanswered)
      {
        assert before[..i + 1][..i] == before[..i];
        if answered[i].mid == mid {
          slot := i;
        }
      }
      assert before[..nanswered] == before;
    }

    /** The answer written: in its slot, in a free one, or last with the oldest shifted out. */
    method Write(found: nat, a: Answer)
      requires answered.Length == ANSWERS && found <= nanswered <= ANSWERS
      modifies this`nanswered, answered
      ensures nanswered <= ANSWERS
      ensures answered[..nanswered] == (var s := old(answered[..nanswered]);
                                        if found < |s| then s[found := a]
                                        else if |s| == ANSWERS then s[1..] + [a] else s + [a])
    {
      if found == nanswered {
        if nanswered == ANSWERS {
          ShiftDown();
          answered[ANSWERS - 1] := a;
          return;
        }
        nanswered := nanswered + 1;
      }
      answered[found] := a;
    }

    /** The table part of respond: the MID's slot, a free one, or the oldest answer's. */
    method KeepAnswer(a: Answer)
      requires Valid() && (pending.Some? ==> pending.value.mid != a.mid)
      modifies this`nanswered, answered
      ensures Valid() && Contents() == old(Contents()).(answered := Record(old(Contents()).answered, a))
    {
      Runs.RecordedValid(Contents(), a);
      var slot := SlotFor(a.mid);
      Write(slot, a);
    }

    /** memmove of the last fifteen answers over the oldest. */
    method ShiftDown()
      requires answered.Length == ANSWERS
      modifies answered
      ensures answered[..ANSWERS - 1] == old(answered[1..])
    {
      for i := 0 to ANSWERS - 1
        invariant forall j :: 0 <= j < i ==> answered[j] == old(answered[j + 1])
        invariant forall j :: i <= j < ANSWERS ==> answered[j] == old(answered[j])
      {
        answered[i] := answered[i + 1];
      }
    }

    method Lookup(mid: word) returns (r: Option<nat>)
      requires Valid()
      ensures r == SlotOf(answered[..nanswered], mid)
    {
      for i := 0 to nanswered
        invariant forall j :: 0 <= j < i ==> answered[j].mid != mid
      {
        if answered[i].mid == mid {
          assert answered[..nanswered][i].mid == mid;
          return Some(i);
        }
      }
      return None;
    }
  }

  /** The Backhaul Steering Request TLVs of a message: the last one and how many there are. */
  method ScanRequest(tlvs: seq<Tlv>) returns (n: nat, last: Option<Tlv>)
    ensures n == |RequestTlvs(tlvs)|
    ensures last == if n == 0 then None else Some(RequestTlvs(tlvs)[n - 1])
  {
    n, last := 0, None;
    for i := 0 to |tlvs|
      invariant n == |RequestTlvs(tlvs[..i])|
      invariant last == if n == 0 then None else Some(RequestTlvs(tlvs[..i])[n - 1])
    {
      assert tlvs[..i + 1][..i] == tlvs[..i];
      if tlvs[i].kind == REQUEST_TLV {
        n, last := n + 1, Some(tlvs[i]);
      }
    }
    assert tlvs[..|tlvs|] == tlvs;
  }

  class Coordinator {
    var session: Session
    var shared: SharedRecord?

    constructor ()
      ensures shared == null
    {
      shared := null;
      session := Session([0, 0, 0, 0, 0, 0], [0, 0, 0, 0, 0, 0], false, false, false);
    }

    /** em_bh_start: a new session over the record the agent keeps; the record is not touched. */
    method Start(record: SharedRecord, controller: Mac, localAl: Mac, hasExecutor: bool, hasOutcome: bool)
      modifies this
      ensures shared == record && session == Session(controller, localAl, hasExecutor, hasOutcome, false)
    {
      shared := record;
      session := Session(controller, localAl, hasExecutor, hasOutcome, false);
    }

    /** em_bh_close. */
    method Close()
      modifies this`session
      ensures session == old(session).(closed := true)
    {
      session := session.(closed := true);
    }

    /** em_bh_handle; `answer` is what the executor returns if it is called. */
    method HandleMessage(m: Message, now: real, stations: seq<Mac>, answer: Option<string>)
      returns (effects: seq<Effect>, verdict: Label)
      requires shared != null && shared.Valid()
      modifies shared, shared.answered
      ensures shared.Valid()
      ensures Handled(shared.Contents(), effects, verdict)
           == Handle(session, old(shared.Contents()), m, now, stations, answer)
    {
      if m.messageType != REQUEST {
        return [], NotARequest;
      }
      if m.source != session.controller || m.destination != session.localAl || m.relay {
        return [], Rejected;
      }
      shared.PurgeExpired(now);
      var n, t := ScanRequest(m.tlvs);
      if n != 1 || |t.value.value| != 14 || !Unicast(t.value.value) {
        return [], Rejected;
      }
      var request: Request := t.value.value;
      effects, verdict := Reply(m.mid, request, now, stations, answer);
      effects := [AckSent(m.mid)] + effects;
    }

    method Reply(mid: word, request: Request, now: real, stations: seq<Mac>, answer: Option<string>)
      returns (effects: seq<Effect>, verdict: Label)
      requires shared != null && shared.Valid()
      modifies shared, shared.answered
      ensures shared.Valid()
      ensures Handled(shared.Contents(), effects, verdict)
           == Answered(session, old(shared.Contents()), mid, request, now, stations, answer)
    {
      var slot := shared.Lookup(mid);
      if slot.Some? {
        var again := shared.answered[slot.value].(expiry := now + ANSWER_LIFE);
        assert Runs.Cached(shared.Contents().answered, mid);
        shared.KeepAnswer(again);
        return [ResponseOf(again)], RepeatedResponse;
      }
      if shared.pending.Some? && shared.pending.value.mid == mid {
        return [], RepeatedAck;
      }
      effects, verdict := BeginMove(mid, request, now, stations, answer);
    }

    method RefuseMove(mid: word, request: Request, reason: string, now: real)
      returns (effects: seq<Effect>, verdict: Label)
      requires shared != null && shared.Valid() && (shared.pending.Some? ==> shared.pending.value.mid != mid)
      modifies shared, shared.answered
      ensures shared.Valid()
      ensures Handled(shared.Contents(), effects, verdict) == Refuse(old(shared.Contents()), mid, request, reason, now)
    {
      var a := AnswerTo(mid, request, ErrorOf(reason), None, now);
      shared.KeepAnswer(a);
      return [ResponseOf(a)], Refused(reason);
    }

    method BeginMove(mid: word, request: Request, now: real, stations: seq<Mac>, answer: Option<string>)
      returns (effects: seq<Effect>, verdict: Label)
      requires shared != null && shared.Valid() && SlotOf(shared.Contents().answered, mid).None?
      requires shared.pending.Some? ==> shared.pending.value.mid != mid
      modifies shared, shared.answered
      ensures shared.Valid()
      ensures Handled(shared.Contents(), effects, verdict)
           == Begin(session, old(shared.Contents()), mid, request, now, stations, answer)
    {
      var reason := EarlyRefusal(Shared(shared.pending, []), request, stations);
      var called := [];
      if reason.None? {
        if session.closed || !session.hasExecutor {
          reason := Some("session_closed");
        } else {
          called := [ExecutorCalled(mid, request)];
          reason := answer;
        }
      }
      if reason.Some? {
        effects, verdict := RefuseMove(mid, request, reason.value, now);
        return called + effects, verdict;
      }
      shared.pending := Some(Move(mid, request, now + DEADLINE));
      return called + [MoveStarted(mid, request)], Started;
    }

    /** em_bh_tick. */
    method DoTick(now: real, sourceAvailable: bool, associated: Option<Mac>, outcome: Result)
      returns (effects: seq<Effect>)
      requires shared != null ==> shared.Valid()
      modifies shared, if shared != null then {shared.answered} else {}
      ensures shared == null ==> effects == []
      ensures shared != null ==> shared.Valid()
      ensures shared != null ==>
                Ticked(shared.Contents(), effects)
                == Tick(session, old(shared.Contents()), now, sourceAvailable, associated, outcome)
    {
      if shared == null || shared.pending.None? {
        return [];
      }
      var p := shared.pending.value;
      var result := if session.hasOutcome then outcome else Failed;
      if result == UnderWay && now < p.deadline {
        return [];
      }
      if !sourceAvailable {
        if now < p.deadline + GRACE {
          return [];
        }
        shared.pending := None;
        return [Unanswered(p.mid)];
      }
      shared.pending := None;
      var applied := result == Applied;
      var a := AnswerTo(p.mid, p.request, if applied then 0 else ASSOCIATION_FAILED,
                        if applied then associated else None, now);
      shared.KeepAnswer(a);
      return [ResponseOf(a)];
    }
  }
}
