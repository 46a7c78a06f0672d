/** Every started move ends exactly once, and requests are idempotent, on every run. */
module SteeringRuns {
  import opened Bytes
  import opened Tlvs
  import Fragmenter
  import opened Steering

  // ----- what every step keeps

  predicate DistinctMids(answers: seq<Answer>) {
    forall i, j :: 0 <= i < j < |answers| ==> answers[i].mid != answers[j].mid
  }

  predicate Cached(answers: seq<Answer>, mid: word) {
    exists i :: 0 <= i < |answers| && answers[i].mid == mid
  }

  /** At most 16 answers, no MID twice, the pending MID never among them. */
  predicate Valid(sh: Shared) {
    && |sh.answered| <= 16 && DistinctMids(sh.answered)
    && (sh.pending.Some? ==> !Cached(sh.answered, sh.pending.value.mid))
  }

  lemma {:induction false} PurgeKeeps(answers: seq<Answer>, now: real, mid: word)
    requires DistinctMids(answers)
    ensures DistinctMids(Purge(answers, now)) && |Purge(answers, now)| <= |answers|
    ensures Cached(Purge(answers, now), mid) ==> Cached(answers, mid)
    decreases |answers|
  {
    if answers != [] {
      var n := |answers| - 1;
      PurgeKeeps(answers[..n], now, mid);
      PurgeKeeps(answers[..n], now, answers[n].mid);
      if Cached(Purge(answers, now), mid) {
        if Cached(answers[..n], mid) {
          var i :| 0 <= i < n && answers[..n][i].mid == mid;
          assert answers[i].mid == mid;
        } else {
          assert answers[n].mid == mid;
        }
      }
    }
  }

  lemma RecordKeeps(answers: seq<Answer>, a: Answer, mid: word)
    requires |answers| <= ANSWERS && DistinctMids(answers)
    ensures |Record(answers, a)| <= ANSWERS && DistinctMids(Record(answers, a))
    ensures Cached(Record(answers, a), mid) ==> mid == a.mid || Cached(answers, mid)
    ensures Cached(Record(answers, a), a.mid)
  {
    var r := Record(answers, a);
    var slot := SlotOf(answers, a.mid);
    var at := if slot.Some? then slot.value else |r| - 1;
    assert r[at] == a;
    if Cached(r, mid) && mid != a.mid {
      var i :| 0 <= i < |r| && r[i].mid == mid;
      var j := if slot.None? && |answers| == ANSWERS then i + 1 else i;
      assert answers[j].mid == mid;
    }
  }

  lemma PurgedValid(sh: Shared, now: real)
    requires Valid(sh)
    ensures Valid(sh.(answered := Purge(sh.answered, now)))
  {
    PurgeKeeps(sh.answered, now, if sh.pending.Some? then sh.pending.value.mid else 0);
  }

  lemma RecordedValid(sh: Shared, a: Answer)
    requires Valid(sh) && (sh.pending.Some? ==> sh.pending.value.mid != a.mid)
    ensures Valid(sh.(answered := Record(sh.answered, a)))
  {
    RecordKeeps(sh.answered, a, if sh.pending.Some? then sh.pending.value.mid else 0);
  }

  lemma HandleValid(s: Session, sh: Shared, m: Message, now: real, stations: seq<Mac>, answer: Option<string>)
    requires Valid(sh)
    ensures Valid(Handle(s, sh, m, now, stations, answer).shared)
  {
    PurgedValid(sh, now);
    var live := sh.(answered := Purge(sh.answered, now));
    var slot := SlotOf(live.answered, m.mid);
    if slot.Some? {
      RecordedValid(live, live.answered[slot.value].(expiry := now + ANSWER_LIFE));
    } else if live.pending.None? || live.pending.value.mid != m.mid {
      forall a: Answer | a.mid == m.mid
        ensures Valid(live.(answered := Record(live.answered, a)))
      {
        RecordedValid(live, a);
      }
    }
  }

  lemma TickValid(s: Session, sh: Shared, now: real, source: bool, associated: Option<Mac>, outcome: Result)
    requires Valid(sh)
    ensures Valid(Tick(s, sh, now, source, associated, outcome).shared)
  {
    forall a: Answer
      ensures Valid(Shared(None, Record(sh.answered, a)))
    {
      RecordKeeps(sh.answered, a, 0);
    }
  }

  lemma StepValid(st: State, e: Event)
    requires Valid(st.shared)
    ensures Valid(Step(st, e).state.shared)
  {
    if st.session.Some? {
      match e
      case HandleEvent(m, now, stations, answer) => HandleValid(st.session.value, st.shared, m, now, stations, answer);
      case TickEvent(now, source, associated, outcome) =>
        TickValid(st.session.value, st.shared, now, source, associated, outcome);
      case _ =>
    }
  }

  lemma {:induction false} RunValid(st: State, evs: seq<Event>)
    requires Valid(st.shared)
    ensures Valid(Run(st, evs).state.shared)
    decreases |evs|
  {
    if evs != [] {
      var n := |evs| - 1;
      RunValid(st, evs[..n]);
      StepValid(Run(st, evs[..n]).state, evs[n]);
    }
  }

  // ----- every move ends exactly once

  /**
   * What an observer of the effects alone can tell: the move under way, the request being answered
   * and, once it is with the executor, what it asks for.
   */
  datatype Observed = Watching(moving: Option<word>, acked: Option<word>, called: Option<Request>) | Broken

  /**
   * Within a handled message everything is for the MID just acknowledged, which is not the moving
   * one if it is answered. It is answered once, after at most one call of the executor; or one such
   * call is followed by the start of a move for the same request. The executor is called only
   * while no move is under way. Outside of a handled message a response or "unanswered" is in
   * order only as the end of the move under way. Anything else breaks the history.
   */
  function Observe(o: Observed, e: Effect): Observed {
    if o.Broken? then Broken
    else
      match e
      case AckSent(mid) => if o.acked.None? then o.(acked := Some(mid)) else Broken
      case ExecutorCalled(mid, request) =>
        if o == Watching(None, Some(mid), None) then o.(called := Some(request)) else Broken
      case MoveStarted(mid, request) =>
        if o == Watching(None, Some(mid), Some(request)) then Watching(Some(mid), None, None) else Broken
      case ResponseSent(mid, _) =>
        if o.acked == Some(mid) && o.moving != Some(mid) then Watching(o.moving, None, None)
        else if o == Watching(Some(mid), None, None) then Watching(None, None, None)
        else Broken
      case Unanswered(mid) => if o == Watching(Some(mid), None, None) then Watching(None, None, None) else Broken
  }

  function ObserveAll(o: Observed, effects: seq<Effect>): Observed {
    if effects == [] then o
    else Observe(ObserveAll(o, effects[..|effects| - 1]), effects[|effects| - 1])
  }

  /** An event is over: nothing later answers its message, and no executor call is left without its verdict. */
  function Afresh(o: Observed): Observed {
    if o.Broken? || o.called.Some? then Broken else o.(acked := None)
  }

  /** What each event of a run sent, called and decided, in turn. */
  function Outputs(st: State, evs: seq<Event>): seq<seq<Effect>> {
    if evs == [] then []
    else
      var n := |evs| - 1;
      Outputs(st, evs[..n]) + [Step(Run(st, evs[..n]).state, evs[n]).effects]
  }

  function ObserveRun(o: Observed, outputs: seq<seq<Effect>>): Observed {
    if outputs == [] then o
    else
      var n := |outputs| - 1;
      Afresh(ObserveAll(ObserveRun(o, outputs[..n]), outputs[n]))
  }

  function Pending(sh: Shared): Observed {
    Watching(if sh.pending.Some? then Some(sh.pending.value.mid) else None, None, None)
  }

  lemma ObserveOne(o: Observed, x: Effect)
    ensures ObserveAll(o, [x]) == Observe(o, x)
  {
    assert [x][..0] == [];
  }

  lemma ObserveTwo(o: Observed, x: Effect, y: Effect)
    ensures ObserveAll(o, [x, y]) == Observe(Observe(o, x), y)
  {
    assert [x, y][..1] == [x];
    ObserveOne(o, x);
  }

  lemma ObserveThree(o: Observed, x: Effect, y: Effect, z: Effect)
    ensures ObserveAll(o, [x, y, z]) == Observe(Observe(Observe(o, x), y), z)
  {
    assert [x, y, z][..2] == [x, y];
    ObserveTwo(o, x, y);
  }

  /** An answer to the request just acknowledged. */
  lemma AnswerInOrder(moving: Option<word>, mid: word, tlvs: seq<Tlv>)
    requires moving != Some(mid)
    ensures var o := Watching(moving, None, None);
            Afresh(ObserveAll(o, [AckSent(mid)] + [ResponseSent(mid, tlvs)])) == o
  {
    assert [AckSent(mid)] + [ResponseSent(mid, tlvs)] == [AckSent(mid), ResponseSent(mid, tlvs)];
    ObserveTwo(Watching(moving, None, None), AckSent(mid), ResponseSent(mid, tlvs));
  }

  /** The executor's verdict: an answer, or a move. */
  lemma VerdictInOrder(mid: word, request: Request, verdict: Effect)
    requires (verdict.ResponseSent? && verdict.mid == mid) || verdict == MoveStarted(mid, request)
    ensures Afresh(ObserveAll(Watching(None, None, None), [AckSent(mid)] + [ExecutorCalled(mid, request), verdict]))
         == Watching(if verdict.MoveStarted? then Some(mid) else None, None, None)
  {
    var acked, called := AckSent(mid), ExecutorCalled(mid, request);
    assert [acked] + [called, verdict] == [acked, called, verdict];
    ObserveThree(Watching(None, None, None), acked, called, verdict);
  }

  lemma BeginObserved(s: Session, sh: Shared, mid: word, request: Request, now: real, stations: seq<Mac>,
                      answer: Option<string>)
    requires sh.pending.Some? ==> sh.pending.value.mid != mid
    ensures var h := Begin(s, sh, mid, request, now, stations, answer);
            Afresh(ObserveAll(Pending(sh), [AckSent(mid)] + h.effects)) == Pending(h.shared)
  {
    var fx := Begin(s, sh, mid, request, now, stations, answer).effects;
    if |fx| == 1 {
      AnswerInOrder(Pending(sh).moving, mid, fx[0].tlvs);
    } else {
      assert fx == [ExecutorCalled(mid, request), fx[1]];
      VerdictInOrder(mid, request, fx[1]);
    }
  }

  lemma RepeatObserved(sh: Shared, mid: word, slot: nat, now: real)
    requires Valid(sh) && slot < |sh.answered| && sh.answered[slot].mid == mid
    ensures var again := sh.answered[slot].(expiry := now + ANSWER_LIFE);
            Afresh(ObserveAll(Pending(sh), [AckSent(mid)] + [ResponseOf(again)])) == Pending(sh)
  {
    assert Cached(sh.answered, mid);
    AnswerInOrder(Pending(sh).moving, mid, ResponseOf(sh.answered[slot]).tlvs);
  }

  lemma AckObserved(sh: Shared, mid: word)
    ensures Afresh(ObserveAll(Pending(sh), [AckSent(mid)] + [])) == Pending(sh)
  {
    assert [AckSent(mid)] + [] == [AckSent(mid)];
    ObserveOne(Pending(sh), AckSent(mid));
  }

  lemma AnsweredObserved(s: Session, sh: Shared, mid: word, request: Request, now: real, stations: seq<Mac>,
                         answer: Option<string>)
    requires Valid(sh)
    ensures var h := Answered(s, sh, mid, request, now, stations, answer);
            Afresh(ObserveAll(Pending(sh), [AckSent(mid)] + h.effects)) == Pending(h.shared)
  {
    var slot := SlotOf(sh.answered, mid);
    if slot.Some? {
      RepeatObserved(sh, mid, slot.value, now);
    } else if sh.pending.Some? && sh.pending.value.mid == mid {
      AckObserved(sh, mid);
    } else {
      BeginObserved(s, sh, mid, request, now, stations, answer);
    }
  }

  lemma HandleObserved(s: Session, sh: Shared, m: Message, now: real, stations: seq<Mac>, answer: Option<string>)
    requires Valid(sh)
    ensures var h := Handle(s, sh, m, now, stations, answer);
            Afresh(ObserveAll(Pending(sh), h.effects)) == Pending(h.shared)
  {
    PurgedValid(sh, now);
    var live, request := sh.(answered := Purge(sh.answered, now)), RequestOf(m);
    if m.messageType == REQUEST && Bound(s, m) && request.Some? {
      AnsweredObserved(s, live, m.mid, request.value, now, stations, answer);
    }
  }

  /**
   * A tick settles a move exactly once: with a response under its MID, or "unanswered" only when
   * the source has been away 30 s past the deadline; at or after that time none stays pending.
   */
  lemma TickSettles(s: Session, sh: Shared, now: real, source: bool, associated: Option<Mac>, outcome: Result)
    requires sh.pending.Some?
    ensures var p, t := sh.pending.value, Tick(s, sh, now, source, associated, outcome);
            && (t.shared.pending.None? || (t.shared == sh && t.effects == []))
            && (t.shared.pending.None? <==> |t.effects| == 1)
            && (t.effects != [] ==>
                  || t.effects[0] == Unanswered(p.mid)
                  || (t.effects[0].ResponseSent? && t.effects[0].mid == p.mid && Cached(t.shared.answered, p.mid)))
            && (Unanswered(p.mid) in t.effects ==> !source && now >= p.deadline + 30.0)
            && (now >= p.deadline + 30.0 || (source && now >= p.deadline) ==> t.shared.pending.None?)
            && (source && s.hasOutcome && outcome == Applied && associated.Some? ==>
                  t.effects == [ResponseSent(p.mid, ResponseTlvs(associated.value, p.request, 0))])
            && (source && (outcome == Failed || !s.hasOutcome || (outcome == UnderWay && now >= p.deadline)) ==>
                  t.effects == [ResponseSent(p.mid, ResponseTlvs(p.request[..6], p.request, ASSOCIATION_FAILED))])
  {
    forall a: Answer | a.mid == sh.pending.value.mid
      ensures Cached(Record(sh.answered, a), a.mid)
    {
      var r := Record(sh.answered, a);
      var slot := SlotOf(sh.answered, a.mid);
      assert r[if slot.Some? then slot.value else |r| - 1] == a;
    }
  }

  /** A request never disturbs the move under way, whatever it is and whenever it comes. */
  lemma HandleKeepsMove(s: Session, sh: Shared, m: Message, now: real, stations: seq<Mac>, answer: Option<string>)
    requires sh.pending.Some?
    ensures var h := Handle(s, sh, m, now, stations, answer);
            h.shared.pending == sh.pending && forall x :: x in h.effects ==> !x.ExecutorCalled? && !x.MoveStarted?
  {
  }

  lemma TickObserved(s: Session, sh: Shared, now: real, source: bool, associated: Option<Mac>, outcome: Result)
    ensures var t := Tick(s, sh, now, source, associated, outcome);
            Afresh(ObserveAll(Pending(sh), t.effects)) == Pending(t.shared)
  {
    var t := Tick(s, sh, now, source, associated, outcome);
    if sh.pending.Some? {
      TickSettles(s, sh, now, source, associated, outcome);
      if t.effects != [] {
        assert t.effects == [t.effects[0]];
        ObserveOne(Pending(sh), t.effects[0]);
      }
    }
  }

  lemma StepObserved(st: State, e: Event)
    requires Valid(st.shared)
    ensures Afresh(ObserveAll(Pending(st.shared), Step(st, e).effects)) == Pending(Step(st, e).state.shared)
  {
    if st.session.Some? {
      var s := st.session.value;
      match e
      case HandleEvent(m, now, stations, answer) => HandleObserved(s, st.shared, m, now, stations, answer);
      case TickEvent(now, source, associated, outcome) => TickObserved(s, st.shared, now, source, associated, outcome);
      case _ =>
    }
  }

  /**
   * On every run, across any number of session starts and closes, the effects are in order: no
   * move starts while another is under way; each starts after exactly one executor call, for its
   * MID and request; each ends by exactly one response with its MID or one "unanswered", given
   * outside of any handled message; every other response answers, once, the request acknowledged
   * just before it; and at every moment the move that has started and not ended is the pending one.
   */
  lemma {:induction false} MovesEndOnce(st: State, evs: seq<Event>)
    requires Valid(st.shared)
    ensures ObserveRun(Pending(st.shared), Outputs(st, evs)) == Pending(Run(st, evs).state.shared)
    decreases |evs|
  {
    if evs != [] {
      var n := |evs| - 1;
      var o, outputs := Pending(st.shared), Outputs(st, evs[..n]);
      var fx := Step(Run(st, evs[..n]).state, evs[n]).effects;
      MovesEndOnce(st, evs[..n]);
      RunValid(st, evs[..n]);
      StepObserved(Run(st, evs[..n]).state, evs[n]);
      ObserveSnoc(o, outputs, fx);
    }
  }

  lemma ObserveSnoc(o: Observed, outputs: seq<seq<Effect>>, fx: seq<Effect>)
    ensures ObserveRun(o, outputs + [fx]) == Afresh(ObserveAll(ObserveRun(o, outputs), fx))
  {
    assert (outputs + [fx])[..|outputs|] == outputs;
  }

  // ----- and in time

  predicate EndsMove(x: Effect, mid: word) {
    x == Unanswered(mid) || (x.ResponseSent? && x.mid == mid)
  }

  predicate Ended(effects: seq<Effect>, mid: word) {
    exists i :: 0 <= i < |effects| && EndsMove(effects[i], mid)
  }

  lemma EndedLonger(a: seq<Effect>, b: seq<Effect>, mid: word)
    ensures Ended(a + b, mid) <==> Ended(a, mid) || Ended(b, mid)
  {
    if Ended(a, mid) {
      var i :| 0 <= i < |a| && EndsMove(a[i], mid);
      assert EndsMove((a + b)[i], mid);
    }
    if Ended(b, mid) {
      var i :| 0 <= i < |b| && EndsMove(b[i], mid);
      assert EndsMove((a + b)[|a| + i], mid);
    }
    if Ended(a + b, mid) {
      var i :| 0 <= i < |a + b| && EndsMove((a + b)[i], mid);
      assert if i < |a| then EndsMove(a[i], mid) else EndsMove(b[i - |a|], mid);
    }
  }

  /** A tick gives a move's end exactly when it leaves none pending. */
  lemma TickEndsIff(s: Session, sh: Shared, now: real, source: bool, associated: Option<Mac>, outcome: Result)
    requires sh.pending.Some?
    ensures var t := Tick(s, sh, now, source, associated, outcome);
            Ended(t.effects, sh.pending.value.mid) <==> t.shared.pending.None?
  {
    TickSettles(s, sh, now, source, associated, outcome);
    var t := Tick(s, sh, now, source, associated, outcome);
    if t.shared.pending.None? {
      assert EndsMove(t.effects[0], sh.pending.value.mid);
    }
  }

  /** A step that does not end the move leaves it as it is, its deadline too. */
  lemma StepKeepsMove(st: State, e: Event, p: Move)
    requires st.shared.pending == Some(p) && !Ended(Step(st, e).effects, p.mid)
    ensures Step(st, e).state.shared.pending == Some(p)
  {
    if st.session.Some? {
      match e
      case HandleEvent(m, now, stations, answer) =>
        HandleKeepsMove(st.session.value, st.shared, m, now, stations, answer);
      case TickEvent(now, source, associated, outcome) =>
        TickSettles(st.session.value, st.shared, now, source, associated, outcome);
        TickEndsIff(st.session.value, st.shared, now, source, associated, outcome);
      case _ =>
    }
  }

  lemma {:induction false} RunKeepsMove(st: State, evs: seq<Event>, p: Move)
    requires st.shared.pending == Some(p) && !Ended(Run(st, evs).effects, p.mid)
    ensures Run(st, evs).state.shared.pending == Some(p)
    decreases |evs|
  {
    if evs != [] {
      var n := |evs| - 1;
      var before := Run(st, evs[..n]);
      EndedLonger(before.effects, Step(before.state, evs[n]).effects, p.mid);
      RunKeepsMove(st, evs[..n], p);
      StepKeepsMove(before.state, evs[n], p);
    }
  }

  predicate Calls(x: Effect, mid: word) {
    x.ExecutorCalled? && x.mid == mid
  }

  /** While a move is under way the executor is not called and no other move starts, on any run. */
  lemma {:induction false} ExecutorNotWhilePending(st: State, evs: seq<Event>, p: Move)
    requires st.shared.pending == Some(p) && !Ended(Run(st, evs).effects, p.mid)
    ensures forall x :: x in Run(st, evs).effects ==> !x.ExecutorCalled? && !x.MoveStarted?
    decreases |evs|
  {
    if evs != [] {
      var n := |evs| - 1;
      var before := Run(st, evs[..n]);
      EndedLonger(before.effects, Step(before.state, evs[n]).effects, p.mid);
      ExecutorNotWhilePending(st, evs[..n], p);
      RunKeepsMove(st, evs[..n], p);
      StepCallsNothing(before.state, evs[n]);
    }
  }

  lemma StepCallsNothing(st: State, e: Event)
    requires st.shared.pending.Some?
    ensures forall x :: x in Step(st, e).effects ==> !x.ExecutorCalled? && !x.MoveStarted?
  {
    if st.session.Some? && e.HandleEvent? {
      HandleKeepsMove(st.session.value, st.shared, e.message, e.now, e.stations, e.answer);
    }
  }

  /** A move started by a request is pending until 120 s later. */
  lemma StartSetsDeadline(st: State, e: Event, mid: word, request: Request)
    requires e.HandleEvent? && MoveStarted(mid, request) in Step(st, e).effects
    ensures Step(st, e).state.shared.pending == Some(Move(mid, request, e.now + 120.0))
         && Step(st, e).state.session.Some?
  {
  }

  /** No event takes the session away; closing it leaves it, closed. */
  lemma {:induction false} SessionStays(st: State, evs: seq<Event>)
    requires st.session.Some?
    ensures Run(st, evs).state.session.Some?
    decreases |evs|
  {
    if evs != [] {
      SessionStays(st, evs[..|evs| - 1]);
    }
  }

  /**
   * Every started move ends in time: whatever happens after its request, across any sessions, by
   * the first tick 150 s or more after it a response with its MID, or "unanswered", has been given.
   */
  lemma {:induction false} MoveEndsInTime(st: State, e: Event, mid: word, request: Request, evs: seq<Event>)
    requires e.HandleEvent? && MoveStarted(mid, request) in Step(st, e).effects && evs != []
    requires var last := evs[|evs| - 1]; last.TickEvent? && last.now >= e.now + 150.0
    ensures Ended(Run(Step(st, e).state, evs).effects, mid)
  {
    StartSetsDeadline(st, e, mid, request);
    var from, p, n := Step(st, e).state, Move(mid, request, e.now + DEADLINE), |evs| - 1;
    var before, last := Run(from, evs[..n]), evs[n];
    EndedLonger(before.effects, Step(before.state, last).effects, mid);
    if !Ended(before.effects, mid) {
      RunKeepsMove(from, evs[..n], p);
      SessionStays(from, evs[..n]);
      TickEnds(before.state, last, p);
    }
  }

  lemma TickEnds(st: State, e: Event, p: Move)
    requires st.shared.pending == Some(p) && st.session.Some? && e.TickEvent? && e.now >= p.deadline + GRACE
    ensures Ended(Step(st, e).effects, p.mid)
  {
    TickSettles(st.session.value, st.shared, e.now, e.sourceAvailable, e.associated, e.outcome);
    TickEndsIff(st.session.value, st.shared, e.now, e.sourceAvailable, e.associated, e.outcome);
  }

  // ----- repeated requests

  /** The kept answer of this MID and content, with at most `rank` answers after it. */
  ghost predicate Keeps(answers: seq<Answer>, a: Answer, rank: nat, i: nat) {
    && i < |answers| && |answers| - 1 - i <= rank
    && answers[i].(expiry := a.expiry) == a && answers[i].expiry >= a.expiry
  }

  lemma {:induction false} PurgeKept(answers: seq<Answer>, now: real, a: Answer, rank: nat, i: nat) returns (k: nat)
    requires Keeps(answers, a, rank, i) && now < a.expiry
    ensures Keeps(Purge(answers, now), a, rank, k)
    decreases |answers|
  {
    var n := |answers| - 1;
    if i == n {
      k := |Purge(answers[..n], now)|;
    } else {
      k := PurgeKept(answers[..n], now, a, rank - 1, i);
    }
  }

  lemma RecordKept(answers: seq<Answer>, b: Answer, a: Answer, rank: nat, i: nat) returns (k: nat)
    requires |answers| <= ANSWERS && Keeps(answers, a, rank, i) && b.mid != a.mid
    requires SlotOf(answers, b.mid).None? ==> rank < ANSWERS - 1
    ensures Keeps(Record(answers, b), a, if SlotOf(answers, b.mid).None? then rank + 1 else rank, k)
  {
    k := if SlotOf(answers, b.mid).None? && |answers| == ANSWERS then i - 1 else i;
  }

  lemma RefreshKept(answers: seq<Answer>, now: real, a: Answer, rank: nat, i: nat)
    requires DistinctMids(answers) && Keeps(answers, a, rank, i) && a.expiry <= now + ANSWER_LIFE
    ensures SlotOf(answers, a.mid) == Some(i)
    ensures Keeps(Record(answers, answers[i].(expiry := now + ANSWER_LIFE)), a, rank, i)
  {
    var slot := SlotOf(answers, a.mid);
    assert answers[i].mid == a.mid;
    assert slot.Some?;
  }

  /** The step answers a MID that had no kept answer. */
  predicate NewAnswer(st: State, e: Event) {
    match e
    case HandleEvent(m, now, stations, answer) =>
      st.session.Some? && Handle(st.session.value, st.shared, m, now, stations, answer).verdict.Refused?
    case TickEvent(now, source, associated, outcome) =>
      var effects := Step(st, e).effects;
      effects != [] && effects[0].ResponseSent?
    case _ => false
  }

  function NewAnswers(st: State, evs: seq<Event>): nat {
    if evs == [] then 0
    else
      var n := |evs| - 1;
      NewAnswers(st, evs[..n]) + (if NewAnswer(Run(st, evs[..n]).state, evs[n]) then 1 else 0)
  }

  /** The event comes within the 30 s the answer was last promised for. */
  predicate During(e: Event, a: Answer) {
    match e
    case HandleEvent(_, now, _, _) => a.expiry - 30.0 <= now < a.expiry
    case TickEvent(now, _, _, _) => a.expiry - 30.0 <= now < a.expiry
    case _ => true
  }

  lemma HandleKept(s: Session, sh: Shared, m: Message, now: real, stations: seq<Mac>, answer: Option<string>,
                   a: Answer, rank: nat, i: nat) returns (k: nat)
    requires Valid(sh) && Keeps(sh.answered, a, rank, i) && a.expiry - ANSWER_LIFE <= now < a.expiry
    requires Handle(s, sh, m, now, stations, answer).verdict.Refused? ==> rank < ANSWERS - 1
    ensures var h := Handle(s, sh, m, now, stations, answer);
            Keeps(h.shared.answered, a, if h.verdict.Refused? then rank + 1 else rank, k)
  {
    var live, request := sh.(answered := Purge(sh.answered, now)), RequestOf(m);
    PurgedValid(sh, now);
    if m.messageType != REQUEST || !Bound(s, m) {
      k := i;
    } else {
      k := PurgeKept(sh.answered, now, a, rank, i);
      if request.Some? {
        k := AnsweredKept(s, live, m.mid, request.value, now, stations, answer, a, rank, k);
      }
    }
  }

  lemma AnsweredKept(s: Session, sh: Shared, mid: word, request: Request, now: real, stations: seq<Mac>,
                     answer: Option<string>,
                     a: Answer, rank: nat, i: nat) returns (k: nat)
    requires Valid(sh) && Keeps(sh.answered, a, rank, i) && a.expiry - ANSWER_LIFE <= now < a.expiry
    requires Answered(s, sh, mid, request, now, stations, answer).verdict.Refused? ==> rank < ANSWERS - 1
    ensures var h := Answered(s, sh, mid, request, now, stations, answer);
            Keeps(h.shared.answered, a, if h.verdict.Refused? then rank + 1 else rank, k)
  {
    k := i;
    var slot := SlotOf(sh.answered, mid);
    if mid == a.mid {
      RefreshKept(sh.answered, now, a, rank, i);
    } else if slot.Some? {
      k := RecordKept(sh.answered, sh.answered[slot.value].(expiry := now + ANSWER_LIFE), a, rank, i);
    } else {
      var h := Answered(s, sh, mid, request, now, stations, answer);
      if h.verdict.Refused? {
        k := RecordKept(sh.answered, AnswerTo(mid, request, ErrorOf(h.verdict.reason), None, now), a, rank, i);
      }
    }
  }

  lemma TickKept(s: Session, sh: Shared, now: real, source: bool, associated: Option<Mac>, outcome: Result,
                 a: Answer, rank: nat, i: nat) returns (k: nat)
    requires Valid(sh) && Keeps(sh.answered, a, rank, i)
    requires var t := Tick(s, sh, now, source, associated, outcome);
             t.effects != [] && t.effects[0].ResponseSent? ==> rank < ANSWERS - 1
    ensures var t := Tick(s, sh, now, source, associated, outcome);
            Keeps(t.shared.answered, a, if t.effects != [] && t.effects[0].ResponseSent? then rank + 1 else rank, k)
  {
    k := i;
    var t := Tick(s, sh, now, source, associated, outcome);
    if t.effects != [] && t.effects[0].ResponseSent? {
      var p := sh.pending.value;
      var applied := s.hasOutcome && outcome == Applied;
      var b := AnswerTo(p.mid, p.request, if applied then 0 else ASSOCIATION_FAILED,
                        if applied then associated else None, now);
      assert sh.answered[i].mid == a.mid;
      assert SlotOf(sh.answered, p.mid).None?;
      k := RecordKept(sh.answered, b, a, rank, i);
    }
  }

  /** Within its 30 s an answer is kept until 16 answers to other new MIDs have come after it. */
  lemma {:induction false} AnswerKept(st: State, evs: seq<Event>, a: Answer, rank: nat, i: nat) returns (k: nat)
    requires Valid(st.shared) && Keeps(st.shared.answered, a, rank, i)
    requires rank + NewAnswers(st, evs) < 16
    requires forall n :: 0 <= n < |evs| ==> During(evs[n], a)
    ensures Keeps(Run(st, evs).state.shared.answered, a, rank + NewAnswers(st, evs), k)
    decreases |evs|
  {
    if evs == [] {
      k := i;
    } else {
      var n := |evs| - 1;
      var e, before := evs[n], Run(st, evs[..n]).state;
      k := AnswerKept(st, evs[..n], a, rank, i);
      RunValid(st, evs[..n]);
      if before.session.Some? {
        match e
        case HandleEvent(m, now, stations, answer) =>
          k := HandleKept(before.session.value, before.shared, m, now, stations, answer, a,
                          rank + NewAnswers(st, evs[..n]), k);
        case TickEvent(now, source, associated, outcome) =>
          k := TickKept(before.session.value, before.shared, now, source, associated, outcome, a,
                        rank + NewAnswers(st, evs[..n]), k);
        case _ =>
      }
    }
  }

  /** The message is a well-formed steering request of the session's controller with this MID. */
  predicate Repeats(s: Session, m: Message, mid: word) {
    m.messageType == REQUEST && m.mid == mid && Bound(s, m) && RequestOf(m).Some?
  }

  /**
   * Idempotence: while an answer is kept, a request with its MID, whatever it asks for, is
   * acknowledged and gets the identical response again; the executor is not called.
   */
  lemma {:induction false} RepeatedRequestSameAnswer(st: State, evs: seq<Event>, a: Answer, rank: nat, i: nat, e: Event)
    requires Valid(st.shared) && Keeps(st.shared.answered, a, rank, i) && rank + NewAnswers(st, evs) < 16
    requires (forall n :: 0 <= n < |evs| ==> During(evs[n], a)) && During(e, a)
    requires var now := Run(st, evs).state;
             e.HandleEvent? && now.session.Some? && Repeats(now.session.value, e.message, a.mid)
    ensures Step(Run(st, evs).state, e).effects == [AckSent(a.mid), ResponseOf(a)]
  {
    var now := Run(st, evs).state;
    var k := AnswerKept(st, evs, a, rank, i);
    RunValid(st, evs);
    PurgedValid(now.shared, e.now);
    var j := PurgeKept(now.shared.answered, e.now, a, rank + NewAnswers(st, evs), k);
    RefreshKept(Purge(now.shared.answered, e.now), e.now, a, rank + NewAnswers(st, evs), j);
  }

  /** The executor is called only for the message's own MID, neither pending nor answered. */
  lemma ExecutorOnlyForNew(s: Session, sh: Shared, m: Message, now: real, stations: seq<Mac>, answer: Option<string>,
                           x: Effect)
    requires x.ExecutorCalled? && x in Handle(s, sh, m, now, stations, answer).effects
    ensures x.mid == m.mid && sh.pending.None? && !Cached(Purge(sh.answered, now), m.mid) && !s.closed && s.hasExecutor
    ensures RequestOf(m) == Some(x.request) && x.request[..6] in stations && Unicast(x.request[6..])
  {
  }

  lemma {:induction false} KeptIsCached(answers: seq<Answer>, now: real, a: Answer, rank: nat, i: nat)
    requires Keeps(answers, a, rank, i) && now < a.expiry
    ensures Cached(Purge(answers, now), a.mid)
  {
    var k := PurgeKept(answers, now, a, rank, i);
    assert Purge(answers, now)[k].mid == a.mid;
  }

  lemma {:induction false} KeptNotCalled(st: State, e: Event, a: Answer, rank: nat, i: nat, x: Effect)
    requires Keeps(st.shared.answered, a, rank, i) && During(e, a) && x in Step(st, e).effects
    ensures !Calls(x, a.mid)
  {
    if st.session.Some? && e.HandleEvent? && x.ExecutorCalled? {
      KeptIsCached(st.shared.answered, e.now, a, rank, i);
      ExecutorOnlyForNew(st.session.value, st.shared, e.message, e.now, e.stations, e.answer, x);
    }
  }

  /** While an answer is kept the executor is not called again for its MID, on any run. */
  lemma {:induction false} ExecutorNotWhileKept(st: State, evs: seq<Event>, a: Answer, rank: nat, i: nat)
    requires Valid(st.shared) && Keeps(st.shared.answered, a, rank, i) && rank + NewAnswers(st, evs) < 16
    requires forall n :: 0 <= n < |evs| ==> During(evs[n], a)
    ensures forall x :: x in Run(st, evs).effects ==> !Calls(x, a.mid)
    decreases |evs|
  {
    if evs != [] {
      var n := |evs| - 1;
      var before := Run(st, evs[..n]);
      ExecutorNotWhileKept(st, evs[..n], a, rank, i);
      var k := AnswerKept(st, evs[..n], a, rank, i);
      forall x | x in Step(before.state, evs[n]).effects
        ensures !Calls(x, a.mid)
      {
        KeptNotCalled(before.state, evs[n], a, rank + NewAnswers(st, evs[..n]), k, x);
      }
    }
  }

  // ----- what is sent

  /** em_fragment accepts every acknowledgement and response, in one frame. */
  lemma AlwaysOneFrame(named: Mac, request: Request, error: byte)
    ensures Fragmenter.Acceptable([], Fragmenter.MAX_CMDU) && |Fragmenter.Sent([], Fragmenter.MAX_CMDU)| == 1
    ensures var ts := ResponseTlvs(named, request, error);
            Fragmenter.Acceptable(ts, Fragmenter.MAX_CMDU) && |Fragmenter.Sent(ts, Fragmenter.MAX_CMDU)| == 1
  {
    var ts := ResponseTlvs(named, request, error);
    forall i | 0 <= i < |ts|
      ensures Encodable(ts[i]) && Fragmenter.Fits([ts[i]], Fragmenter.MAX_CMDU - Fragmenter.HEADER_SIZE)
    {
      Fragmenter.SizeOne(ts[i]);
    }
    var whole := [ts];
    assert Fragmenter.Flatten(whole) == Fragmenter.Flatten([]) + ts by { Fragmenter.FlattenPush([], ts); }
    assert Fragmenter.Flatten(whole) == ts;
    assert Size(ts) <= 26 by {
      if error != 0 {
        assert ts == [ts[0]] + [ts[1]];
        SizeAppend([ts[0]], [ts[1]]);
        Fragmenter.SizeOne(ts[1]);
      } else {
        assert ts == [ts[0]];
      }
      Fragmenter.SizeOne(ts[0]);
    }
    Fragmenter.GreedyStaysAhead(ts, Fragmenter.MAX_CMDU - Fragmenter.HEADER_SIZE, whole);
  }
}
