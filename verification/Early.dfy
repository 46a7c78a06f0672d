/** The Early AP Capability Report's delivery (c/src/early.c; send_early and early_tick, c/src/agent.c). */
module Early {
  import opened Bytes

  const MAX_SENDS := 3
  const RETRY_AFTER := 0.25
  const PATIENCE := 1.0

  /** em_early, its counts apart. */
  datatype Report = Report(pending: bool, transmissions: nat, mids: seq<word>, nextRetry: real, deadline: real)

  /** What em_early_ack returns. */
  datatype AckResult = Acknowledged | ErrorRejected | Unmatched

  function Start(r: Report, now: real): Report {
    r.(pending := true, transmissions := 0, deadline := now + PATIENCE, nextRetry := now)
  }

  function Sent(r: Report, mid: word, now: real): Report
    requires |r.mids| == MAX_SENDS
  {
    r.(mids := if r.transmissions < MAX_SENDS then r.mids[r.transmissions := mid] else r.mids,
       transmissions := r.transmissions + 1, nextRetry := now + RETRY_AFTER)
  }

  predicate Due(r: Report, now: real, same: bool) {
    r.pending && same && now < r.deadline && now >= r.nextRetry && r.transmissions < MAX_SENDS
  }

  function Ticked(r: Report, now: real, same: bool): Report {
    if r.pending && (!same || now >= r.deadline) then r.(pending := false) else r
  }

  predicate Ours(r: Report, mid: word)
    requires |r.mids| == MAX_SENDS
  {
    r.pending && mid in r.mids[..Min(r.transmissions, MAX_SENDS)]
  }

  function Acked(r: Report, mid: word, error: bool, now: real): (Report, AckResult)
    requires |r.mids| == MAX_SENDS
  {
    var s := if r.pending && now >= r.deadline then r.(pending := false) else r;
    if !Ours(s, mid) then (s, Unmatched)
    else if error then (s, ErrorRejected)
    else (s.(pending := false), Acknowledged)
  }

  // ----- runs of one report

  /** A session's report: when it is started, and the first transmission's MID and time. */
  datatype Opening = Opening(now: real, mid: word, at: real)

  /** A tick carries the next MID and the time at which a retransmission would be noted sent. */
  datatype Event =
    | Tick(now: real, same: bool, mid: word, at: real)
    | Ack(mid: word, error: bool, now: real)
    | Close

  /** A transmission: when it was decided, when it was noted sent, and its MID. */
  datatype Transmission = Transmission(due: real, at: real, mid: word)

  const EMPTY := Report(false, 0, [0, 0, 0], 0.0, 0.0)

  function Opened(o: Opening): Report {
    Sent(Start(EMPTY, o.now), o.mid, o.at)
  }

  function Step(r: Report, e: Event): (s: Report)
    requires |r.mids| == MAX_SENDS
    ensures |s.mids| == MAX_SENDS
  {
    match e
    case Tick(now, same, mid, at) =>
      var t := Ticked(r, now, same);
      if Due(r, now, same) then Sent(t, mid, at) else t
    case Ack(mid, error, now) => Acked(r, mid, error, now).0
    case Close => r.(pending := false)
  }

  function After(o: Opening, es: seq<Event>, n: nat): (r: Report)
    requires n <= |es|
    ensures |r.mids| == MAX_SENDS
  {
    if n == 0 then Opened(o) else Step(After(o, es, n - 1), es[n - 1])
  }

  function Extended(log: seq<Transmission>, r: Report, e: Event): (more: seq<Transmission>)
    ensures |more| >= |log|
  {
    if e.Tick? && Due(r, e.now, e.same) then log + [Transmission(e.now, e.at, e.mid)] else log
  }

  /** The transmissions of the first `n` events. */
  function Log(o: Opening, es: seq<Event>, n: nat): (log: seq<Transmission>)
    requires n <= |es|
    ensures |log| > 0
  {
    if n == 0 then [Transmission(o.now, o.at, o.mid)]
    else Extended(Log(o, es, n - 1), After(o, es, n - 1), es[n - 1])
  }

  /** The `n`-th event is an Ack that acknowledges the report. */
  predicate Acknowledges(o: Opening, es: seq<Event>, n: nat)
    requires n < |es|
  {
    es[n].Ack? && Acked(After(o, es, n), es[n].mid, es[n].error, es[n].now).1 == Acknowledged
  }

  // ----- the same, told from the history alone

  predicate Named(log: seq<Transmission>, mid: word) {
    exists k :: 0 <= k < |log| && log[k].mid == mid
  }

  /** What ends a report, given its transmissions so far: nothing of its state is looked at. */
  predicate Ends(o: Opening, log: seq<Transmission>, e: Event) {
    match e
    case Tick(now, same, _, _) => !same || now >= o.now + 1.0
    case Ack(mid, error, now) => now >= o.now + 1.0 || (!error && Named(log, mid))
    case Close => true
  }

  predicate EndsAt(o: Opening, es: seq<Event>, j: nat)
    requires j < |es|
  {
    Ends(o, Log(o, es, j), es[j])
  }

  ghost predicate Live(o: Opening, es: seq<Event>, n: nat)
    requires n <= |es|
  {
    forall j :: 0 <= j < n ==> !EndsAt(o, es, j)
  }

  /** Sends at least 0.25 s apart, each retry decided before the 1 s deadline, three at most. */
  predicate Scheduled(o: Opening, log: seq<Transmission>) {
    && 1 <= |log| <= 3 && log[0] == Transmission(o.now, o.at, o.mid)
    && (forall k :: 1 <= k < |log| ==> log[k - 1].at + 0.25 <= log[k].due < o.now + 1.0)
  }

  /** The state is what the history says. */
  ghost predicate Reflects(o: Opening, r: Report, log: seq<Transmission>) {
    && Scheduled(o, log) && |r.mids| == MAX_SENDS && r.transmissions == |log|
    && (forall k :: 0 <= k < |log| ==> r.mids[k] == log[k].mid)
    && r.nextRetry == log[|log| - 1].at + RETRY_AFTER && r.deadline == o.now + PATIENCE
  }

  lemma OursIffNamed(o: Opening, r: Report, log: seq<Transmission>, mid: word)
    requires Reflects(o, r, log)
    ensures Ours(r, mid) <==> r.pending && Named(log, mid)
  {
    var own := r.mids[..|log|];
    if mid in own {
      var k :| 0 <= k < |own| && own[k] == mid;
      assert log[k].mid == mid;
    }
    if Named(log, mid) {
      var k :| 0 <= k < |log| && log[k].mid == mid;
      assert own[k] == mid;
    }
  }

  lemma {:induction false} StepReflects(o: Opening, r: Report, log: seq<Transmission>, e: Event)
    requires Reflects(o, r, log)
    ensures Reflects(o, Step(r, e), Extended(log, r, e))
  {
  }

  lemma {:induction false} StepPending(o: Opening, r: Report, log: seq<Transmission>, e: Event)
    requires Reflects(o, r, log)
    ensures Step(r, e).pending <==> r.pending && !Ends(o, log, e)
  {
    if e.Ack? {
      OursIffNamed(o, r, log, e.mid);
    }
  }

  lemma LiveNext(o: Opening, es: seq<Event>, n: nat)
    requires n < |es|
    ensures Live(o, es, n + 1) <==> Live(o, es, n) && !EndsAt(o, es, n)
  {
  }

  lemma OpenedReflects(o: Opening)
    ensures Reflects(o, Opened(o), [Transmission(o.now, o.at, o.mid)]) && Opened(o).pending
  {
  }

  ghost predicate Tracks(o: Opening, es: seq<Event>, n: nat, r: Report, log: seq<Transmission>)
    requires n <= |es|
  {
    Reflects(o, r, log) && (r.pending <==> Live(o, es, n))
  }

  lemma {:induction false} TracksNext(o: Opening, es: seq<Event>, n: nat, r: Report, log: seq<Transmission>)
    requires n < |es| && Tracks(o, es, n, r, log) && log == Log(o, es, n)
    ensures Tracks(o, es, n + 1, Step(r, es[n]), Extended(log, r, es[n]))
  {
    StepReflects(o, r, log, es[n]);
    StepPending(o, r, log, es[n]);
    LiveNext(o, es, n);
  }

  ghost predicate TracksAt(o: Opening, es: seq<Event>, n: nat)
    requires n <= |es|
  {
    Tracks(o, es, n, After(o, es, n), Log(o, es, n))
  }

  lemma {:induction false} TracksAtNext(o: Opening, es: seq<Event>, n: nat)
    requires n < |es| && TracksAt(o, es, n)
    ensures TracksAt(o, es, n + 1)
  {
    var r, log := After(o, es, n), Log(o, es, n);
    TracksNext(o, es, n, r, log);
    assert After(o, es, n + 1) == Step(r, es[n]) && Log(o, es, n + 1) == Extended(log, r, es[n]);
  }

  /** Every run: the schedule holds, and the report is pending exactly while nothing has ended it. */
  lemma {:induction false} RunReflects(o: Opening, es: seq<Event>, n: nat)
    requires n <= |es|
    ensures TracksAt(o, es, n)
    decreases n
  {
    if n == 0 {
      OpenedReflects(o);
    } else {
      RunReflects(o, es, n - 1);
      TracksAtNext(o, es, n - 1);
    }
  }

  /** At most three transmissions, 0.25 s apart, each retry within the 1 s. */
  lemma {:induction false} SendsAreScheduled(o: Opening, es: seq<Event>, n: nat)
    requires n <= |es|
    ensures Scheduled(o, Log(o, es, n))
  {
    RunReflects(o, es, n);
  }

  /** A tick retransmits if and only if the history allows it. */
  lemma {:induction false} RetriesExactly(o: Opening, es: seq<Event>, n: nat)
    requires n < |es|
    ensures var log := Log(o, es, n);
            Log(o, es, n + 1) ==
            if && es[n].Tick? && Live(o, es, n) && es[n].same && |log| < 3
               && log[|log| - 1].at + 0.25 <= es[n].now < o.now + 1.0
            then log + [Transmission(es[n].now, es[n].at, es[n].mid)] else log
  {
    RunReflects(o, es, n);
  }

  /** Only an error-free Ack naming one of the report's own MIDs before the deadline acknowledges it. */
  lemma {:induction false} AcknowledgedExactly(o: Opening, es: seq<Event>, n: nat)
    requires n < |es|
    ensures Acknowledges(o, es, n) <==>
              && es[n].Ack? && Live(o, es, n) && !es[n].error
              && es[n].now < o.now + 1.0 && Named(Log(o, es, n), es[n].mid)
  {
    RunReflects(o, es, n);
    if es[n].Ack? {
      OursIffNamed(o, After(o, es, n), Log(o, es, n), es[n].mid);
    }
  }

  /** Of the others, one with an error that names a MID in time is rejected for it, and the rest match nothing. */
  lemma {:induction false} AckResultsExactly(o: Opening, es: seq<Event>, n: nat)
    requires n < |es| && es[n].Ack?
    ensures var ours := Live(o, es, n) && es[n].now < o.now + 1.0 && Named(Log(o, es, n), es[n].mid);
            Acked(After(o, es, n), es[n].mid, es[n].error, es[n].now).1
            == if !ours then Unmatched else if es[n].error then ErrorRejected else Acknowledged
  {
    RunReflects(o, es, n);
    OursIffNamed(o, After(o, es, n), Log(o, es, n), es[n].mid);
  }

  /** Nothing is due and nothing acknowledges once the report has ended. */
  lemma {:induction false} DeadNext(o: Opening, es: seq<Event>, n: nat)
    requires n < |es| && !Live(o, es, n)
    ensures Log(o, es, n + 1) == Log(o, es, n) && !Acknowledges(o, es, n)
  {
    RetriesExactly(o, es, n);
    AcknowledgedExactly(o, es, n);
  }

  /** What ended stays ended: no transmission and no acknowledgement follows, whatever comes. */
  lemma {:induction false} EndedForGood(o: Opening, es: seq<Event>, j: nat, n: nat)
    requires j < n <= |es| && EndsAt(o, es, j)
    ensures Log(o, es, n) == Log(o, es, j + 1) && !Live(o, es, n)
    ensures n < |es| ==> !Acknowledges(o, es, n)
    decreases n
  {
    if n < |es| {
      DeadNext(o, es, n);
    }
    if j + 1 < n {
      EndedForGood(o, es, j, n - 1);
      DeadNext(o, es, n - 1);
    }
  }

  /** Hence at most one Ack acknowledges a report. */
  lemma {:induction false} AcknowledgedOnce(o: Opening, es: seq<Event>, j: nat, n: nat)
    requires j < n < |es| && Acknowledges(o, es, j)
    ensures !Acknowledges(o, es, n)
  {
    AcknowledgedExactly(o, es, j);
    EndedForGood(o, es, j, n);
  }

  // ----- the record as it is updated in place

  class EarlyReport {
    var pending: bool
    var transmissions: nat
    const mids: array<word>
    var nextRetry: real
    var deadline: real

    ghost predicate Valid()
      reads this
    {
      mids.Length == MAX_SENDS
    }

    ghost function View(): Report
      reads this, mids
    {
      Report(pending, transmissions, mids[..], nextRetry, deadline)
    }

    constructor ()
      ensures Valid() && View() == EMPTY && fresh(mids)
    {
      pending, transmissions, nextRetry, deadline := false, 0, 0.0, 0.0;
      mids := new word[MAX_SENDS](_ => 0);
    }

    method Begin(now: real)
      requires Valid()
      modifies this
      ensures Valid() && View() == Start(old(View()), now)
    {
      pending, transmissions, deadline, nextRetry := true, 0, now + PATIENCE, now;
    }

    method NoteSent(mid: word, now: real)
      requires Valid()
      modifies this, mids
      ensures Valid() && View() == Sent(old(View()), mid, now)
    {
      if transmissions < MAX_SENDS {
        mids[transmissions] := mid;
      }
      transmissions, nextRetry := transmissions + 1, now + RETRY_AFTER;
    }

    method OnTick(now: real, same: bool) returns (due: bool)
      requires Valid()
      modifies this
      ensures Valid() && View() == Ticked(old(View()), now, same) && due == Due(old(View()), now, same)
    {
      due := false;
      if !pending {
      } else if !same || now >= deadline {
        pending := false;
      } else {
        due := now >= nextRetry && transmissions < MAX_SENDS;
      }
    }

    method OnAck(mid: word, error: bool, now: real) returns (result: AckResult)
      requires Valid()
      modifies this
      ensures Valid() && (View(), result) == Acked(old(View()), mid, error, now)
    {
      if pending && now >= deadline {
        pending := false;
      }
      var ours, i := false, 0;
      while pending && i < transmissions && i < MAX_SENDS
        invariant i <= Min(transmissions, MAX_SENDS)
        invariant ours <==> pending && mid in mids[..i]
      {
        ours := ours || mids[i] == mid;
        i := i + 1;
      }
      if !ours {
        return Unmatched;
      }
      if error {
        return ErrorRejected;
      }
      pending := false;
      result := Acknowledged;
    }

    method Shut()
      requires Valid()
      modifies this
      ensures Valid() && View() == Step(old(View()), Close)
    {
      pending := false;
    }

    /** early_tick: a due retransmission is sent and noted. */
    method TickAndSend(now: real, same: bool, mid: word, at: real) returns (sent: bool)
      requires Valid()
      modifies this, mids
      ensures Valid() && View() == Step(old(View()), Tick(now, same, mid, at)) && sent == Due(old(View()), now, same)
    {
      sent := OnTick(now, same);
      if sent {
        NoteSent(mid, at);
      }
    }
  }

  /** A session's start: a fresh record, started, its first transmission noted. */
  method NewReport(o: Opening) returns (e: EarlyReport)
    ensures fresh(e) && fresh(e.mids) && e.Valid() && e.View() == Opened(o)
  {
    e := new EarlyReport();
    e.Begin(o.now);
    e.NoteSent(o.mid, o.at);
  }
}
