/** The token bucket in front of the agent's reassembler (receive_frame, c/src/agent.c). */
module RateGate {
  import opened Bytes

  const RATE := 16.0
  const BURST := 32.0
  const RENEW: word := 0x000A

  datatype Bucket = Bucket(tokens: real, time: real)

  /** What became of a frame: dropped before the budget, limited by it, or let through. */
  datatype Verdict = TooShort | Renewal | NoSession | Foreign | Limited | Admitted

  /** The agent's own address and its controller's. */
  datatype Peers = Peers(al: Mac, controller: Mac)

  /** A received frame, whether a session is there to take it, and the clock. */
  datatype Arrival = Arrival(frame: seq<byte>, session: bool, now: real)

  /** The verdict on a frame that does not reach the budget. */
  function Before(p: Peers, a: Arrival): Option<Verdict> {
    if |a.frame| < 22 then Some(TooShort)
    else
      var fromController := a.frame[6..12] == p.controller;
      if fromController && FromU16(a.frame[16], a.frame[17]) == RENEW then Some(Renewal)
      else if !a.session then Some(NoSession)
      else if a.frame[..6] != p.al || !fromController then Some(Foreign)
      else None
  }

  // ----- the same, octet by octet

  /** Octets 6 to 11 are the controller's address and 16 to 17 the type of a renewal. */
  predicate Renews(p: Peers, frame: seq<byte>) {
    |frame| >= 22 && frame[6..12] == p.controller && frame[16] == 0x00 && frame[17] == 0x0A
  }

  /** From the controller to this agent: octets 0 to 5 are its own address, 6 to 11 the controller's. */
  predicate Ours(p: Peers, frame: seq<byte>) {
    |frame| >= 22 && frame[..6] == p.al && frame[6..12] == p.controller
  }

  /** The frames the budget is for: the controller's to this agent in a session, renewals apart. */
  predicate Budgeted(p: Peers, a: Arrival) {
    a.session && Ours(p, a.frame) && !(a.frame[16] == 0x00 && a.frame[17] == 0x0A)
  }

  lemma BeforeIffBudgeted(p: Peers, a: Arrival)
    ensures Before(p, a).None? <==> Budgeted(p, a)
  {
  }

  /** Every verdict exactly, and a bucket left alone by all but the budgeted frames. */
  lemma {:induction false} VerdictsExactly(p: Peers, b: Bucket, a: Arrival)
    ensures var s := Receive(p, b, a);
            && (s.verdict in {Admitted, Limited} <==> Budgeted(p, a))
            && (s.verdict == TooShort <==> |a.frame| < 22)
            && (s.verdict == Renewal <==> Renews(p, a.frame))
            && (s.verdict == NoSession <==> |a.frame| >= 22 && !Renews(p, a.frame) && !a.session)
            && (s.verdict == Foreign <==>
                  |a.frame| >= 22 && !Renews(p, a.frame) && a.session && !Ours(p, a.frame))
            && (!Budgeted(p, a) ==> s.bucket == b)
            && (Budgeted(p, a) ==> s.bucket.time == a.now)
  {
    BeforeIffBudgeted(p, a);
  }

  function Refill(b: Bucket, now: real): real {
    var t := b.tokens + (now - b.time) * RATE;
    if t > BURST then BURST else t
  }

  datatype Step = Step(bucket: Bucket, verdict: Verdict)

  function Receive(p: Peers, b: Bucket, a: Arrival): Step {
    var early := Before(p, a);
    if early.Some? then Step(b, early.value)
    else
      var tokens := Refill(b, a.now);
      if tokens < 1.0 then Step(Bucket(tokens, a.now), Limited) else Step(Bucket(tokens - 1.0, a.now), Admitted)
  }

  function After(p: Peers, b: Bucket, arrivals: seq<Arrival>): Bucket {
    if arrivals == [] then b
    else Receive(p, After(p, b, arrivals[..|arrivals| - 1]), arrivals[|arrivals| - 1]).bucket
  }

  /** The verdict on the n-th arrival. */
  function VerdictAt(p: Peers, b: Bucket, arrivals: seq<Arrival>, n: nat): Verdict
    requires n < |arrivals|
  {
    Receive(p, After(p, b, arrivals[..n]), arrivals[n]).verdict
  }

  /** The frames admitted at times from `from` to `to`. */
  function Count(p: Peers, b: Bucket, arrivals: seq<Arrival>, from: real, to: real): nat {
    if arrivals == [] then 0
    else
      var n := |arrivals| - 1;
      Count(p, b, arrivals[..n], from, to)
      + (if VerdictAt(p, b, arrivals, n) == Admitted && from <= arrivals[n].now <= to then 1 else 0)
  }

  /** A clock that never goes back, from the bucket's own time on. */
  predicate Timed(b: Bucket, arrivals: seq<Arrival>) {
    && (forall i :: 0 <= i < |arrivals| ==> b.time <= arrivals[i].now)
    && (forall i, j :: 0 <= i < j < |arrivals| ==> arrivals[i].now <= arrivals[j].now)
  }

  /** The bucket of a started agent: full. */
  predicate Full(b: Bucket) {
    b.tokens == 32.0
  }

  /** The bucket's time is that of the last frame that reached it. */
  lemma {:induction false} TimeBounded(p: Peers, b: Bucket, arrivals: seq<Arrival>, at: real)
    requires Timed(b, arrivals) && b.time <= at && forall i :: 0 <= i < |arrivals| ==> arrivals[i].now <= at
    ensures After(p, b, arrivals).time <= at
    decreases |arrivals|
  {
    if arrivals != [] {
      TimeBounded(p, b, arrivals[..|arrivals| - 1], at);
    }
  }

  lemma {:induction false} TokensBounded(p: Peers, b: Bucket, arrivals: seq<Arrival>)
    requires Timed(b, arrivals) && 0.0 <= b.tokens <= BURST
    ensures 0.0 <= After(p, b, arrivals).tokens <= BURST
    decreases |arrivals|
  {
    if arrivals != [] {
      var n := |arrivals| - 1;
      TokensBounded(p, b, arrivals[..n]);
      TimeBounded(p, b, arrivals[..n], arrivals[n].now);
    }
  }

  /** Up to `to`, what was admitted since `from` and the tokens left stay within the allowance. */
  lemma {:induction false} AllowanceKept(p: Peers, b: Bucket, arrivals: seq<Arrival>, from: real, to: real)
    requires Timed(b, arrivals) && Full(b)
    requires forall i :: 0 <= i < |arrivals| ==> arrivals[i].now <= to
    ensures var a := After(p, b, arrivals);
            if from <= a.time then Count(p, b, arrivals, from, to) as real + a.tokens <= BURST + RATE * (a.time - from)
            else Count(p, b, arrivals, from, to) == 0
    decreases |arrivals|
  {
    if arrivals != [] {
      var n := |arrivals| - 1;
      AllowanceKept(p, b, arrivals[..n], from, to);
      TimeBounded(p, b, arrivals[..n], arrivals[n].now);
    }
  }

  /** Over every run, the frames admitted in a window of length d number at most 32 + 16 d. */
  lemma {:induction false} WindowBound(p: Peers, b: Bucket, arrivals: seq<Arrival>, from: real, to: real)
    requires Timed(b, arrivals) && Full(b) && from <= to
    ensures Count(p, b, arrivals, from, to) as real <= 32.0 + 16.0 * (to - from)
    decreases |arrivals|
  {
    if forall i :: 0 <= i < |arrivals| ==> arrivals[i].now <= to {
      AllowanceKept(p, b, arrivals, from, to);
      TokensBounded(p, b, arrivals);
      if b.time <= to {
        TimeBounded(p, b, arrivals, to);
      }
    } else {
      var i :| 0 <= i < |arrivals| && arrivals[i].now > to;
      var n := |arrivals| - 1;
      assert arrivals[n].now > to;
      WindowBound(p, b, arrivals[..n], from, to);
    }
  }

  /** Some window start makes the allowance exact: the last moment the bucket was full. */
  lemma {:induction false} AllowanceUsed(p: Peers, b: Bucket, arrivals: seq<Arrival>, to: real) returns (from: real)
    requires Timed(b, arrivals) && Full(b) && b.time <= to && forall i :: 0 <= i < |arrivals| ==> arrivals[i].now <= to
    ensures var a := After(p, b, arrivals);
            from <= a.time && Count(p, b, arrivals, from, to) as real + a.tokens >= BURST + RATE * (a.time - from)
    decreases |arrivals|
  {
    if arrivals == [] {
      from := b.time;
    } else {
      var n := |arrivals| - 1;
      var before, now := After(p, b, arrivals[..n]), arrivals[n].now;
      from := AllowanceUsed(p, b, arrivals[..n], to);
      TimeBounded(p, b, arrivals[..n], now);
      if Before(p, arrivals[n]).None? && before.tokens + (now - before.time) * RATE > BURST {
        from := now;
      }
    }
  }

  /**
   * The bucket is exact: of the frames that reach it, one is limited if and only if letting it
   * through would break the window bound for some window that ends with it.
   */
  lemma {:induction false} LimitedExactly(p: Peers, b: Bucket, arrivals: seq<Arrival>)
    requires Timed(b, arrivals) && Full(b) && arrivals != [] && Budgeted(p, arrivals[|arrivals| - 1])
    ensures var n, now := |arrivals| - 1, arrivals[|arrivals| - 1].now;
            VerdictAt(p, b, arrivals, n) == Limited
            <==> (exists from :: from <= now && Breaks(Count(p, b, arrivals[..n], from, now), from, now))
  {
    var n := |arrivals| - 1;
    var now, before := arrivals[n].now, arrivals[..n];
    TimeBounded(p, b, before, now);
    BeforeIffBudgeted(p, arrivals[n]);
    if VerdictAt(p, b, arrivals, n) == Limited {
      var from := AllowanceUsed(p, b, before, now);
      assert Breaks(Count(p, b, before, from, now), from, now);
    } else {
      forall from | from <= now
        ensures !Breaks(Count(p, b, before, from, now), from, now)
      {
        WindowBound(p, b, arrivals, from, now);
      }
    }
  }

  /** One more frame in the window from `from` to `to` would be more than it allows. */
  predicate Breaks(admitted: nat, from: real, to: real) {
    admitted as real + 1.0 > 32.0 + 16.0 * (to - from)
  }

  /** The arrivals that reach the budget: those of the controller to this agent, in a session, no renewal. */
  function Reaching(p: Peers, arrivals: seq<Arrival>): seq<Arrival> {
    if arrivals == [] then []
    else
      var n := |arrivals| - 1;
      Reaching(p, arrivals[..n]) + (if Budgeted(p, arrivals[n]) then [arrivals[n]] else [])
  }

  lemma AfterSnoc(p: Peers, b: Bucket, arrivals: seq<Arrival>, a: Arrival)
    ensures After(p, b, arrivals + [a]) == Receive(p, After(p, b, arrivals), a).bucket
    ensures VerdictAt(p, b, arrivals + [a], |arrivals|) == Receive(p, After(p, b, arrivals), a).verdict
  {
    assert (arrivals + [a])[..|arrivals|] == arrivals;
  }

  lemma CountSnoc(p: Peers, b: Bucket, arrivals: seq<Arrival>, a: Arrival, from: real, to: real)
    ensures var v := Receive(p, After(p, b, arrivals), a).verdict;
            Count(p, b, arrivals + [a], from, to)
            == Count(p, b, arrivals, from, to) + if v == Admitted && from <= a.now <= to then 1 else 0
  {
    assert (arrivals + [a])[..|arrivals|] == arrivals;
    AfterSnoc(p, b, arrivals, a);
  }

  lemma {:induction false} ReachingSame(p: Peers, b: Bucket, arrivals: seq<Arrival>, from: real, to: real)
    ensures After(p, b, arrivals) == After(p, b, Reaching(p, arrivals))
    ensures Count(p, b, arrivals, from, to) == Count(p, b, Reaching(p, arrivals), from, to)
    decreases |arrivals|
  {
    if arrivals != [] {
      var n := |arrivals| - 1;
      var before, a := arrivals[..n], arrivals[n];
      assert arrivals == before + [a];
      ReachingSame(p, b, before, from, to);
      AfterSnoc(p, b, before, a);
      CountSnoc(p, b, before, a, from, to);
      BeforeIffBudgeted(p, a);
      if Budgeted(p, a) {
        AfterSnoc(p, b, Reaching(p, before), a);
        CountSnoc(p, b, Reaching(p, before), a, from, to);
      } else {
        assert Reaching(p, arrivals) == Reaching(p, before);
      }
    }
  }

  /**
   * Foreign frames, and all others dropped before the budget, take nothing: the run without them
   * leaves the same bucket, admits as many frames in every window and judges the next one alike.
   */
  lemma {:induction false} ForeignFree(p: Peers, b: Bucket, arrivals: seq<Arrival>, from: real, to: real, a: Arrival)
    ensures var kept := Reaching(p, arrivals);
            && After(p, b, arrivals) == After(p, b, kept)
            && Count(p, b, arrivals, from, to) == Count(p, b, kept, from, to)
            && VerdictAt(p, b, arrivals + [a], |arrivals|) == VerdictAt(p, b, kept + [a], |kept|)
  {
    ReachingSame(p, b, arrivals, from, to);
    AfterSnoc(p, b, arrivals, a);
    AfterSnoc(p, b, Reaching(p, arrivals), a);
  }

  class Gate {
    const peers: Peers
    var tokens: real
    var tokenTime: real

    ghost function Contents(): Bucket
      reads this
    {
      Bucket(tokens, tokenTime)
    }

    constructor (peers: Peers, now: real)
      ensures this.peers == peers && Contents() == Bucket(32.0, now) && Full(Contents())
    {
      this.peers := peers;
      tokens, tokenTime := BURST, now;
    }

    /** The start of receive_frame, up to the reassembler. */
    method Offer(a: Arrival) returns (v: Verdict)
      modifies this
      ensures Step(Contents(), v) == Receive(peers, old(Contents()), a)
      ensures v in {Admitted, Limited} <==> Budgeted(peers, a)
    {
      if |a.frame| < 22 {
        return TooShort;
      }
      var fromController := a.frame[6..12] == peers.controller;
      if fromController && FromU16(a.frame[16], a.frame[17]) == RENEW {
        return Renewal;
      }
      if !a.session {
        return NoSession;
      }
      if a.frame[..6] != peers.al || !fromController {
        return Foreign;
      }
      tokens := tokens + (a.now - tokenTime) * RATE;
      if tokens > BURST {
        tokens := BURST;
      }
      tokenTime := a.now;
      if tokens < 1.0 {
        return Limited;
      }
      tokens := tokens - 1.0;
      return Admitted;
    }
  }
}
