/** The high-resolution PCM clock, dummy_hrtimer_* in alsa_sound_gen.c.  Times are
    nanoseconds; ktime_us_delta is the difference in whole microseconds, rounded down. */
module HrClock {
  import opened Arith
  import opened Options

  const BILLION := 1_000_000_000
  const MILLION := 1_000_000
  const TWO64 := 0x1_0000_0000_0000_0000

  /** Nanoseconds of a period, as the prepare splits it: whole seconds, and the
      remaining frames scaled up and rounded up. */
  function PeriodSeconds(periodSize: int, rate: int): int
    requires rate > 0
  {
    periodSize / rate
  }

  function PeriodNanos(periodSize: int, rate: int): int
    requires rate > 0
  {
    (periodSize % rate * BILLION + rate - 1) / rate
  }

  function PeriodTime(periodSize: int, rate: int): int
    requires rate > 0
  {
    PeriodSeconds(periodSize, rate) * BILLION + PeriodNanos(periodSize, rate)
  }

  function MicrosSince(now: int, base: int): int {
    (now - base) / 1000
  }

  /** Frames played `micros` after the start, before they wrap on the ring. */
  function Frames(micros: int, rate: int): int {
    (micros * rate + 999_999) / MILLION
  }

  /** The same in the u64 arithmetic of the source. */
  function Frames64(micros: int, rate: int): int {
    (micros * rate + 999_999) % TWO64 / MILLION
  }

  // ----- The driver ------------------------------------------------------------

  /** hrtimer_forward_now: moves an expiry by whole periods to the first instant
      after `now`. */
  function Forward(expiry: int, now: int, period: int): int
    requires period > 0
  {
    if now < expiry then expiry else expiry + ((now - expiry) / period + 1) * period
  }

  datatype Hr = Hr(baseTime: int, periodTime: int, running: bool, expiry: Option<int>)

  function HrStarted(h: Hr, now: int, armedAt: int): Hr {
    h.(baseTime := now, expiry := Some(armedAt + h.periodTime), running := true)
  }

  function HrStopped(h: Hr, inCallback: bool): Hr {
    h.(running := false, expiry := if inCallback then h.expiry else None)
  }

  /** The callback, when `stops` says that ALSA stops the stream from inside it. */
  function HrFired(h: Hr, now: int, stops: bool): Hr
    requires h.periodTime > 0 && h.expiry.Some?
  {
    if h.running && !stops then h.(expiry := Some(Forward(h.expiry.value, now, h.periodTime)))
    else h.(running := false, expiry := None)
  }

  /** A reported position is the 64-bit frame count on the ring, and so the true one
      until the product wraps. */
  ghost predicate PositionOk(pos: int, micros: int, rate: int, bufferSize: int)
    requires bufferSize > 0
  {
    && pos == Frames64(micros, rate) % bufferSize
    && (micros * rate + 999_999 < TWO64 ==> pos == Frames(micros, rate) % bufferSize)
  }

  /** The position the stream reports at `now`, until its product wraps. */
  function Reported(h: Hr, now: int, rate: int, bufferSize: int): int
    requires bufferSize > 0
  {
    Frames(MicrosSince(now, h.baseTime), rate) % bufferSize
  }

  class HrtimerPcm {
    var baseTime: int
    var periodTime: int
    var running: bool
    var expiry: Option<int>     // expiry of the queued timer

    ghost function View(): Hr
      reads this
    {
      Hr(baseTime, periodTime, running, expiry)
    }

    constructor ()
      ensures View() == Hr(0, 0, false, None)
    {
      baseTime, periodTime, running, expiry := 0, 0, false, None;
    }

    /** Cancels the timer and splits the period; the 64-bit product cannot wrap
        because period and rate are 32-bit. */
    method Prepare(rate: int, periodSize: int)
      requires 0 < rate < 0x1_0000_0000 && 0 < periodSize < 0x1_0000_0000
      modifies this
      ensures View() == old(View()).(periodTime := CeilDiv(periodSize * BILLION, rate), expiry := None)
      ensures periodTime > 0
    {
      expiry := None;
      var period := periodSize;
      var sec := period / rate;
      period := period % rate;
      assert period * BILLION + rate - 1 < TWO64;
      var nsecs := (period * BILLION + rate - 1) % TWO64 / rate;
      periodTime := sec * BILLION + nsecs;
      PeriodTimeIsCeil(periodSize, rate);
      CeilGalois(periodSize * BILLION, rate, 0);
    }

    /** `armedAt` is the clock when hrtimer_start reads it, at or after `now`. */
    method Start(now: int, armedAt: int)
      requires now <= armedAt
      modifies this
      ensures View() == HrStarted(old(View()), now, armedAt)
      ensures baseTime == now && running && expiry == Some(armedAt + periodTime)
    {
      baseTime := now;
      expiry := Some(armedAt + periodTime);
      running := true;
    }

    method Stop(inCallback: bool)
      modifies this
      ensures View() == HrStopped(old(View()), inCallback)
      ensures !running && expiry == if inCallback then old(expiry) else None
    {
      running := false;
      if !inCallback {
        expiry := None;
      }
    }

    /** The timer function; `pos` is the ring position it computes before it notifies
        ALSA. */
    method Callback(now: int, rate: int, bufferSize: int, stops: bool) returns (notify: bool, pos: int)
      requires expiry.Some? && expiry.value <= now && periodTime > 0
      requires rate > 0 && bufferSize > 0 && baseTime <= now
      modifies this
      ensures View() == HrFired(old(View()), now, stops)
      ensures notify == old(running)
      ensures notify ==> PositionOk(pos, MicrosSince(now, baseTime), rate, bufferSize)
      ensures !notify || stops <==> expiry.None?
    {
      notify, pos := running, 0;
      if !running {
        expiry := None;
        return;
      }
      var delta := (now - baseTime) / 1000;
      MulMonotone(0, delta, rate);
      FramesExactUntilWrapIff(delta, rate);
      delta := (delta * rate + 999_999) % TWO64 / MILLION;
      pos := delta % bufferSize;
      if stops {
        Stop(true);
      }
      if !running {
        expiry := None;
        return;
      }
      var e := expiry.value;
      var overruns := (now - e) / periodTime + 1;
      expiry := Some(e + overruns * periodTime);
    }

    /** Reads the clock and changes nothing. */
    method Pointer(now: int, rate: int, bufferSize: int) returns (pos: int)
      requires rate > 0 && bufferSize > 0 && baseTime <= now
      ensures PositionOk(pos, MicrosSince(now, baseTime), rate, bufferSize)
      ensures MicrosSince(now, baseTime) * rate + 999_999 < TWO64 ==> pos == Reported(View(), now, rate, bufferSize)
      ensures 0 <= pos < bufferSize
    {
      var delta := (now - baseTime) / 1000;
      MulMonotone(0, delta, rate);
      FramesExactUntilWrapIff(delta, rate);
      delta := (delta * rate + 999_999) % TWO64 / MILLION;
      pos := delta % bufferSize;
    }
  }

  // ----- The period ------------------------------------------------------------

  /** Splitting the division loses nothing: the period is the exact one, rounded up. */
  lemma PeriodTimeIsCeil(periodSize: int, rate: int)
    requires rate > 0
    ensures PeriodTime(periodSize, rate) == CeilDiv(periodSize * BILLION, rate)
  {
    var s := periodSize / rate;
    assert periodSize == s * rate + periodSize % rate;
    MulAssoc(BILLION, s, rate);
    assert periodSize % rate * BILLION == periodSize * BILLION - (s * BILLION) * rate;
    CeilShift(periodSize * BILLION, rate, s * BILLION);
  }

  /** ktime_set gets a proper nanosecond part for every period exactly when the rate
      is at most a gigahertz. */
  lemma NanosProperIff(rate: int)
    requires rate > 0
    ensures (forall p: int {:trigger PeriodNanos(p, rate)} :: p >= 0 ==> 0 <= PeriodNanos(p, rate) < BILLION)
      <==> rate <= BILLION
  {
    if rate <= BILLION {
      forall p: int | p >= 0 ensures 0 <= PeriodNanos(p, rate) < BILLION {
        var r := p % rate;
        FloorGalois(r * BILLION + rate - 1, rate, 0);
        FloorGalois(r * BILLION + rate - 1, rate, BILLION);
        MulMonotone(r, rate - 1, BILLION);
      }
    } else {
      var p := rate - 1;
      DivUnique(p, rate, 0);
      FloorGalois(p * BILLION + rate - 1, rate, BILLION);
      assert PeriodNanos(p, rate) >= BILLION;
    }
  }

  // ----- Do the roundings compose? ---------------------------------------------

  /** The frame count is the least one that covers the microseconds. */
  lemma FramesGalois(micros: int, rate: int, f: int)
    ensures Frames(micros, rate) <= f <==> micros * rate <= f * MILLION
  {
  }

  /** The source multiplies in 64 bits: the count is right exactly until the product
      wraps. */
  lemma FramesExactUntilWrapIff(micros: int, rate: int)
    requires micros >= 0 && rate > 0
    ensures Frames64(micros, rate) == Frames(micros, rate)
      <==> micros * rate + 999_999 < TWO64
  {
  }

  /** If n whole periods have passed, so has the pointer. */
  ghost predicate Covers(rate: int, n: int, periodSize: int, elapsed: int)
    requires rate > 0
  {
    elapsed >= n * PeriodTime(periodSize, rate) ==> Frames(elapsed / 1000, rate) >= n * periodSize
  }

  ghost predicate NeverShort(rate: int)
    requires rate > 0
  {
    forall n: int, periodSize: int, elapsed: int ::
      n >= 0 && periodSize > 0 ==> Covers(rate, n, periodSize, elapsed)
  }

  lemma CoversPeriods(rate: int, n: int, periodSize: int, elapsed: int)
    requires 0 < rate <= 1_001_001 && n >= 0 && periodSize > 0
    ensures Covers(rate, n, periodSize, elapsed)
  {
    if elapsed < n * PeriodTime(periodSize, rate) { return; }
    var t, us := PeriodTime(periodSize, rate), elapsed / 1000;
    PeriodTimeIsCeil(periodSize, rate);
    CeilBounds(periodSize * BILLION, rate);
    MulMonotone(periodSize * BILLION, t * rate, n);
    MulMonotone(n * t, elapsed, rate);
    assert n * (t * rate) == (n * t) * rate by { MulAssoc(n, t, rate); }
    assert n * (periodSize * BILLION) == (n * periodSize) * BILLION by { MulAssoc(n, periodSize, BILLION); }
    MulMonotone(elapsed, us * 1000 + 999, rate);
    assert (us * 1000 + 999) * rate == us * rate * 1000 + 999 * rate;
    assert us * rate * 1000 > (n * periodSize - 1) * BILLION;
    FramesGalois(us, rate, n * periodSize - 1);
  }

  /** The three roundings, up to the nanosecond, down to the microsecond and up to
      the frame, never leave the pointer short exactly up to 1,001,001 Hz. */
  lemma NeverShortIff(rate: int)
    requires rate > 0
    ensures NeverShort(rate) <==> rate <= 1_001_001
  {
    if rate <= 1_001_001 {
      forall n: int, periodSize: int, elapsed: int | n >= 0 && periodSize > 0
        ensures Covers(rate, n, periodSize, elapsed)
      {
        CoversPeriods(rate, n, periodSize, elapsed);
      }
    } else {
      var t := PeriodTime(1, rate);
      PeriodTimeIsCeil(1, rate);
      CeilGalois(BILLION, rate, 999);
      CeilGalois(BILLION, rate, 0);
      assert 0 <= t <= 999 && t / 1000 == 0;
      assert Frames(t / 1000, rate) == 0 by { assert 0 * rate == 0; }
      assert !Covers(rate, 1, 1, t);
    }
  }

  /** Nor does it run ahead: exactly at the n-th expiry the count exceeds n periods by
      at most the frames of n nanoseconds. */
  lemma HardlyAhead(rate: int, n: int, periodSize: int)
    requires rate > 0 && n >= 0 && periodSize > 0
    ensures Frames(n * PeriodTime(periodSize, rate) / 1000, rate) <= n * periodSize + CeilDiv(n * rate, BILLION)
  {
  }

  // ----- Every run of callbacks --------------------------------------------------

  /** What happens to a started stream: time passes, the expired timer fires, or ALSA
      stops the stream. */
  datatype Event = Wait(nanos: nat) | Fire(stops: bool) | Stop

  /** `notified` counts the calls to snd_pcm_period_elapsed since the start. */
  datatype Machine = Machine(hr: Hr, now: int, notified: int)

  ghost predicate Alive(m: Machine) {
    m.hr.periodTime > 0 && m.hr.baseTime <= m.now
  }

  predicate Enabled(m: Machine, e: Event) {
    e.Fire? ==> m.hr.expiry.Some? && m.hr.expiry.value <= m.now
  }

  function Step(m: Machine, e: Event): Machine
    requires m.hr.periodTime > 0 && Enabled(m, e)
  {
    match e
    case Wait(d) => m.(now := m.now + d)
    case Fire(stops) =>
      m.(hr := HrFired(m.hr, m.now, stops), notified := m.notified + (if m.hr.running then 1 else 0))
    case Stop => m.(hr := HrStopped(m.hr, false))
  }

  ghost predicate Legal(m: Machine, es: seq<Event>)
    requires Alive(m)
    decreases |es|
  {
    es != [] ==> Enabled(m, es[0]) && Legal(Step(m, es[0]), es[1..])
  }

  ghost function Run(m: Machine, es: seq<Event>): (r: Machine)
    requires Alive(m) && Legal(m, es)
    ensures Alive(r)
    decreases |es|
  {
    if es == [] then m else Run(Step(m, es[0]), es[1..])
  }

  /** The timer is never early: with k notifications sent it is queued for at least
      k + 1 periods after the start, on the grid the start laid out. */
  ghost predicate OnGrid(m: Machine, armedAt: int) {
    && m.notified >= 0
    && m.hr.baseTime + m.notified * m.hr.periodTime <= m.now
    && (m.hr.expiry.Some? ==>
         exists k: int {:trigger k * m.hr.periodTime} ::
           k > m.notified && m.hr.expiry.value == armedAt + k * m.hr.periodTime)
  }

  lemma StepOnGrid(m: Machine, e: Event, armedAt: int)
    requires Alive(m) && Enabled(m, e) && OnGrid(m, armedAt) && m.hr.baseTime <= armedAt
    ensures OnGrid(Step(m, e), armedAt)
  {
    if e.Fire? {
      var p := m.hr.periodTime;
      var k: int :| k > m.notified && m.hr.expiry.value == armedAt + k * p;
      MulMonotone(m.notified + 1, k, p);
      var j := (m.now - m.hr.expiry.value) / p + 1;
      FloorGalois(m.now - m.hr.expiry.value, p, 0);
      assert (k + j) * p == k * p + j * p;
      if Step(m, e).hr.expiry.Some? {
        assert Step(m, e).hr.expiry.value == armedAt + (k + j) * p;
      }
    }
  }

  lemma {:induction false} RunOnGrid(m: Machine, es: seq<Event>, armedAt: int)
    requires Alive(m) && Legal(m, es) && OnGrid(m, armedAt) && m.hr.baseTime <= armedAt
    ensures OnGrid(Run(m, es), armedAt)
    ensures Run(m, es).hr.baseTime == m.hr.baseTime && Run(m, es).hr.periodTime == m.hr.periodTime
    decreases |es|
  {
    if es != [] {
      StepOnGrid(m, es[0], armedAt);
      RunOnGrid(Step(m, es[0]), es[1..], armedAt);
    }
  }

  /** ALSA is never told of a period the pointer has not passed: after any run, with n
      notifications sent, late and overrun callbacks included, the unwrapped pointer
      stands at n periods or more. */
  lemma NotifiedPeriodsArePlayed(h: Hr, now: int, armedAt: int, rate: int, periodSize: int, es: seq<Event>)
    requires 0 < rate <= 1_001_001 && periodSize > 0 && now <= armedAt
    requires h.periodTime == PeriodTime(periodSize, rate) && h.periodTime > 0
    requires Legal(Machine(HrStarted(h, now, armedAt), armedAt, 0), es)
    ensures var r := Run(Machine(HrStarted(h, now, armedAt), armedAt, 0), es);
      Frames(MicrosSince(r.now, now), rate) >= r.notified * periodSize
  {
    var m := Machine(HrStarted(h, now, armedAt), armedAt, 0);
    assert m.hr.expiry.value == armedAt + 1 * m.hr.periodTime;
    RunOnGrid(m, es, armedAt);
    var r := Run(m, es);
    CoversPeriods(rate, r.notified, periodSize, r.now - now);
  }

  /** Every callback comes before the grid point after the one it was queued for. */
  ghost predicate Prompt(m: Machine, es: seq<Event>)
    requires Alive(m) && Legal(m, es)
    decreases |es|
  {
    es != [] ==>
      && (es[0].Fire? ==> m.now < m.hr.expiry.value + m.hr.periodTime)
      && Prompt(Step(m, es[0]), es[1..])
  }

  /** A queued timer of a running stream names the first grid point still to come, or one
      already reached. */
  ghost predicate Queued(m: Machine) {
    m.hr.running && m.hr.expiry.Some? && m.hr.expiry.value - m.hr.periodTime <= m.now
  }

  lemma {:induction false} NoTimerStays(m: Machine, es: seq<Event>)
    requires Alive(m) && Legal(m, es) && m.hr.expiry.None?
    ensures Run(m, es).hr.expiry.None?
    decreases |es|
  {
    if es != [] { NoTimerStays(Step(m, es[0]), es[1..]); }
  }

  /** Where a queued timer would stand with a period less for each notification. */
  function Slack(m: Machine): int
    requires m.hr.expiry.Some?
  {
    m.hr.expiry.value - m.notified * m.hr.periodTime
  }

  /** A callback moves the timer on by one period if it is prompt, and else by more. */
  lemma FireMoves(m: Machine)
    requires Alive(m) && Queued(m) && Enabled(m, Fire(false))
    ensures var s := Step(m, Fire(false));
      Queued(s) && Slack(s) >= Slack(m) && (Slack(s) == Slack(m) <==> m.now < m.hr.expiry.value + m.hr.periodTime)
  {
    var late, p := m.now - m.hr.expiry.value, m.hr.periodTime;
    var j := late / p;
    assert late == j * p + late % p && (j + 1) * p == j * p + p;
    assert (m.notified + 1) * p == m.notified * p + p;
    FloorGalois(late, p, 0);
    FloorGalois(late, p, 1);
    MulMonotone(0, j, p);
    if j >= 1 { MulMonotone(1, j, p); }
  }

  /** While the stream runs its timer has moved on by at least a period a notification,
      and by exactly that when every callback was prompt, and only then. */
  lemma {:induction false} MovedIff(m: Machine, es: seq<Event>)
    requires Alive(m) && Legal(m, es) && Queued(m)
    ensures var r := Run(m, es);
      r.hr.expiry.Some? ==> Queued(r) && Slack(r) >= Slack(m) && (Slack(r) == Slack(m) <==> Prompt(m, es))
    decreases |es|
  {
    if es != [] {
      var s := Step(m, es[0]);
      if s.hr.expiry.None? {
        NoTimerStays(s, es[1..]);
      } else {
        if es[0].Fire? { FireMoves(m); }
        MovedIff(s, es[1..]);
      }
    }
  }

  /** Between the grid points k - 1 and k, k - 1 periods have passed. */
  lemma GridCount(since: int, p: int, k: int, n: int)
    requires p > 0 && k > n && k * p - p <= since < k * p
    ensures n <= since / p && (n == since / p <==> k * p - p == n * p)
  {
    assert (k - 1) * p == k * p - p;
    DivUnique(since, p, k - 1);
    if k - 1 > n { MulMonotone(n + 1, k - 1, p); }
  }

  /** How many notifications a running stream has sent whenever its timer is not overdue:
      never more than the periods on the grid since the start, and exactly that many when
      every callback came before the next grid point, and only then. */
  lemma NotifiedIff(h: Hr, now: int, armedAt: int, es: seq<Event>)
    requires h.periodTime > 0 && now <= armedAt
    requires Legal(Machine(HrStarted(h, now, armedAt), armedAt, 0), es)
    ensures var m := Machine(HrStarted(h, now, armedAt), armedAt, 0);
      var r := Run(m, es);
      r.hr.expiry.Some? && r.now < r.hr.expiry.value ==>
        && r.notified <= (r.now - armedAt) / h.periodTime
        && (r.notified == (r.now - armedAt) / h.periodTime <==> Prompt(m, es))
  {
    var m := Machine(HrStarted(h, now, armedAt), armedAt, 0);
    var p := h.periodTime;
    assert m.hr.expiry.value == armedAt + 1 * p;
    RunOnGrid(m, es, armedAt);
    MovedIff(m, es);
    var r := Run(m, es);
    if r.hr.expiry.Some? && r.now < r.hr.expiry.value {
      var k: int :| k > r.notified && r.hr.expiry.value == armedAt + k * p;
      assert Slack(m) == armedAt + p && Slack(r) == armedAt + k * p - r.notified * p;
      GridCount(r.now - armedAt, p, k, r.notified);
    }
  }

  /** Whatever the stream did before, a start makes the pointer count from it: after any
      legal run it reports the frames of the time since, however often the timer fired
      and even if the stream was stopped meanwhile. */
  lemma PointerCountsFromStart(h: Hr, now: int, armedAt: int, rate: int, bufferSize: int, es: seq<Event>)
    requires h.periodTime > 0 && now <= armedAt && bufferSize > 0
    requires Legal(Machine(HrStarted(h, now, armedAt), armedAt, 0), es)
    ensures var r := Run(Machine(HrStarted(h, now, armedAt), armedAt, 0), es);
      Reported(r.hr, r.now, rate, bufferSize) == Frames((r.now - now) / 1000, rate) % bufferSize
  {
    var m := Machine(HrStarted(h, now, armedAt), armedAt, 0);
    assert m.hr.expiry.value == armedAt + 1 * m.hr.periodTime;
    RunOnGrid(m, es, armedAt);
  }

  /** A callback of a stream that goes on leaves the timer queued for an instant still to
      come, at most a period away and whole periods from where it was. */
  lemma FireRequeues(m: Machine)
    requires Alive(m) && m.hr.running && Enabled(m, Fire(false))
    ensures var s := Step(m, Fire(false));
      && s.notified == m.notified + 1 && s.hr.running && s.hr.expiry.Some?
      && m.now < s.hr.expiry.value <= m.now + m.hr.periodTime
      && (s.hr.expiry.value - m.hr.expiry.value) % m.hr.periodTime == 0
  {
    var late, p := m.now - m.hr.expiry.value, m.hr.periodTime;
    var j := late / p;
    assert late == j * p + late % p && (j + 1) * p == j * p + p;
    ModAddMultiple(0, p, j + 1);
    DivUnique(0, p, 0);
  }

  /** A stream that is not running notifies no more until it is started again, and with
      no timer queued never has one. */
  lemma {:induction false} StoppedStaysSilent(m: Machine, es: seq<Event>)
    requires Alive(m) && Legal(m, es) && !m.hr.running
    ensures Run(m, es).notified == m.notified && !Run(m, es).hr.running
    ensures m.hr.expiry.None? ==> Run(m, es).hr.expiry.None?
    decreases |es|
  {
    if es != [] {
      StoppedStaysSilent(Step(m, es[0]), es[1..]);
    }
  }

  /** A stop, and a callback in which ALSA stops the stream, bring that about: whatever
      follows, nothing is queued, and ALSA hears at most of that callback. */
  lemma StopSilences(m: Machine, es: seq<Event>)
    requires Alive(m)
    ensures Legal(Step(m, Stop), es) ==>
      var r := Run(Step(m, Stop), es);
      r.notified == m.notified && !r.hr.running && r.hr.expiry.None?
    ensures Enabled(m, Fire(true)) && Legal(Step(m, Fire(true)), es) ==>
      var r := Run(Step(m, Fire(true)), es);
      r.notified == m.notified + (if m.hr.running then 1 else 0) && !r.hr.running && r.hr.expiry.None?
  {
    if Legal(Step(m, Stop), es) { StoppedStaysSilent(Step(m, Stop), es); }
    if Enabled(m, Fire(true)) && Legal(Step(m, Fire(true)), es) { StoppedStaysSilent(Step(m, Fire(true)), es); }
  }
}
