/** Every run of the tick-driven clock after a prepare: what is conserved, when the
    timer fires, and what polling the pointer can and cannot change. */
module TickRuns {
  import opened Arith
  import opened TickClock

  /** What can happen to a prepared stream: jiffies pass, ALSA triggers or polls it,
      or the pending timer, once expired, fires. */
  datatype Event = Tick(jiffies: nat) | Start | Stop | Poll | Fire

  datatype Machine = Machine(pcm: Pcm, now: int)

  predicate Enabled(m: Machine, e: Event) {
    e.Fire? ==> m.pcm.timer.Some? && m.pcm.timer.value <= m.now
  }

  /** The stream has a well-formed clock that is not ahead of jiffies. */
  ghost predicate Running(m: Machine) {
    m.pcm.clock.WellFormed() && m.pcm.clock.baseTime <= m.now
  }

  /** What a prepare sets and nothing else does. */
  function Parameters(c: Clock): (int, int, int) {
    (c.rate, c.bufferSize, c.periodSize)
  }

  function Step(m: Machine, e: Event): (r: Machine)
    requires Running(m)
    ensures Running(r) && Parameters(r.pcm.clock) == Parameters(m.pcm.clock)
  {
    AdvanceWellFormed(m.pcm.clock, m.now);
    match e
    case Tick(d) => m.(now := m.now + d)
    case Start => m.(pcm := Started(m.pcm, m.now))
    case Stop => m.(pcm := Stopped(m.pcm))
    case Poll => m.(pcm := Updated(m.pcm, m.now))
    case Fire => m.(pcm := CalledBack(m.pcm, m.now))
  }

  /** A run is legal when the timer only ever fires once it has expired. */
  ghost predicate Legal(m: Machine, es: seq<Event>)
    requires Running(m)
    decreases |es|
  {
    es != [] ==> Enabled(m, es[0]) && Legal(Step(m, es[0]), es[1..])
  }

  ghost function Run(m: Machine, es: seq<Event>): (r: Machine)
    requires Running(m)
    ensures Running(r)
    decreases |es|
  {
    if es == [] then m else Run(Step(m, es[0]), es[1..])
  }

  lemma ParametersStay(m: Machine, es: seq<Event>)
    requires Running(m)
    ensures Parameters(Run(m, es).pcm.clock) == Parameters(m.pcm.clock)
    decreases |es|
  {
  }

  // ----- Conservation --------------------------------------------------------

  /** Fractions of a frame counted by all the updates since the prepare. */
  function Counted(p: Pcm): int {
    p.clock.rate * p.consumed
  }

  /** The books balance: with N fractions counted, the ring position is N modulo the
      ring, the rest is what N lacks to the next boundary, the periods retired and
      pending are the whole periods in N, and since the prepare at `origin` every
      jiffy up to the last update was either counted once or dropped by a start. */
  ghost predicate Balanced(p: Pcm, origin: int) {
    var n := Counted(p);
    && p.clock.WellFormed()
    && p.consumed >= 0 && p.skipped >= 0
    && p.consumed + p.skipped == p.clock.baseTime - origin
    && p.clock.fracPos == n % p.clock.bufferSize
    && p.clock.periodRest == p.clock.periodSize - n % p.clock.periodSize
    && p.clock.elapsed + p.retired == n / p.clock.periodSize
  }

  lemma UpdateBalances(p: Pcm, now: int, origin: int)
    requires Balanced(p, origin) && p.clock.baseTime <= now
    ensures Balanced(Updated(p, now), origin)
  {
    var c, n := p.clock, Counted(p);
    var x := c.Due(now);
    AdvanceWellFormed(c, now);
    assert c.rate * (p.consumed + (now - c.baseTime)) == n + x;
    CountOn(n, x, c.bufferSize);
    CountOn(n, x, c.periodSize);
  }

  lemma StepBalances(m: Machine, e: Event, origin: int)
    requires Running(m) && Balanced(m.pcm, origin)
    ensures Balanced(Step(m, e).pcm, origin)
  {
    UpdateBalances(m.pcm, m.now, origin);
  }

  /** Conservation over every run: no period is lost and none is counted twice. */
  lemma {:induction false} Conservation(m: Machine, es: seq<Event>, origin: int)
    requires Running(m) && Balanced(m.pcm, origin)
    ensures Balanced(Run(m, es).pcm, origin)
    decreases |es|
  {
    if es != [] {
      StepBalances(m, es[0], origin);
      Conservation(Step(m, es[0]), es[1..], origin);
    }
  }

  /** A prepare opens the books, whatever was in the fields before. */
  lemma PrepareBalances(p: Pcm, hz: int, rate: int, frames: int, periodFrames: int)
    requires hz > 0 && rate > 0 && frames > 0 && periodFrames > 0
    ensures Balanced(Prepared(p, hz, rate, frames, periodFrames), p.clock.baseTime)
  {
  }

  /** The books written as one sum: retired and pending periods, plus the progress
      into the current one, are exactly what was counted. */
  lemma NothingLost(p: Pcm, origin: int)
    requires Balanced(p, origin)
    ensures (p.retired + p.clock.elapsed) * p.clock.periodSize + p.clock.Phase() == Counted(p)
  {
  }

  /** The pointer a poll reports: whole frames counted so far, modulo the ring, so
      always a frame of the ring. */
  lemma PointerIsFramesCounted(p: Pcm, origin: int, hz: int, frames: int)
    requires Balanced(p, origin) && hz > 0 && frames > 0 && p.clock.bufferSize == frames * hz
    ensures p.clock.fracPos / hz == (Counted(p) / hz) % frames
    ensures 0 <= p.clock.fracPos / hz < frames
  {
    DivOfMod(Counted(p), frames, hz);
  }

  /** The position loop and the period loop never look at each other; they stay in
      phase over every count exactly when the ring is a whole number of periods. */
  lemma InPhaseIff(bufferSize: int, periodSize: int)
    requires bufferSize > 0 && periodSize > 0
    ensures (forall n: int {:trigger n % bufferSize} :: n >= 0 ==> (n % bufferSize) % periodSize == n % periodSize)
      <==> bufferSize % periodSize == 0
  {
    if bufferSize % periodSize == 0 {
      forall n: int | n >= 0 ensures (n % bufferSize) % periodSize == n % periodSize {
        ModOfMod(n, bufferSize, periodSize);
      }
    } else {
      var n := bufferSize;
      DivUnique(n, bufferSize, 1);
      DivUnique(0, periodSize, 0);
      assert (n % bufferSize) % periodSize != n % periodSize;
    }
  }

  /** In every reachable state the ring position, taken modulo the period, is the
      progress into the current period. */
  lemma PositionInPhase(p: Pcm, origin: int)
    requires Balanced(p, origin) && p.clock.bufferSize % p.clock.periodSize == 0
    ensures p.clock.fracPos % p.clock.periodSize == p.clock.Phase()
  {
    MulMonotone(0, p.consumed, p.clock.rate);
    InPhaseIff(p.clock.bufferSize, p.clock.periodSize);
  }

  // ----- Timer exactness -----------------------------------------------------

  /** The jiffy named by NextBoundary is the first at which an update would cross a
      period boundary. */
  lemma FirstCrossing(c: Clock, now: int)
    requires c.WellFormed() && c.baseTime <= now
    ensures c.Advance(now).elapsed > c.elapsed <==> c.NextBoundary() <= now
  {
    var phase := c.Phase() + c.Due(now);
    FloorGalois(phase, c.periodSize, 1);
    CeilGalois(c.periodRest, c.rate, now - c.baseTime);
  }

  /** An update never moves the next boundary back, and leaves it where it is unless
      it crosses it. */
  lemma BoundaryMoves(c: Clock, now: int)
    requires c.WellFormed() && c.baseTime <= now
    ensures c.NextBoundary() <= c.Advance(now).NextBoundary()
    ensures c.Advance(now).elapsed == c.elapsed ==> c.Advance(now).NextBoundary() == c.NextBoundary()
  {
    var c' := c.Advance(now);
    AdvanceWellFormed(c, now);
    FirstCrossing(c, now);
    if c'.elapsed == c.elapsed {
      assert c'.periodRest == c.periodRest - (now - c.baseTime) * c.rate by { RestShrinks(c, now); }
      CeilShift(c.periodRest, c.rate, now - c.baseTime);
    } else {
      assert c'.elapsed > c.elapsed by { AdvanceCounts(c, now); }
      CeilGalois(c'.periodRest, c.rate, 0);
    }
  }

  lemma RestShrinks(c: Clock, now: int)
    requires c.WellFormed() && c.Advance(now).elapsed == c.elapsed
    ensures c.Advance(now).periodRest == c.periodRest - c.Due(now)
  {
  }

  lemma AdvanceCounts(c: Clock, now: int)
    requires c.WellFormed() && c.baseTime <= now
    ensures c.Advance(now).elapsed >= c.elapsed
  {
  }

  /** While the timer is armed it is never late, and unless a crossing is already
      pending it is armed for exactly the next boundary. */
  ghost predicate TimerExact(p: Pcm)
    requires p.clock.rate > 0
  {
    p.timer.Some? ==>
      && p.timer.value <= p.clock.NextBoundary()
      && (p.clock.elapsed == 0 ==> p.timer.value == p.clock.NextBoundary())
  }

  lemma StepKeepsTimerExact(m: Machine, e: Event)
    requires Running(m) && TimerExact(m.pcm)
    ensures TimerExact(Step(m, e).pcm)
  {
    if e.Poll? {
      BoundaryMoves(m.pcm.clock, m.now);
      AdvanceCounts(m.pcm.clock, m.now);
    }
  }

  lemma {:induction false} TimerStaysExact(m: Machine, es: seq<Event>)
    requires Running(m) && TimerExact(m.pcm)
    ensures TimerExact(Run(m, es).pcm)
    decreases |es|
  {
    if es != [] {
      StepKeepsTimerExact(m, es[0]);
      TimerStaysExact(Step(m, es[0]), es[1..]);
    }
  }

  /** Rearmed right after an update, with nothing pending, the timer names a jiffy still
      to come: the first at which an update will find a period to retire. */
  lemma RearmedForNext(c: Clock)
    requires c.WellFormed() && c.elapsed == 0
    ensures c.NextBoundary() > c.baseTime
    ensures forall t :: c.baseTime <= t ==> (c.Advance(t).elapsed > 0 <==> c.NextBoundary() <= t)
  {
    CeilGalois(c.periodRest, c.rate, 0);
    forall t | c.baseTime <= t ensures c.Advance(t).elapsed > 0 <==> c.NextBoundary() <= t {
      FirstCrossing(c, t);
    }
  }

  /** No callback fires in vain: at or after the expiry of an exact timer there is a
      period to retire, so ALSA is notified, and the timer is rearmed for a jiffy still to
      come, the first one at which an update will cross the next boundary. */
  lemma FiringRetires(m: Machine)
    requires Running(m) && TimerExact(m.pcm) && Enabled(m, Fire)
    ensures var p := Step(m, Fire).pcm;
      && p.retired > m.pcm.retired && p.notified == m.pcm.notified + 1
      && p.timer.Some? && p.timer.value > m.now
      && forall t :: m.now <= t ==> (p.clock.Advance(t).elapsed > 0 <==> p.timer.value <= t)
  {
    FirstCrossing(m.pcm.clock, m.now);
    RearmedForNext(Step(m, Fire).pcm.clock);
  }

  /** Whatever is pending, a start arms the timer for a jiffy still to come, the first at
      which an update will cross a boundary more, and leaves the stream where it was. */
  lemma StartArms(m: Machine)
    requires Running(m)
    ensures var p := Step(m, Start).pcm;
      && p.clock == m.pcm.clock.(baseTime := m.now)
      && p.retired == m.pcm.retired && p.notified == m.pcm.notified
      && p.timer.Some? && p.timer.value > m.now
      && forall t :: m.now <= t ==> (p.clock.Advance(t).elapsed > p.clock.elapsed <==> p.timer.value <= t)
  {
    var c := Step(m, Start).pcm.clock;
    CeilGalois(c.periodRest, c.rate, 0);
    forall t | m.now <= t ensures c.Advance(t).elapsed > c.elapsed <==> c.NextBoundary() <= t {
      FirstCrossing(c, t);
    }
  }

  /** With no timer armed, nothing fires and nothing is retired until the next start. */
  lemma {:induction false} IdleStaysIdle(m: Machine, es: seq<Event>)
    requires Running(m) && m.pcm.timer.None? && Start !in es && Legal(m, es)
    ensures Fire !in es && Run(m, es).pcm.timer.None?
    ensures Run(m, es).pcm.retired == m.pcm.retired && Run(m, es).pcm.notified == m.pcm.notified
    decreases |es|
  {
    if es != [] {
      IdleStaysIdle(Step(m, es[0]), es[1..]);
    }
  }

  /** After a stop, until the next start, no callback comes in any legal run: ALSA is
      notified of nothing. */
  lemma StopSilences(m: Machine, es: seq<Event>)
    requires Running(m) && Start !in es && Legal(Step(m, Stop), es)
    ensures Fire !in es
    ensures Run(Step(m, Stop), es).pcm.retired == m.pcm.retired
    ensures Run(Step(m, Stop), es).pcm.notified == m.pcm.notified
    ensures Step(m, Stop).pcm.clock == m.pcm.clock
  {
    IdleStaysIdle(Step(m, Stop), es);
  }

  // ----- The two invariants from the prepare on --------------------------------

  /** A stream just prepared while its timer is idle, as ALSA prepares it. */
  ghost predicate JustPrepared(m: Machine, hz: int, rate: int, frames: int, periodFrames: int) {
    && hz > 0 && rate > 0 && frames > 0 && periodFrames > 0
    && m.pcm.timer.None?
    && m.pcm.clock.baseTime <= m.now
    && m.pcm == Prepared(m.pcm, hz, rate, frames, periodFrames)
  }

  /** After every run from a prepare the books balance, a poll reports a frame of the
      ring, and any callback that comes due retires a period and notifies ALSA. */
  lemma EveryRun(m: Machine, hz: int, rate: int, frames: int, periodFrames: int, es: seq<Event>)
    requires JustPrepared(m, hz, rate, frames, periodFrames)
    ensures Running(m)
    ensures Balanced(Run(m, es).pcm, m.pcm.clock.baseTime)
    ensures TimerExact(Run(m, es).pcm)
    ensures Run(m, es).pcm.clock.fracPos / hz
      == (rate * Run(m, es).pcm.consumed / hz) % frames
    ensures Run(m, es).pcm.retired + Run(m, es).pcm.clock.elapsed
      == rate * Run(m, es).pcm.consumed / (periodFrames * hz)
    ensures Enabled(Run(m, es), Fire) ==>
      && Step(Run(m, es), Fire).pcm.retired > Run(m, es).pcm.retired
      && Step(Run(m, es), Fire).pcm.notified == Run(m, es).pcm.notified + 1
  {
    PrepareBalances(m.pcm, hz, rate, frames, periodFrames);
    Conservation(m, es, m.pcm.clock.baseTime);
    TimerStaysExact(m, es);
    ParametersStay(m, es);
    var r := Run(m, es);
    PointerIsFramesCounted(r.pcm, m.pcm.clock.baseTime, hz, frames);
    if Enabled(r, Fire) { FiringRetires(r); }
  }

  lemma NothingSkipped(m: Machine, es: seq<Event>)
    requires Running(m) && Start !in es
    ensures Run(m, es).pcm.skipped == m.pcm.skipped
    ensures Run(m, es).now >= m.now
    decreases |es|
  {
  }

  // ----- From a start to the next ----------------------------------------------

  /** Fractions played by `t` if the stream starts now and is not started again: what
      earlier stretches counted, and then every jiffy. */
  function PlayedBy(m: Machine, t: int): int {
    m.pcm.clock.rate * (m.pcm.consumed + (t - m.now))
  }

  /** After a start, first or resumed, an update counts every jiffy since the start on
      top of what was counted before it. */
  lemma SinceStart(m: Machine, origin: int, es: seq<Event>)
    requires Running(m) && Balanced(m.pcm, origin) && Start !in es
    ensures var r := Run(Step(m, Start), es);
      && Balanced(r.pcm, origin) && Balanced(Updated(r.pcm, r.now), origin)
      && Counted(Updated(r.pcm, r.now)) == PlayedBy(m, r.now)
      && Parameters(r.pcm.clock) == Parameters(m.pcm.clock)
  {
    StepBalances(m, Start, origin);
    var s := Step(m, Start);
    var r := Run(s, es);
    Conservation(s, es, origin);
    NothingSkipped(s, es);
    ParametersStay(s, es);
    UpdateBalances(r.pcm, r.now, origin);
  }

  /** From any start to the next, a poll reports the frames played by then, however the
      callbacks, polls and stops in between fell. */
  lemma PointerTracksTime(m: Machine, origin: int, hz: int, frames: int, es: seq<Event>)
    requires Running(m) && Balanced(m.pcm, origin) && Start !in es
    requires hz > 0 && frames > 0 && m.pcm.clock.bufferSize == frames * hz
    ensures var r := Run(Step(m, Start), es);
      r.pcm.clock.Advance(r.now).fracPos / hz == (PlayedBy(m, r.now) / hz) % frames
  {
    SinceStart(m, origin, es);
    var r := Run(Step(m, Start), es);
    PointerIsFramesCounted(Updated(r.pcm, r.now), origin, hz, frames);
  }

  /** Unless the timer is overdue, `backlog` periods are pending. */
  ghost predicate PendingIs(m: Machine, backlog: int) {
    m.pcm.timer.Some? && m.now < m.pcm.timer.value ==> m.pcm.clock.elapsed == backlog
  }

  /** The periods pending at a start stay pending up to the first callback after it. */
  function Backlog(m: Machine, es: seq<Event>): int {
    if Fire in es then 0 else m.pcm.clock.elapsed
  }

  lemma StepKeepsPending(m: Machine, e: Event, backlog: int)
    requires Running(m) && TimerExact(m.pcm) && PendingIs(m, backlog) && !e.Start?
    ensures PendingIs(Step(m, e), if e.Fire? then 0 else backlog)
  {
    if e.Poll? {
      FirstCrossing(m.pcm.clock, m.now);
      AdvanceCounts(m.pcm.clock, m.now);
    }
  }

  lemma {:induction false} PendingStays(m: Machine, es: seq<Event>, backlog: int)
    requires Running(m) && TimerExact(m.pcm) && PendingIs(m, backlog) && Start !in es
    ensures PendingIs(Run(m, es), if Fire in es then 0 else backlog)
    decreases |es|
  {
    if es != [] {
      StepKeepsTimerExact(m, es[0]);
      StepKeepsPending(m, es[0], backlog);
      PendingStays(Step(m, es[0]), es[1..], if es[0].Fire? then 0 else backlog);
    }
  }

  /** How promptly callbacks retire periods, from any start to the next and however late
      some came: never one too many, and whenever the armed timer is not overdue exactly
      the periods played, less those that were pending at the start if no callback has
      come since. */
  lemma RetiredOnTime(m: Machine, origin: int, es: seq<Event>)
    requires Running(m) && Balanced(m.pcm, origin) && Start !in es
    ensures var r := Run(Step(m, Start), es);
      && r.pcm.retired <= PlayedBy(m, r.now) / m.pcm.clock.periodSize
      && (r.pcm.timer.Some? && r.now < r.pcm.timer.value ==>
            r.pcm.retired == PlayedBy(m, r.now) / m.pcm.clock.periodSize - Backlog(m, es))
  {
    SinceStart(m, origin, es);
    var s := Step(m, Start);
    var r := Run(s, es);
    TimerStaysExact(s, es);
    PendingStays(s, es, m.pcm.clock.elapsed);
    FirstCrossing(r.pcm.clock, r.now);
    AdvanceCounts(r.pcm.clock, r.now);
  }

  /** Every period played has been retired, unless the timer is overdue. */
  ghost predicate OnTime(m: Machine, es: seq<Event>)
    requires Running(m)
  {
    var r := Run(Step(m, Start), es);
    r.pcm.timer.Some? && r.now < r.pcm.timer.value ==>
      r.pcm.retired == PlayedBy(m, r.now) / m.pcm.clock.periodSize
  }

  /** After a start, callbacks are on time in every run exactly when it finds no period
      pending. */
  lemma OnTimeIff(m: Machine, origin: int)
    requires Running(m) && Balanced(m.pcm, origin)
    ensures (forall es :: Start !in es ==> OnTime(m, es)) <==> m.pcm.clock.elapsed == 0
  {
    if m.pcm.clock.elapsed == 0 {
      forall es | Start !in es ensures OnTime(m, es) {
        RetiredOnTime(m, origin, es);
      }
    } else {
      RetiredOnTime(m, origin, []);
      CeilGalois(m.pcm.clock.periodRest, m.pcm.clock.rate, 0);
      assert !OnTime(m, []);
    }
  }

  /** A stop can leave a crossed period pending: from a start that finds none, one poll
      after `jiffies` and a stop do exactly when the jiffies reach the next boundary, and
      exactly then a resume is late. */
  lemma PollThenStopPendsIff(m: Machine, origin: int, jiffies: nat)
    requires Running(m) && Balanced(m.pcm, origin) && m.pcm.clock.elapsed == 0
    ensures var p := Step(Step(Step(m, Start), Tick(jiffies)), Poll);
      && Running(p)
      && (Step(p, Stop).pcm.clock.elapsed > 0 <==> jiffies * m.pcm.clock.rate >= m.pcm.clock.periodRest)
      && (OnTime(Step(p, Stop), []) <==> jiffies * m.pcm.clock.rate < m.pcm.clock.periodRest)
  {
    var s := Step(m, Start);
    var t := Step(s, Tick(jiffies));
    var p := Step(t, Poll);
    StepBalances(m, Start, origin);
    StepBalances(t, Poll, origin);
    FloorGalois(t.pcm.clock.Phase() + t.pcm.clock.Due(t.now), m.pcm.clock.periodSize, 1);
    var r := Step(p, Stop);
    RetiredOnTime(r, origin, []);
    CeilGalois(r.pcm.clock.periodRest, r.pcm.clock.rate, 0);
  }

  // ----- Notifications ------------------------------------------------------------

  /** No callback of the run finds more than one period to retire. */
  ghost predicate OneAtATime(m: Machine, es: seq<Event>)
    requires Running(m)
    decreases |es|
  {
    es != [] ==>
      && (es[0].Fire? ==> m.pcm.clock.Advance(m.now).elapsed <= 1)
      && OneAtATime(Step(m, es[0]), es[1..])
  }

  /** ALSA is told of at most as many periods as callbacks retire, and of exactly as
      many when no callback finds more than one, and only then. */
  lemma {:induction false} NotifiedIff(m: Machine, es: seq<Event>)
    requires Running(m)
    ensures var r := Run(m, es);
      var told, gone := r.pcm.notified - m.pcm.notified, r.pcm.retired - m.pcm.retired;
      told <= gone && (told == gone <==> OneAtATime(m, es))
    decreases |es|
  {
    if es != [] {
      AdvanceCounts(m.pcm.clock, m.now);
      NotifiedIff(Step(m, es[0]), es[1..]);
    }
  }

  /** With nothing pending, a callback finds at most one period exactly when it comes
      before the second boundary ahead. */
  lemma OnePeriodIff(c: Clock, now: int)
    requires c.WellFormed() && c.baseTime <= now && c.elapsed == 0
    ensures c.Advance(now).elapsed <= 1 <==> now < c.baseTime + CeilDiv(c.periodRest + c.periodSize, c.rate)
  {
    FloorGalois(c.Phase() + c.Due(now), c.periodSize, 2);
    CeilGalois(c.periodRest + c.periodSize, c.rate, now - c.baseTime);
  }

  // ----- Polling -------------------------------------------------------------

  /** One update after d1 + d2 ticks is two updates, after d1 and again after d2. */
  lemma AdvanceTwice(c: Clock, t1: int, t2: int)
    requires c.WellFormed() && c.baseTime <= t1 <= t2
    ensures c.Advance(t1).WellFormed()
    ensures c.Advance(t1).Advance(t2) == c.Advance(t2)
  {
    AdvanceWellFormed(c, t1);
    SamePosition(c, t1, t2);
    SamePeriods(c, t1, t2);
  }

  lemma SamePosition(c: Clock, t1: int, t2: int)
    requires c.bufferSize > 0 && c.periodSize > 0
    ensures c.Advance(t1).Advance(t2).fracPos == c.Advance(t2).fracPos
  {
    var c1, d := c.Advance(t1), c.bufferSize;
    var x, y, z := c.Due(t1), c1.Due(t2), c.Due(t2);
    DueAdds(c, t1, t2);
    assert c1.fracPos == (c.fracPos + x) % d;
    assert c1.Advance(t2).fracPos == (c1.fracPos + y) % d;
    assert c.Advance(t2).fracPos == (c.fracPos + z) % d;
    CountTwice(c.fracPos, x, y, z, d, c1.fracPos);
  }

  lemma SamePeriods(c: Clock, t1: int, t2: int)
    requires c.bufferSize > 0 && c.periodSize > 0
    ensures c.Advance(t1).Advance(t2).periodRest == c.Advance(t2).periodRest
    ensures c.Advance(t1).Advance(t2).elapsed == c.Advance(t2).elapsed
  {
    var c1, d := c.Advance(t1), c.periodSize;
    var phase, x, y, z := c.Phase(), c.Due(t1), c1.Due(t2), c.Due(t2);
    DueAdds(c, t1, t2);
    assert c1.Phase() == (phase + x) % d && c1.elapsed == c.elapsed + (phase + x) / d;
    assert c1.Advance(t2).Phase() == (c1.Phase() + y) % d;
    assert c1.Advance(t2).elapsed == c1.elapsed + (c1.Phase() + y) / d;
    assert c.Advance(t2).Phase() == (phase + z) % d;
    assert c.Advance(t2).elapsed == c.elapsed + (phase + z) / d;
    CountTwice(phase, x, y, z, d, c1.Phase());
  }

  lemma DueAdds(c: Clock, t1: int, t2: int)
    requires c.bufferSize > 0 && c.periodSize > 0
    ensures c.Due(t2) == c.Due(t1) + c.Advance(t1).Due(t2)
  {
  }

  /** Two machines no poll can tell apart. */
  ghost predicate SameToAll(m1: Machine, m2: Machine) {
    && Running(m1) && Running(m2)
    && m1.now == m2.now
    && m1.pcm.timer == m2.pcm.timer
    && m1.pcm.retired == m2.pcm.retired && m1.pcm.notified == m2.pcm.notified
    && m1.pcm.clock.Advance(m1.now) == m2.pcm.clock.Advance(m2.now)
  }

  function WithoutPolls(es: seq<Event>): seq<Event> {
    if es == [] then []
    else (if es[0].Poll? then [] else [es[0]]) + WithoutPolls(es[1..])
  }

  lemma StepSame(m1: Machine, m2: Machine, e: Event)
    requires SameToAll(m1, m2) && !e.Start?
    ensures SameToAll(Step(m1, e), Step(m2, e))
  {
    if e.Tick? {
      var t := m1.now + e.jiffies;
      AdvanceTwice(m1.pcm.clock, m1.now, t);
      AdvanceTwice(m2.pcm.clock, m2.now, t);
    }
  }

  lemma PollSame(m1: Machine, m2: Machine)
    requires SameToAll(m1, m2)
    ensures SameToAll(Step(m1, Poll), m2)
  {
    AdvanceTwice(m1.pcm.clock, m1.now, m1.now);
  }

  /** Polling does not matter while the stream runs: strike every poll out of any run
      without a start and the result is the same position, rest, pending count,
      periods retired and timer, and the callbacks fire at the same moments. */
  lemma {:induction false} PollingDoesNotMatter(m1: Machine, m2: Machine, es: seq<Event>)
    requires SameToAll(m1, m2) && Legal(m1, es)
    requires Start !in es
    ensures Legal(m2, WithoutPolls(es))
    ensures SameToAll(Run(m1, es), Run(m2, WithoutPolls(es)))
    decreases |es|
  {
    if es != [] {
      var e, rest := es[0], es[1..];
      if e.Poll? {
        PollSame(m1, m2);
        assert WithoutPolls(es) == WithoutPolls(rest);
        PollingDoesNotMatter(Step(m1, e), m2, rest);
      } else {
        StepSame(m1, m2, e);
        PollingDoesNotMatter(Step(m1, e), Step(m2, e), rest);
        assert WithoutPolls(es)[0] == e && WithoutPolls(es)[1..] == WithoutPolls(rest);
      }
    }
  }

  /** Across a start polling does matter: a start drops the jiffies since the last
      update, so a poll just before it changes the clock exactly when there are any. */
  lemma PollBeforeStartIsFreeIff(p: Pcm, now: int)
    requires p.clock.WellFormed() && p.clock.baseTime <= now
    ensures Started(Updated(p, now), now).clock == Started(p, now).clock <==> now == p.clock.baseTime
  {
    var c := p.clock;
    AdvanceWellFormed(c, now);
    CountNothing(c);
    if now != c.baseTime {
      var phase, x := c.Phase(), c.Due(now);
      MulMonotone(1, now - c.baseTime, c.rate);
      assert phase + x == ((phase + x) / c.periodSize) * c.periodSize + (phase + x) % c.periodSize;
      assert c.Advance(now).elapsed == c.elapsed + (phase + x) / c.periodSize;
    }
  }
}
