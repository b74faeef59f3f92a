/** The tick-driven clock in the integers the drivers declare: `unsigned int` is 32
    bits, `unsigned long` (jiffies and the delta) is 32 or 64 bits, and both wrap. */
module TickFixedWidth {
  import opened Arith
  import opened Options
  import opened TickClock
  import opened TickRuns

  const U32 := 0x1_0000_0000
  const U64 := 0x1_0000_0000_0000_0000

  /** An update at `now` is timely when what it adds, with a whole ring on top, still
      fits an unsigned int. */
  ghost predicate Timely(c: Clock, now: int) {
    c.baseTime <= now && c.Due(now) + c.bufferSize < U32
  }

  /** The sizes ALSA negotiates fit: the rearm sum cannot wrap and a period is no
      longer than the ring. */
  ghost predicate Fits(c: Clock) {
    c.WellFormed() && c.periodSize <= c.bufferSize && c.bufferSize + c.rate <= U32
  }

  /** When an update in 32-bit words is exact: the sum of position and time due drops
      nothing but whole rings, and the first period rest above the time due fits a word. */
  ghost predicate Exact(c: Clock, now: int)
    requires c.WellFormed()
  {
    && c.baseTime <= now
    && (c.fracPos + c.Due(now)) / U32 * U32 % c.bufferSize == 0
    && c.Due(now) + c.Advance(now).periodRest < U32
  }

  lemma TimelyIsExact(c: Clock, now: int)
    requires Fits(c) && Timely(c, now)
    ensures Exact(c, now)
  {
    AdvanceWellFormed(c, now);
    MulMonotone(0, now - c.baseTime, c.rate);
    NothingDropped(c.fracPos + c.Due(now), c.bufferSize);
  }

  lemma NothingDropped(sum: int, ring: int)
    requires 0 <= sum < U32 && ring > 0
    ensures sum / U32 * U32 % ring == 0
  {
    DivUnique(sum, U32, 0);
    DivUnique(0, ring, 0);
  }

  function Wrapped(t: Option<int>, width: int): Option<int>
    requires width > 0
  {
    match t
    case None => None
    case Some(v) => Some(v % width)
  }

  /** Reducing twice, and reducing before or after a sum or difference. */
  lemma WrapSum(a: int, b: int, width: int)
    requires width > 0
    ensures (a % width + b) % width == (a + b) % width
    ensures (a - b % width) % width == (a - b) % width
  {
    CountOn(a, b, width);
    assert b == (b / width) * width + b % width;
    ModAddMultiple(a - b, width, b / width);
  }

  /** Two wrapped jiffy counts differ by the true gap, and the gap survives the
      multiplication by the rate, as long as the product fits 32 bits. */
  lemma TrueGap(c: Clock, now: int, width: int)
    requires c.WellFormed() && c.baseTime <= now && c.Due(now) < U32 <= width
    ensures (now % width - c.baseTime % width) % width == now - c.baseTime
    ensures (c.baseTime % width + (now - c.baseTime)) % width == now % width
    ensures 0 <= c.Due(now) < U32 && c.Due(now) % width == c.Due(now)
  {
    GapBelowDue(c, now);
    WrappedDifference(now, c.baseTime, width);
    ModSmall(c.Due(now), width);
  }

  lemma GapBelowDue(c: Clock, now: int)
    requires c.WellFormed() && c.baseTime <= now
    ensures 0 <= now - c.baseTime <= c.Due(now)
  {
    MulMonotone(1, c.rate, now - c.baseTime);
  }

  // ----- The period loop in 32-bit words -------------------------------------------

  /** The rest after k rounds of the loop. */
  function RestAfter(rest: int, period: int, k: nat): (r: int)
    ensures 0 <= r < U32
  {
    (rest + k * period) % U32
  }

  /** The loop ends after k rounds: its test holds before each of them and then fails. */
  ghost predicate EndsAfter(rest: int, period: int, delta: int, k: nat) {
    RestAfter(rest, period, k) > delta && forall j: nat :: j < k ==> RestAfter(rest, period, j) <= delta
  }

  /** What an update leaves in the words if its period loop ends after k rounds. */
  function WordsAfter(c: Clock, now: int, k: nat): Clock
    requires c.bufferSize > 0
  {
    c.(baseTime := now,
       fracPos := (c.fracPos + c.Due(now)) % U32 % c.bufferSize,
       periodRest := (RestAfter(c.periodRest, c.periodSize, k) - c.Due(now)) % U32,
       elapsed := c.elapsed + k)
  }

  /** Periods an update crosses, and the first rest above the time due. */
  lemma FirstRest(c: Clock, now: int) returns (q: nat)
    requires c.WellFormed() && c.baseTime <= now
    ensures c.Advance(now).elapsed == c.elapsed + q
    ensures c.periodRest + q * c.periodSize == c.Due(now) + c.Advance(now).periodRest
  {
    AdvanceCounts(c, now);
    q := c.Advance(now).elapsed - c.elapsed;
    var phase := c.Phase() + c.Due(now);
    assert phase == phase / c.periodSize * c.periodSize + phase % c.periodSize;
  }

  /** While the rests fit a word, the loop ends at the first one above delta. */
  lemma EndsAtFirst(rest: int, period: int, delta: int, q: nat)
    requires 0 < rest && 0 < period && delta < rest + q * period < U32 && rest + q * period <= delta + period
    ensures EndsAfter(rest, period, delta, q)
  {
    MulMonotone(0, q, period);
    ModSmall(rest + q * period, U32);
    forall j: nat | j < q ensures RestAfter(rest, period, j) <= delta {
      MulMonotone(0, j, period);
      MulMonotone(j + 1, q, period);
      assert (j + 1) * period == j * period + period;
      ModSmall(rest + j * period, U32);
    }
  }

  /** The exact condition, for a product that the unsigned long holds: the update ends,
      and in the words of the unbounded one, exactly when it is Exact.  With 2^32 or more
      fractions due the loop never ends. */
  lemma UpdateExactIff(c: Clock, now: int)
    requires Fits(c) && c.baseTime <= now
    ensures (exists k: nat ::
              EndsAfter(c.periodRest, c.periodSize, c.Due(now), k) && WordsAfter(c, now, k) == c.Advance(now))
      <==> Exact(c, now)
    ensures c.Due(now) >= U32 ==> forall k: nat :: !EndsAfter(c.periodRest, c.periodSize, c.Due(now), k)
  {
    var q := FirstRest(c, now);
    var first, due := c.periodRest + q * c.periodSize, c.Due(now);
    AdvanceWellFormed(c, now);
    MulMonotone(0, now - c.baseTime, c.rate);
    WrappedPositionIff(c.fracPos + due, c.bufferSize);
    if Exact(c, now) {
      EndsAtFirst(c.periodRest, c.periodSize, due, q);
      ModSmall(first, U32);
      ModSmall(first - due, U32);
      assert WordsAfter(c, now, q) == c.Advance(now);
    }
    if k: nat :| EndsAfter(c.periodRest, c.periodSize, due, k) && WordsAfter(c, now, k) == c.Advance(now) {
      assert k == q;
      if first >= U32 { DivUnique(first, U32, 1); }
    }
  }

  class TickPcm32 {
    var baseTime: int
    var fracPos: int
    var fracPeriodRest: int
    var fracBufferSize: int
    var fracPeriodSize: int
    var rate: int
    var elapsed: int
    var timer: Option<int>
    const longWidth: int
    const hz: int

    /** The unbounded clock that these words stand for. */
    ghost var ideal: Pcm

    /** What holds from allocation on: the clock words and the timer, wrapped. */
    ghost predicate Allocated()
      reads this
    {
      && (longWidth == U32 || longWidth == U64) && hz > 0
      && baseTime == ideal.clock.baseTime % longWidth
      && timer == Wrapped(ideal.timer, longWidth)
    }

    /** The clock words stand for the fields of the unbounded clock. */
    ghost predicate ClockWords()
      reads this
    {
      && (longWidth == U32 || longWidth == U64) && hz > 0
      && Fits(ideal.clock)
      && baseTime == ideal.clock.baseTime % longWidth
      && fracPos == ideal.clock.fracPos
      && fracPeriodRest == ideal.clock.periodRest
      && fracBufferSize == ideal.clock.bufferSize
      && fracPeriodSize == ideal.clock.periodSize
      && rate == ideal.clock.rate
      && elapsed == ideal.clock.elapsed
    }

    /** What a prepare establishes: every word stands for its unbounded counterpart. */
    ghost predicate Valid()
      reads this
    {
      ClockWords() && timer == Wrapped(ideal.timer, longWidth)
    }

    constructor (longWidth: int, hz: int)
      requires (longWidth == U32 || longWidth == U64) && hz > 0
      ensures Allocated() && this.longWidth == longWidth && this.hz == hz
      ensures ideal == Pcm(Clock(0, 0, 0, 0, 0, 0, 0), None, 0, 0, 0, 0)
    {
      this.longWidth, this.hz := longWidth, hz;
      baseTime, fracPos, fracPeriodRest, fracBufferSize, fracPeriodSize, rate, elapsed := 0, 0, 0, 0, 0, 0, 0;
      timer := None;
      ideal := Pcm(Clock(0, 0, 0, 0, 0, 0, 0), None, 0, 0, 0, 0);
    }

    method Prepare(rate: int, frames: int, periodFrames: int)
      requires Allocated()
      requires rate > 0 && 0 < periodFrames <= frames && frames * hz + rate <= U32
      modifies this
      ensures Valid() && ideal == Prepared(old(ideal), hz, rate, frames, periodFrames)
    {
      MulMonotone(periodFrames, frames, hz);
      fracPos := 0;
      this.rate := rate;
      fracBufferSize := frames * hz % U32;
      fracPeriodSize := periodFrames * hz % U32;
      fracPeriodRest := fracPeriodSize;
      elapsed := 0;
      ideal := Prepared(ideal, hz, rate, frames, periodFrames);
    }

    /** Arms the timer for the wrapped image of the unbounded expiry. */
    method Rearm(jiffies: int, ghost now: int)
      requires ClockWords() && jiffies == now % longWidth
      modifies this`timer
      ensures timer == Some((now + CeilDiv(fracPeriodRest, rate)) % longWidth)
    {
      ModSmall(fracPeriodRest + rate - 1, U32);
      var ticks := (fracPeriodRest + rate - 1) % U32 / rate;
      timer := Some((jiffies + ticks) % longWidth);
      assert (jiffies + ticks) % longWidth == (now + ticks) % longWidth by { WrapSum(now, ticks, longWidth); }
    }

    /** The first loop of the update, for every delta: right as long as the sum fits a
        word, and past that exactly when the ring divides what the word dropped. */
    method TurnRing(delta: int)
      requires 0 < fracBufferSize <= U32 && 0 <= fracPos < fracBufferSize && 0 <= delta
      modifies this`fracPos
      ensures fracPos == (old(fracPos) + delta) % U32 % fracBufferSize
      ensures var sum := old(fracPos) + delta;
        && (fracPos == sum % fracBufferSize <==> (sum / U32 * U32) % fracBufferSize == 0)
        && (sum < U32 ==> fracPos == sum % fracBufferSize)
    {
      WrappedPositionIff(fracPos + delta, fracBufferSize);
      ghost var sum := (fracPos + delta) % U32;
      fracPos := (fracPos + delta) % U32;
      while fracPos >= fracBufferSize
        invariant 0 <= fracPos < U32 && fracPos % fracBufferSize == sum % fracBufferSize
        decreases fracPos
      {
        ModDrop(fracPos, fracBufferSize);
        ModSmall(fracPos - fracBufferSize, U32);
        fracPos := (fracPos - fracBufferSize) % U32;
      }
      ModSmall(fracPos, fracBufferSize);
    }

    /** The second loop: if some rest above delta fits a word, `enough` rounds on, it ends
        without a wrap at the first. */
    method CrossPeriods(delta: int, ghost enough: nat) returns (ghost rounds: nat)
      requires 0 < fracPeriodRest <= fracPeriodSize && 0 <= delta
      requires delta < fracPeriodRest + enough * fracPeriodSize < U32
      modifies this`elapsed, this`fracPeriodRest
      ensures elapsed == old(elapsed) + rounds
      ensures fracPeriodRest == old(fracPeriodRest) + rounds * fracPeriodSize - delta
      ensures 0 < fracPeriodRest <= fracPeriodSize
      ensures EndsAfter(old(fracPeriodRest), fracPeriodSize, delta, rounds)
    {
      ghost var rest, period := fracPeriodRest, fracPeriodSize;
      rounds := 0;
      while fracPeriodRest <= delta
        invariant fracPeriodSize == period && elapsed == old(elapsed) + rounds
        invariant fracPeriodRest == rest + rounds * period
        invariant 0 < fracPeriodRest <= delta + period && fracPeriodRest < U32
        decreases delta - fracPeriodRest
      {
        NextRest(rest, period, delta, rounds, enough);
        elapsed := elapsed + 1;
        fracPeriodRest := (fracPeriodRest + fracPeriodSize) % U32;
        assert fracPeriodRest == rest + (rounds + 1) * period;
        rounds := rounds + 1;
      }
      EndsAtFirst(rest, period, delta, rounds);
      ModSmall(fracPeriodRest - delta, U32);
      fracPeriodRest := (fracPeriodRest - delta) % U32;
    }

    /** One rest further, below one that fits a word. */
    lemma NextRest(rest: int, period: int, delta: int, rounds: nat, enough: nat)
      requires period > 0 && rest > 0 && rest + rounds * period <= delta < rest + enough * period < U32
      ensures rest + rounds * period + period == rest + (rounds + 1) * period < U32
      ensures (rest + rounds * period + period) % U32 == rest + (rounds + 1) * period
    {
      if rounds >= enough { MulMonotone(enough, rounds, period); }
      MulMonotone(rounds + 1, enough, period);
      MulMonotone(0, rounds, period);
      assert (rounds + 1) * period == rounds * period + period;
      ModSmall(rest + rounds * period + period, U32);
    }

    /** The update with every operation wrapped: the subtraction of two wrapped jiffy
        counts recovers the true gap, and neither loop ever wraps. */
    method Update(jiffies: int, ghost now: int)
      requires Valid() && jiffies == now % longWidth && Exact(ideal.clock, now)
      modifies this
      ensures Valid() && ideal == Updated(old(ideal), now)
    {
      ghost var c := ideal.clock;
      AdvanceWellFormed(c, now);
      TrueGap(c, now, longWidth);
      ghost var q := FirstRest(c, now);
      var delta := (jiffies - baseTime) % longWidth;
      ideal := Updated(ideal, now);
      if delta == 0 {
        CountNothing(c);
        return;
      }
      baseTime := (baseTime + delta) % longWidth;
      delta := delta * rate % longWidth;
      assert delta == c.Due(now);
      TurnRing(delta);
      ghost var rounds := CrossPeriods(delta, q);
      PeriodsCrossed(c, now, rounds);
    }

    method Start(jiffies: int, ghost now: int)
      requires Valid() && jiffies == now % longWidth
      modifies this
      ensures Valid() && ideal == Started(old(ideal), now)
      ensures timer == Some((now + CeilDiv(fracPeriodRest, rate)) % longWidth)
    {
      baseTime := jiffies;
      ideal := Started(ideal, now);
      Rearm(jiffies, now);
    }

    method Stop()
      requires Valid()
      modifies this
      ensures Valid() && ideal == Stopped(old(ideal))
      ensures timer.None?
    {
      timer := None;
      ideal := Stopped(ideal);
    }

    method Callback(jiffies: int, ghost now: int) returns (periods: int)
      requires Valid() && jiffies == now % longWidth && Exact(ideal.clock, now)
      modifies this
      ensures Valid() && ideal == CalledBack(old(ideal), now)
      ensures periods == ideal.retired - old(ideal.retired)
    {
      ghost var p := ideal;
      Update(jiffies, now);
      Rearm(jiffies, now);
      periods := elapsed;
      elapsed := 0;
      ideal := CalledBack(p, now);
    }

    method Pointer(jiffies: int, ghost now: int) returns (pos: int)
      requires Valid() && jiffies == now % longWidth && Exact(ideal.clock, now)
      modifies this
      ensures Valid() && ideal == Updated(old(ideal), now)
      ensures pos == ideal.clock.fracPos / hz
    {
      Update(jiffies, now);
      pos := fracPos / hz;
    }
  }

  // ----- When are updates exact? ---------------------------------------------

  /** Every update of the run is exact. */
  ghost predicate AllExact(m: Machine, es: seq<Event>)
    requires Running(m)
    decreases |es|
  {
    es != [] ==>
      && (es[0].Poll? || es[0].Fire? ==> Exact(m.pcm.clock, m.now))
      && AllExact(Step(m, es[0]), es[1..])
  }

  /** Whole-run refinement: the 32-bit driver, fed any run of exact updates, ends in the image of
      the state the unbounded clock ends in, with jiffies wrapping as they may. */
  method Replay(d: TickPcm32, now0: int, es: seq<Event>) returns (jiffies: int, ghost now: int)
    requires d.Valid() && Running(Machine(d.ideal, now0))
    requires AllExact(Machine(d.ideal, now0), es)
    modifies d
    ensures d.Valid()
    ensures Machine(d.ideal, now) == old(Run(Machine(d.ideal, now0), es))
    ensures jiffies == now % d.longWidth
  {
    ghost var goal := Run(Machine(d.ideal, now0), es);
    jiffies, now := now0 % d.longWidth, now0;
    var i := 0;
    while i < |es|
      invariant 0 <= i <= |es| && d.Valid() && jiffies == now % d.longWidth
      invariant Running(Machine(d.ideal, now)) && AllExact(Machine(d.ideal, now), es[i..])
      invariant Run(Machine(d.ideal, now), es[i..]) == goal
    {
      ghost var m := Machine(d.ideal, now);
      assert es[i..][0] == es[i] && es[i..][1..] == es[i + 1..];
      match es[i] {
        case Tick(n) =>
          WrapSum(now, n, d.longWidth);
          jiffies, now := (jiffies + n) % d.longWidth, now + n;
        case Start => d.Start(jiffies, now);
        case Stop => d.Stop();
        case Poll => var _ := d.Pointer(jiffies, now);
        case Fire => var _ := d.Callback(jiffies, now);
      }
      assert Machine(d.ideal, now) == Step(m, es[i]);
      i := i + 1;
    }
  }

  /** The limits declared in struct snd_pcm_hardware: 8000 Hz, a 64 KiB ring, a period
      no longer than the ring, and a kernel clock of at most 1000 Hz. */
  ghost predicate WithinLimits(c: Clock, hz: int) {
    && c.WellFormed() && 0 < hz <= 1000
    && c.rate == 8000
    && c.bufferSize <= 65536 * hz
    && c.periodSize <= c.bufferSize
  }

  /** An update is at most `late` jiffies overdue: past the expiry of an armed timer, or
      past the last update of an idle stream. */
  ghost predicate InTime(m: Machine, late: int) {
    match m.pcm.timer
    case Some(expiry) => m.now <= expiry + late
    case None => m.now <= m.pcm.clock.baseTime + late
  }

  /** Under the declared limits an update that is not overdue by more than 520 seconds of
      a 1000 Hz clock is timely, however the stream was polled before. */
  lemma OnTimeIsTimely(m: Machine, hz: int, late: int)
    requires Running(m) && TimerExact(m.pcm) && WithinLimits(m.pcm.clock, hz)
    requires 0 <= late <= 520_000 && InTime(m, late)
    ensures Timely(m.pcm.clock, m.now) && Fits(m.pcm.clock)
  {
  }

  /** A run in which no poll and no callback is overdue by more than `late` jiffies. */
  ghost predicate Punctual(m: Machine, es: seq<Event>, late: int)
    requires Running(m)
    decreases |es|
  {
    es != [] ==>
      && (es[0].Poll? || es[0].Fire? ==> InTime(m, late))
      && Punctual(Step(m, es[0]), es[1..], late)
  }

  /** So under the declared limits every punctual run, stops and resumes included, is one
      the 32-bit driver gets exactly right. */
  lemma {:induction false} PunctualRunsAreExact(m: Machine, es: seq<Event>, hz: int, late: int)
    requires Running(m) && TimerExact(m.pcm) && WithinLimits(m.pcm.clock, hz)
    requires 0 <= late <= 520_000 && Punctual(m, es, late)
    ensures AllExact(m, es)
    decreases |es|
  {
    if es != [] {
      if es[0].Poll? || es[0].Fire? {
        OnTimeIsTimely(m, hz, late);
        TimelyIsExact(m.pcm.clock, m.now);
      }
      StepKeepsTimerExact(m, es[0]);
      PunctualRunsAreExact(Step(m, es[0]), es[1..], hz, late);
    }
  }

  /** The 32-bit driver under its declared limits, prepared while idle and then taken
      through any punctual run: a poll at the end reports the frames counted, and the
      periods retired and pending are those counted, as if no word had ever wrapped. */
  method PlayWithinLimits(d: TickPcm32, frames: int, periodFrames: int, now0: int, es: seq<Event>, ghost late: int)
    returns (jiffies: int, ghost now: int)
    requires d.Allocated() && d.ideal.timer.None? && d.ideal.clock.baseTime <= now0 && d.hz <= 1000
    requires 0 < periodFrames <= frames <= 65536 && 0 <= late <= 520_000
    requires var m := Machine(Prepared(d.ideal, d.hz, 8000, frames, periodFrames), now0);
      Running(m) && Punctual(m, es, late)
    modifies d
    ensures d.Valid() && jiffies == now % d.longWidth
    ensures var m := Machine(Prepared(old(d.ideal), d.hz, 8000, frames, periodFrames), now0);
      Running(m) && Machine(d.ideal, now) == Run(m, es)
    ensures d.fracPos / d.hz == (8000 * d.ideal.consumed / d.hz) % frames
    ensures d.ideal.retired + d.elapsed == 8000 * d.ideal.consumed / (periodFrames * d.hz)
  {
    ghost var m := Machine(Prepared(d.ideal, d.hz, 8000, frames, periodFrames), now0);
    MulMonotone(periodFrames, frames, d.hz);
    MulMonotone(frames, 65536, d.hz);
    d.Prepare(8000, frames, periodFrames);
    PunctualRunsAreExact(m, es, d.hz, late);
    jiffies, now := Replay(d, now0, es);
    EveryRun(m, d.hz, 8000, frames, periodFrames, es);
  }

  /** Past the bound the position goes wrong by whole turns of the 32-bit word: the
      wrapped sum lands on the true ring position exactly when the ring divides what
      the wraps dropped. */
  lemma WrappedPositionIff(sum: int, ring: int)
    requires 0 < ring <= U32 && sum >= 0
    ensures (sum % U32) % ring == sum % ring <==> (sum / U32 * U32) % ring == 0
  {
    var dropped := sum / U32 * U32;
    CountOn(dropped, sum % U32, ring);
    if dropped % ring == 0 {
      assert (sum % U32) % ring == sum % ring;
    } else if (sum % U32) % ring == sum % ring {
      var a, b := (sum % U32) / ring, sum / ring;
      assert sum % U32 == a * ring + (sum % U32) % ring;
      assert sum == b * ring + sum % ring;
      assert dropped == (b - a) * ring;
      DivUnique(dropped, ring, b - a);
    }
  }
}
