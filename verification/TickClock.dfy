/** The tick-driven PCM clock: alsa_gpio_systimer_* in alsa_gpio.c and its second
    copy snd_pcm_timer_* in alsa_sound_gen.c, which runs the same statements.

    Positions are counted in fractions of a frame: one frame is HZ fractions and a
    tick of the kernel clock (a jiffy) is worth `rate` fractions. */
module TickClock {
  import opened Arith
  import opened Options

  /** The fields of struct alsa_gpio_systimer_pcm that make up the clock. */
  datatype Clock = Clock(
    baseTime: int,      // jiffy of the last update
    fracPos: int,       // position in the ring buffer, in fractions
    periodRest: int,    // fractions left until the next period boundary
    bufferSize: int,    // ring size, in fractions
    periodSize: int,    // period size, in fractions
    rate: int,
    elapsed: int)       // periods crossed and not yet retired
  {
    ghost predicate WellFormed() {
      && rate > 0 && periodSize > 0 && bufferSize > 0
      && 0 <= fracPos < bufferSize
      && 0 < periodRest <= periodSize
      && elapsed >= 0
    }

    /** Fractions worth of time between the last update and `now`. */
    function Due(now: int): int {
      (now - baseTime) * rate
    }

    /** How far into the current period the clock stands. */
    function Phase(): int {
      periodSize - periodRest
    }

    /** The clock brought up to `now`, in closed form: position and phase are
        remainders and the periods crossed are a quotient. */
    function Advance(now: int): Clock
      requires bufferSize > 0 && periodSize > 0
    {
      var phase := Phase() + Due(now);
      this.(baseTime := now,
            fracPos := (fracPos + Due(now)) % bufferSize,
            periodRest := periodSize - phase % periodSize,
            elapsed := elapsed + phase / periodSize)
    }

    /** The jiffy the timer is armed for when it is rearmed right after an update. */
    function NextBoundary(): int
      requires rate > 0
    {
      baseTime + CeilDiv(periodRest, rate)
    }
  }

  /** The clock and its kernel timer, with running totals that only the proofs use:
      ticks counted by updates, ticks dropped by a start, periods retired by callbacks
      and calls of snd_pcm_period_elapsed.  A callback that retires several periods
      makes one call. */
  datatype Pcm = Pcm(clock: Clock, timer: Option<int>, consumed: int, skipped: int, retired: int, notified: int)

  function Updated(p: Pcm, now: int): Pcm
    requires p.clock.bufferSize > 0 && p.clock.periodSize > 0
  {
    p.(clock := p.clock.Advance(now), consumed := p.consumed + (now - p.clock.baseTime))
  }

  function Started(p: Pcm, now: int): Pcm
    requires p.clock.rate > 0
  {
    var c := p.clock.(baseTime := now);
    p.(clock := c, timer := Some(c.NextBoundary()), skipped := p.skipped + (now - p.clock.baseTime))
  }

  function Stopped(p: Pcm): Pcm {
    p.(timer := None)
  }

  function CalledBack(p: Pcm, now: int): Pcm
    requires p.clock.WellFormed()
  {
    var u := Updated(p, now);
    u.(timer := Some(u.clock.NextBoundary()), retired := u.retired + u.clock.elapsed,
       notified := u.notified + (if u.clock.elapsed != 0 then 1 else 0), clock := u.clock.(elapsed := 0))
  }

  /** What preparing leaves behind, whatever the clock held before. */
  function Prepared(p: Pcm, hz: int, rate: int, frames: int, periodFrames: int): Pcm {
    p.(clock := Clock(p.clock.baseTime, 0, periodFrames * hz, frames * hz, periodFrames * hz, rate, 0),
       consumed := 0, skipped := 0, retired := 0, notified := 0)
  }

  /** Advancing preserves well-formedness, so the loops always find their bounds. */
  lemma AdvanceWellFormed(c: Clock, now: int)
    requires c.WellFormed() && c.baseTime <= now
    ensures c.Advance(now).WellFormed()
  {
  }

  /** The period loop stops after as many rounds as there are boundaries in the time
      that is due. */
  lemma PeriodsCrossed(c: Clock, now: int, rounds: int)
    requires c.WellFormed()
    requires 0 < c.periodRest + rounds * c.periodSize - c.Due(now) <= c.periodSize
    ensures c.Advance(now).elapsed == c.elapsed + rounds
    ensures c.Advance(now).periodRest == c.periodRest + rounds * c.periodSize - c.Due(now)
  {
    DivUnique(c.Phase() + c.Due(now), c.periodSize, rounds);
  }

  /** struct alsa_gpio_systimer_pcm; jiffies is the argument `now`, read once per
      locked section. */
  class TickPcm {
    var baseTime: int
    var fracPos: int
    var fracPeriodRest: int
    var fracBufferSize: int
    var fracPeriodSize: int
    var rate: int
    var elapsed: int
    var timer: Option<int>      // jiffy of the pending callback
    const hz: int

    ghost var consumed: int
    ghost var skipped: int
    ghost var retired: int
    ghost var notified: int

    ghost function ClockView(): Clock
      reads this
    {
      Clock(baseTime, fracPos, fracPeriodRest, fracBufferSize, fracPeriodSize, rate, elapsed)
    }

    ghost function View(): Pcm
      reads this
    {
      Pcm(ClockView(), timer, consumed, skipped, retired, notified)
    }

    ghost predicate Valid()
      reads this
    {
      hz > 0 && ClockView().WellFormed()
    }

    /** Zeroed memory and no pending timer; the clock becomes Valid when prepared. */
    constructor (hz: int)
      requires hz > 0
      ensures this.hz == hz && timer == None
      ensures ClockView() == Clock(0, 0, 0, 0, 0, 0, 0)
    {
      this.hz := hz;
      baseTime, fracPos, fracPeriodRest, fracBufferSize, fracPeriodSize, rate, elapsed := 0, 0, 0, 0, 0, 0, 0;
      timer := None;
      consumed, skipped, retired, notified := 0, 0, 0, 0;
    }

    method Prepare(rate: int, frames: int, periodFrames: int)
      requires hz > 0 && rate > 0 && frames > 0 && periodFrames > 0
      modifies this
      ensures Valid()
      ensures View() == Prepared(old(View()), hz, rate, frames, periodFrames)
      ensures baseTime == old(baseTime) && timer == old(timer)
    {
      fracPos := 0;
      this.rate := rate;
      fracBufferSize := frames * hz;
      fracPeriodSize := periodFrames * hz;
      fracPeriodRest := fracPeriodSize;
      elapsed := 0;
      consumed, skipped, retired, notified := 0, 0, 0, 0;
    }

    method Rearm(now: int)
      requires Valid()
      modifies this`timer
      ensures timer == Some(now + CeilDiv(fracPeriodRest, rate))
    {
      timer := Some(now + (fracPeriodRest + rate - 1) / rate);
    }

    /** The two subtract-and-add loops compute exactly the closed form. */
    method Update(now: int)
      requires Valid() && baseTime <= now
      modifies this
      ensures Valid()
      ensures View() == Updated(old(View()), now)
    {
      ghost var c := ClockView();
      AdvanceWellFormed(c, now);
      var delta := now - baseTime;
      if delta == 0 {
        CountNothing(c);
        return;
      }
      baseTime := baseTime + delta;
      consumed := consumed + delta;
      delta := delta * rate;
      MulMonotone(0, now - c.baseTime, rate);
      fracPos := fracPos + delta;
      while fracPos >= fracBufferSize
        modifies this`fracPos
        invariant 0 <= fracPos && fracPos % c.bufferSize == c.Advance(now).fracPos
        decreases fracPos
      {
        ModDrop(fracPos, c.bufferSize);
        fracPos := fracPos - fracBufferSize;
      }
      assert fracPos == c.Advance(now).fracPos by { ModSmall(fracPos, c.bufferSize); }
      ghost var crossed := 0;
      while fracPeriodRest <= delta
        modifies this`elapsed, this`fracPeriodRest
        invariant crossed >= 0 && elapsed == c.elapsed + crossed
        invariant fracPeriodRest == c.periodRest + crossed * c.periodSize
        invariant fracPeriodRest - c.periodSize <= delta
        decreases delta - fracPeriodRest
      {
        elapsed := elapsed + 1;
        fracPeriodRest := fracPeriodRest + fracPeriodSize;
        crossed := crossed + 1;
      }
      PeriodsCrossed(c, now, crossed);
      fracPeriodRest := fracPeriodRest - delta;
    }

    method Start(now: int)
      requires Valid() && baseTime <= now
      modifies this
      ensures Valid()
      ensures View() == Started(old(View()), now)
      ensures timer == Some(now + CeilDiv(fracPeriodRest, rate))
    {
      skipped := skipped + (now - baseTime);
      baseTime := now;
      Rearm(now);
    }

    method Stop()
      requires Valid()
      modifies this
      ensures Valid()
      ensures View() == Stopped(old(View()))
      ensures timer.None?
    {
      timer := None;
    }

    /** The timer function.  `periods` is the count the source keeps in its local
        `elapsed`; ALSA is notified once, whatever the count, unless it is zero. */
    method Callback(now: int) returns (periods: int, notify: bool)
      requires Valid() && baseTime <= now
      modifies this
      ensures Valid()
      ensures View() == CalledBack(old(View()), now)
      ensures periods == retired - old(retired)
      ensures notify <==> periods > 0
      ensures notified == old(notified) + if notify then 1 else 0
      ensures timer == Some(now + CeilDiv(fracPeriodRest, rate))
    {
      Update(now);
      Rearm(now);
      periods := elapsed;
      retired := retired + elapsed;
      elapsed := 0;
      notify := periods != 0;
      notified := notified + if notify then 1 else 0;
    }

    /** The frame ALSA is told the hardware has reached: always inside the ring. */
    method Pointer(now: int) returns (pos: int)
      requires Valid() && baseTime <= now
      modifies this
      ensures Valid()
      ensures View() == Updated(old(View()), now)
      ensures pos == fracPos / hz
    {
      Update(now);
      pos := fracPos / hz;
    }
  }

  /** An update in the same jiffy changes nothing, as the early return assumes. */
  lemma CountNothing(c: Clock)
    requires c.WellFormed()
    ensures c.Advance(c.baseTime) == c
  {
  }
}
