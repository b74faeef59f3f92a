/** alsa_sound_gen.c carries both clocks behind one set of operations.  Started
    together, how far apart are the pointers they report? */
module ClockEngines {
  import opened Arith
  import TickRuns
  import HrClock

  /** The clock's time, in nanoseconds, at a tick. */
  function TickTime(ticks: int, hz: int): int
    requires hz > 0
  {
    ticks * HrClock.BILLION / hz
  }

  /** The hrtimer clock's frame count at a tick, before it wraps on the ring. */
  function HrFrames(ticks: int, hz: int, rate: int): int
    requires hz > 0
  {
    HrClock.Frames(HrClock.MicrosSince(TickTime(ticks, hz), 0), rate)
  }

  /** The microseconds read at a tick: rounding down twice is rounding down once. */
  lemma MicrosAtTick(ticks: int, hz: int)
    requires hz > 0
    ensures HrClock.MicrosSince(TickTime(ticks, hz), 0) == ticks * HrClock.MILLION / hz
  {
    var us, micros := ticks * HrClock.MILLION / hz, ticks * HrClock.MILLION;
    FloorGalois(micros, hz, us);
    FloorGalois(micros, hz, us + 1);
    assert us * 1000 * hz == us * hz * 1000 && (us + 1) * 1000 * hz == (us + 1) * hz * 1000;
    FloorGalois(ticks * HrClock.BILLION, hz, us * 1000);
    FloorGalois(ticks * HrClock.BILLION, hz, (us + 1) * 1000);
    DivUnique(TickTime(ticks, hz), 1000, us);
  }

  /** A time of `ticks` compared with `us` microseconds, as frames at the rate. */
  lemma NoMoreFrames(ticks: int, hz: int, rate: int, us: int, f: int)
    requires hz > 0 && rate > 0 && us * hz <= ticks * HrClock.MILLION && ticks * rate <= f * hz
    ensures us * rate <= f * HrClock.MILLION
  {
    MulMonotone(us * hz, ticks * HrClock.MILLION, rate);
    SwapFactors(ticks, hz, rate, us, f);
    if us * rate > f * HrClock.MILLION { MulMonotone(f * HrClock.MILLION + 1, us * rate, hz); }
  }

  lemma MoreFrames(ticks: int, hz: int, rate: int, us: int, f: int)
    requires hz > 0 && rate > 0 && us * hz >= ticks * HrClock.MILLION && ticks * rate >= f * hz
    requires us * hz > ticks * HrClock.MILLION || ticks * rate > f * hz
    ensures us * rate > f * HrClock.MILLION
  {
    MulMonotone(ticks * HrClock.MILLION, us * hz, rate);
    if us * hz > ticks * HrClock.MILLION { MulMonotone(ticks * HrClock.MILLION + 1, us * hz, rate); }
    SwapFactors(ticks, hz, rate, us, f);
    if us * rate <= f * HrClock.MILLION { MulMonotone(us * rate, f * HrClock.MILLION, hz); }
  }

  lemma SwapFactors(ticks: int, hz: int, rate: int, us: int, f: int)
    ensures us * hz * rate == us * rate * hz
    ensures ticks * HrClock.MILLION * rate == ticks * rate * HrClock.MILLION
    ensures f * hz * HrClock.MILLION == f * HrClock.MILLION * hz
  {
  }

  /** Whatever HZ and rate, the hrtimer clock at a tick is not ahead of the ticks' frames
      rounded up. */
  lemma NeverAhead(ticks: int, hz: int, rate: int)
    requires hz > 0 && ticks >= 0 && rate > 0
    ensures HrFrames(ticks, hz, rate) <= CeilDiv(ticks * rate, hz)
  {
    var us, f := ticks * HrClock.MILLION / hz, CeilDiv(ticks * rate, hz);
    MicrosAtTick(ticks, hz);
    FloorGalois(ticks * HrClock.MILLION, hz, us);
    CeilGalois(ticks * rate, hz, f);
    NoMoreFrames(ticks, hz, rate, us, f);
    HrClock.FramesGalois(us, rate, f);
  }

  /** Nor, up to a megahertz, behind them rounded down: less than a microsecond is lost,
      and so less than a frame. */
  lemma NeverBehind(ticks: int, hz: int, rate: int)
    requires hz > 0 && ticks >= 0 && 0 < rate <= HrClock.MILLION
    ensures ticks * rate / hz <= HrFrames(ticks, hz, rate)
  {
    var us, q := ticks * HrClock.MILLION / hz, ticks * rate / hz;
    MicrosAtTick(ticks, hz);
    FloorGalois(ticks * HrClock.MILLION, hz, us + 1);
    FloorGalois(ticks * rate, hz, q);
    MoreFrames(ticks, hz, rate, us + 1, q);
    assert (us + 1) * rate == us * rate + rate;
    HrClock.FramesGalois(us, rate, q - 1);
  }

  /** At every tick of every HZ the hrtimer clock has the tick clock's frames or one more,
      and that for exactly the rates up to a megahertz. */
  lemma WithinAFrameIff(rate: int)
    requires rate > 0
    ensures (forall hz: int, ticks: int :: hz > 0 && ticks >= 0 ==>
              ticks * rate / hz <= HrFrames(ticks, hz, rate) <= ticks * rate / hz + 1)
      <==> rate <= HrClock.MILLION
  {
    if rate <= HrClock.MILLION {
      forall hz: int, ticks: int | hz > 0 && ticks >= 0
        ensures ticks * rate / hz <= HrFrames(ticks, hz, rate) <= ticks * rate / hz + 1
      {
        NeverAhead(ticks, hz, rate);
        NeverBehind(ticks, hz, rate);
        CeilOrFloor(ticks * rate, hz);
      }
    } else {
      MicrosAtTick(1, rate);
      DivUnique(HrClock.MILLION, rate, 0);
      DivUnique(1 * rate, rate, 1);
      assert 0 * rate == 0;
      assert HrFrames(1, rate, rate) == 0;
    }
  }

  /** When HZ divides a million a jiffy is a whole number of microseconds, nothing is lost
      at a tick, and the hrtimer clock has exactly the ticks' frames rounded up. */
  lemma HrFramesAtTick(ticks: int, hz: int, rate: int)
    requires hz > 0 && HrClock.MILLION % hz == 0 && ticks >= 0 && rate > 0
    ensures HrFrames(ticks, hz, rate) == CeilDiv(ticks * rate, hz)
  {
    var u, f := HrClock.MILLION / hz, CeilDiv(ticks * rate, hz);
    assert HrClock.MILLION == u * hz;
    MulAssoc(ticks, u, hz);
    DivUnique(ticks * HrClock.MILLION, hz, ticks * u);
    MicrosAtTick(ticks, hz);
    CeilGalois(ticks * rate, hz, f - 1);
    MoreFrames(ticks, hz, rate, ticks * u, f - 1);
    HrClock.FramesGalois(ticks * u, rate, f - 1);
    NeverAhead(ticks, hz, rate);
  }

  /** Differences survive the reduction to the ring. */
  lemma RingDistance(a: int, b: int, frames: int)
    requires frames > 0
    ensures (b % frames - a % frames) % frames == (b - a) % frames
  {
    assert a == a / frames * frames + a % frames;
    assert b == b / frames * frames + b % frames;
    var k := a / frames - b / frames;
    assert b % frames - a % frames == (b - a) + k * frames;
    ModAddMultiple(b - a, frames, k);
  }

  /** Frames by which the hrtimer clock is ahead at a tick, before either wraps. */
  function Ahead(ticks: int, hz: int, rate: int): int
    requires hz > 0
  {
    HrFrames(ticks, hz, rate) - ticks * rate / hz
  }

  /** At most one frame; when HZ divides a million, none exactly at the ticks that hold a
      whole number of frames; and none when HZ divides the rate. */
  lemma AheadAtTick(ticks: int, hz: int, rate: int)
    requires hz > 0 && ticks >= 0 && rate > 0
    ensures rate <= HrClock.MILLION ==> 0 <= Ahead(ticks, hz, rate) <= 1
    ensures HrClock.MILLION % hz == 0 ==> Ahead(ticks, hz, rate) == if ticks * rate % hz == 0 then 0 else 1
    ensures (rate <= HrClock.MILLION || HrClock.MILLION % hz == 0) && rate % hz == 0 ==> Ahead(ticks, hz, rate) == 0
  {
    CeilOrFloor(ticks * rate, hz);
    NeverAhead(ticks, hz, rate);
    if rate <= HrClock.MILLION { NeverBehind(ticks, hz, rate); }
    if HrClock.MILLION % hz == 0 { HrFramesAtTick(ticks, hz, rate); }
    if rate % hz == 0 { WholeFrames(ticks, hz, rate); }
  }

  lemma LeadOnRing(ticks: int, hz: int, rate: int, frames: int)
    requires hz > 0 && frames > 0
    ensures var tick := (rate * ticks / hz) % frames;
      (HrFrames(ticks, hz, rate) % frames - tick) % frames == Ahead(ticks, hz, rate) % frames
  {
    assert rate * ticks == ticks * rate;
    RingDistance(ticks * rate / hz, HrFrames(ticks, hz, rate), frames);
  }

  lemma WholeFrames(ticks: int, hz: int, rate: int)
    requires hz > 0 && rate % hz == 0
    ensures ticks * rate % hz == 0
  {
    MulAssoc(ticks, rate / hz, hz);
    DivUnique(ticks * rate, hz, ticks * (rate / hz));
  }

  /** An hrtimer stream at `armedAt`, just started at `start`, whatever it did before. */
  ghost function HrStart(h: HrClock.Hr, start: int, armedAt: int): (m: HrClock.Machine)
    requires h.periodTime > 0 && start <= armedAt
    ensures HrClock.Alive(m)
  {
    HrClock.Machine(HrClock.HrStarted(h, start, armedAt), armedAt, 0)
  }

  /** The tick clock rounds down and the hrtimer clock rounds down and then up.  Start both
      together, the tick clock freshly prepared and the hrtimer clock in any state, and let
      each run on, through whatever polls, stops and callbacks: at every tick after the
      start the pointer the hrtimer stream reports is level with that of the tick stream
      or one frame ahead on the ring.  When HZ divides a million, it is ahead unless the
      jiffies hold a whole number of frames. */
  lemma EnginesAgree(m: TickRuns.Machine, es: seq<TickRuns.Event>, hz: int, rate: int, frames: int, periodFrames: int,
                     h: HrClock.Hr, start: int, armedAt: int, hes: seq<HrClock.Event>)
    requires TickRuns.JustPrepared(m, hz, rate, frames, periodFrames)
    requires TickRuns.Start !in es
    requires h.periodTime > 0 && start <= armedAt && HrClock.Legal(HrStart(h, start, armedAt), hes)
    requires var ticks := TickRuns.Run(TickRuns.Step(m, TickRuns.Start), es).now - m.now;
      HrClock.Run(HrStart(h, start, armedAt), hes).now == start + TickTime(ticks, hz)
    ensures var r := TickRuns.Run(TickRuns.Step(m, TickRuns.Start), es);
      var hr := HrClock.Run(HrStart(h, start, armedAt), hes);
      var ticks := r.now - m.now;
      var tick := r.pcm.clock.Advance(r.now).fracPos / hz;
      var pos := HrClock.Reported(hr.hr, hr.now, rate, frames);
      && (rate <= HrClock.MILLION ==> 0 <= (pos - tick) % frames <= 1)
      && (HrClock.MILLION % hz == 0 ==> (pos - tick) % frames == (if ticks * rate % hz == 0 then 0 else 1) % frames)
      && ((rate <= HrClock.MILLION || HrClock.MILLION % hz == 0) && rate % hz == 0 ==> pos == tick)
  {
    TickRuns.PrepareBalances(m.pcm, hz, rate, frames, periodFrames);
    TickRuns.PointerTracksTime(m, m.pcm.clock.baseTime, hz, frames, es);
    var s := TickRuns.Step(m, TickRuns.Start);
    TickRuns.NothingSkipped(s, es);
    var ticks := TickRuns.Run(s, es).now - m.now;
    HrClock.PointerCountsFromStart(h, start, armedAt, rate, frames, hes);
    PointersApart(ticks, hz, rate, frames);
  }

  lemma PointersApart(ticks: int, hz: int, rate: int, frames: int)
    requires hz > 0 && ticks >= 0 && rate > 0 && frames > 0
    ensures var pos, tick := HrFrames(ticks, hz, rate) % frames, (rate * ticks / hz) % frames;
      && (rate <= HrClock.MILLION ==> 0 <= (pos - tick) % frames <= 1)
      && (HrClock.MILLION % hz == 0 ==> (pos - tick) % frames == (if ticks * rate % hz == 0 then 0 else 1) % frames)
      && ((rate <= HrClock.MILLION || HrClock.MILLION % hz == 0) && rate % hz == 0 ==> pos == tick)
  {
    AheadAtTick(ticks, hz, rate);
    LeadOnRing(ticks, hz, rate, frames);
    OneOnRing(Ahead(ticks, hz, rate), frames);
    LevelIff(HrFrames(ticks, hz, rate) % frames, (rate * ticks / hz) % frames, frames);
  }

  lemma OneOnRing(a: int, frames: int)
    requires frames > 0
    ensures 0 <= a <= 1 ==> 0 <= a % frames <= a
    ensures a == 0 ==> a % frames == 0
  {
  }

  lemma LevelIff(a: int, b: int, frames: int)
    requires 0 <= a < frames && 0 <= b < frames
    ensures (a - b) % frames == 0 <==> a == b
  {
    if a < b { ModAddMultiple(a - b, frames, 1); }
  }
}
