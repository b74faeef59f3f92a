# Clocks, SPI driver and framebuffer of c-linux-kernel-modules, in Dafny

The repository holds small Linux kernel modules.  Four of them carry state and
arithmetic worth a proof, and this project models those four:

* **The tick-driven PCM clock** (`alsa_gpio_driver/alsa_gpio.c`, and line for line again
  in `alsa_sound_gen/alsa_sound_gen.c`).  Two subtract-and-add loops turn kernel ticks
  (jiffies) into a ring-buffer position and a count of elapsed periods, and a timer is
  rearmed, rounded up, for the next period.
* **The high-resolution PCM clock** of `alsa_sound_gen/alsa_sound_gen.c`, which rounds a
  period up to nanoseconds, the time down to microseconds and the position up to frames.
* **The SPI character driver** `spi_driver/spi_driver.c`: who owns which object, buffer
  and minor number over the life of the driver, and what happens to the bytes of a message
  between a write and a read.
* **The virtual framebuffer** `virtfb/virtfb_platform.c` and `virtfb/virtfb.c`: mode
  negotiation, the size of the video memory, and where a pixel lies in it.

What is proved, in short:

* Over every run of starts, stops, polls and callbacks after a prepare, the tick clock
  loses no period and counts none twice, and every callback that fires has a period to
  retire and notifies ALSA.  From any start to the next, callbacks never retire a period
  too many, and while the timer is not overdue they have retired every period played,
  except those that were pending at the start if none has fired since; so after a start
  they are on time in every run exactly when it finds nothing pending.  Polling changes
  nothing between starts.  The 32-bit driver does the same as the unbounded clock in every
  run of exact updates, with jiffies wrapping as they like, and the condition for an update
  to be exact is necessary too; under the declared hardware limits it holds throughout
  every run from a prepare, stops and resumes included, in which no update is overdue by
  more than 520,000 jiffies.
* The three roundings of the high-resolution clock never leave the pointer behind the
  periods ALSA was told of, exactly for rates up to 1,001,001 Hz.  Started together, at
  every tick of every HZ, the high-resolution clock is level with the tick clock or one
  frame ahead, exactly for rates up to 1,000,000 Hz.
* The SPI driver frees each object and each buffer exactly once and touches nothing that
  was freed; minors, list, user counts and buffers agree between any two calls, and the
  calls offered determine the run.  A composed message written to a loopback device reads
  back as its payload in the bit order it asked for.
* A checked framebuffer mode is the least one that fits the request and is a fixed point.
  At every depth its pixels are disjoint exactly when the line length keeps a whole line,
  neither wrapped nor rounded down, or there is one row, and they lie inside the memory
  exactly when neither 32-bit size wraps and a line is whole bytes.  The growing variant
  keeps the largest size asked for since the last failure.

## How it is laid out

| file | holds |
|---|---|
| `Arith.dfy`, `Options.dfy` | division and remainder; a value that may be absent |
| `TickClock.dfy` | the tick clock: its closed form, and the driver class `TickPcm` with the source's loops |
| `TickRuns.dfy` | theorems over every run of the tick clock |
| `TickFixedWidth.dfy` | the same driver in 32-bit words, `TickPcm32`, and when it is exact |
| `HrClock.dfy`, `ClockEngines.dfy` | the high-resolution clock; the two clocks compared |
| `SpiLife.dfy`, `SpiKernel.dfy`, `SpiDriver.dfy` | SPI life cycle: what a run means, the tables behind it, the driver class |
| `SpiBits.dfy`, `SpiData.dfy`, `SpiRoundTrip.dfy`, `SpiShared.dfy` | SPI data path: bit order, the driver's buffers, end-to-end results, two devices at once |
| `FbMode.dfy`, `FbMemory.dfy` | mode negotiation; video memory and addressing |

Drivers are classes whose methods follow the source statement by statement; each method
is tied to a function of the old state, and the lemmas are about that function.  Kernel
memory in the SPI driver is explicit: live allocations are keys of a map, so a use after
free or a double free would not verify.

Assumptions:

* `jiffies` does not change inside one locked section, and `del_timer` removes a pending
  callback.  `hrtimer_forward_now` moves an expiry by whole periods to the first instant
  after now; `ktime_us_delta` is the difference divided by 1000, rounded down.
* Rate, ring and period are positive when a stream is prepared, and ALSA prepares a stream
  while its timer is idle.  `HZ` is a parameter.
* Each entry point of a driver is one atomic step.
* The minor bitmap holds 32 bits, as `spi_driver/spi_driver.h:81` declares it where a long
  has 32.
* A device is probed while it is not bound; a file is opened once and released once;
  `kzalloc` succeeds in a probe; `copy_from_user`, `copy_to_user` and `spi_sync` succeed.

Findings on the code:

* A start drops the ticks since the last update, so a poll just before it changes the
  clock exactly when there are such ticks (`PollBeforeStartIsFreeIff`).
* A stop can leave a crossed period pending, which a resumed stream keeps back until its
  next callback (`PollThenStopPendsIff`, `OnTimeIff`).
* A callback that finds several periods pending notifies ALSA once for all of them, so
  ALSA is told of every period exactly when no callback finds more than one
  (`TickRuns.NotifiedIff`); one that comes at or after the second boundary ahead does
  (`OnePeriodIff`).
* A probe that finds all 32 minors taken returns with the list lock held and leaks its
  object (`StuckIff`, `Exhausted`, reached in `ProbesExhaust`); this is the only way an
  object is leaked.
* A 16-bit transfer of an odd number of bytes turns round one byte past the payload, and
  doing it twice restores the buffer only if those two bytes are palindromes
  (`LsbTwiceIff`, with such a buffer in `LsbTwiceFails`).
* An SPI write longer than the buffer sends nothing and still reports success
  (`Write`); `read` returns the count it was given, whatever it copied (`Read`).
* The framebuffer probe sizes its memory with a product of bits that wraps in 32 bits, and
  so falls short of what set_par asks for from 512 MiB on (`WholeByteProbeIff`); 16384 by
  16384 at 24 bits is such a mode (`ProbeSizeDiffers`).
* When set_par of `virtfb_platform.c` cannot allocate, no memory is live, and
  `screen_base` dangles exactly if it named any before; it does not yet while the only
  memory is the probe's (`FbMemory.FbInfo.SetPar`).
* A one-bit mode is given colour fields wider than its pixel (`CheckedFieldsInPixelIff`).
  If its width is not a multiple of eight, the division in the line length drops the last
  bits of each line, so rows overlap and the end of the screen lies outside the memory
  (`DisjointIff`, `AllInsideIff`); 9 by 2 is such a mode, and is accepted
  (`OneBitRowsOverlap`).
* All devices share one read buffer and one length, so a read hands out the answers to
  the last write accepted for any of them (`WritesThenRead`).
* On a 64-bit kernel an update with 2^32 or more fractions due never ends
  (`UpdateExactIff`).
* A high-resolution callback that comes a period late skips periods, so ALSA is told of
  every one exactly when none does (`HrClock.NotifiedIff`).

## Model

| member | source | states |
|---|---|---|
| TickClock.TickPcm.constructor | alsa_gpio_driver/alsa_gpio.c:209-221 | a new clock is all zeros with no timer pending |
| TickClock.TickPcm.Prepare | alsa_gpio_driver/alsa_gpio.c:151-164 | preparing resets the clock for the new parameters and leaves base time and timer alone |
| TickClock.TickPcm.Rearm | alsa_gpio_driver/alsa_gpio.c:106-110 | the timer is armed for now plus the rest of the period divided by the rate, rounded up |
| TickClock.TickPcm.Update | alsa_gpio_driver/alsa_gpio.c:112-129 | the two loops compute the remainders and the quotient of the closed form, and terminate |
| TickClock.TickPcm.Start | alsa_gpio_driver/alsa_gpio.c:131-140 | a start takes the present as base time and arms the timer for the rest of the period from now, rounded up, whatever is pending |
| TickClock.TickPcm.Stop | alsa_gpio_driver/alsa_gpio.c:142-149 | a stop disarms the timer and changes nothing else |
| TickClock.TickPcm.Callback | alsa_gpio_driver/alsa_gpio.c:166-193 | a callback updates, rearms, retires every pending period and notifies once if there is one |
| TickClock.TickPcm.Pointer | alsa_gpio_driver/alsa_gpio.c:195-207 | a poll updates and reports the whole frames of the position |
| TickClock.AdvanceWellFormed | alsa_gpio_driver/alsa_gpio.c:121-128 | after an update the position is inside the ring and the rest is in (0, period] |
| TickClock.PeriodsCrossed | alsa_gpio_driver/alsa_gpio.c:124-128 | the rounds of the period loop are the boundaries in the time due |
| TickClock.CountNothing | alsa_gpio_driver/alsa_gpio.c:116-118 | returning early in the same jiffy is the update that changes nothing |
| TickRuns.UpdateBalances | alsa_gpio_driver/alsa_gpio.c:112-129 | an update keeps position, rest, elapsed count and consumed time in balance |
| TickRuns.Conservation | alsa_gpio_driver/alsa_gpio.c:112-193 | after every run, position and rest are remainders of the fractions counted, retired plus pending periods their quotient, and every jiffy was counted once or dropped by a start |
| TickRuns.PrepareBalances | alsa_gpio_driver/alsa_gpio.c:151-164 | a prepare establishes the balance from any earlier state |
| TickRuns.NothingLost | alsa_gpio_driver/alsa_gpio.c:124-128 | retired and pending periods plus progress into the current one sum to the fractions counted |
| TickRuns.PointerIsFramesCounted | alsa_gpio_driver/alsa_gpio.c:195-207 | the reported pointer is the whole frames counted modulo the ring, and is inside it |
| TickRuns.InPhaseIff | alsa_gpio_driver/alsa_gpio.c:122-128 | ring position and period progress agree for every count exactly when the ring is a whole number of periods |
| TickRuns.PositionInPhase | alsa_gpio_driver/alsa_gpio.c:122-128 | in a balanced state of such a ring, position modulo period is the progress into the period |
| TickRuns.FirstCrossing | alsa_gpio_driver/alsa_gpio.c:106-110 | the jiffy the timer is armed for is the first at which an update crosses a boundary |
| TickRuns.BoundaryMoves | alsa_gpio_driver/alsa_gpio.c:112-129 | an update never moves the next boundary back and keeps it unless it crosses it |
| TickRuns.StepKeepsTimerExact | alsa_gpio_driver/alsa_gpio.c:106-207 | every step keeps an armed timer at the next boundary unless a crossing is pending, and never late |
| TickRuns.TimerStaysExact | alsa_gpio_driver/alsa_gpio.c:106-207 | the same after every run |
| TickRuns.RearmedForNext | alsa_gpio_driver/alsa_gpio.c:106-110 | a timer armed right after an update names the first later jiffy at which an update finds a period |
| TickRuns.FiringRetires | alsa_gpio_driver/alsa_gpio.c:166-193 | a callback at or after its expiry retires a period, notifies ALSA and rearms for the first jiffy that crosses the next boundary |
| TickRuns.StartArms | alsa_gpio_driver/alsa_gpio.c:131-140 | a start, first or resumed and whatever is pending, arms the first later jiffy at which an update crosses a boundary more, and moves nothing but the base time |
| TickRuns.StopSilences | alsa_gpio_driver/alsa_gpio.c:142-149 | after a stop, in every legal run up to the next start, no callback fires and nothing is retired or notified |
| TickRuns.RetiredOnTime | alsa_gpio_driver/alsa_gpio.c:131-193 | from any start to the next, callbacks retire no period too many, and while the armed timer is not overdue exactly the periods played, less those pending at the start if none has fired since |
| TickRuns.OnTimeIff | alsa_gpio_driver/alsa_gpio.c:131-193 | every run after a start retires on time exactly when the start finds nothing pending |
| TickRuns.PollThenStopPendsIff | alsa_gpio_driver/alsa_gpio.c:131-149 | from a start that finds nothing pending, one poll and a stop leave a period pending, and a resume late, exactly when the time between reaches the next boundary |
| TickRuns.NotifiedIff | alsa_gpio_driver/alsa_gpio.c:177-192 | over every run ALSA is notified at most once a period retired, and that often exactly when no callback finds more than one |
| TickRuns.OnePeriodIff | alsa_gpio_driver/alsa_gpio.c:124-128 | with nothing pending, a callback finds at most one period exactly when it comes before the second boundary |
| TickRuns.EveryRun | alsa_gpio_driver/alsa_gpio.c:112-207 | from a prepare on, every run is balanced, reports the right frame, has the right number of periods, and every callback that is due retires one and notifies |
| TickRuns.PointerTracksTime | alsa_gpio_driver/alsa_gpio.c:131-140 | from any start to the next, a poll reports the frames counted before the start and those of the time since |
| TickRuns.AdvanceTwice | alsa_gpio_driver/alsa_gpio.c:112-129 | two updates are the one update at the later time |
| TickRuns.PollingDoesNotMatter | alsa_gpio_driver/alsa_gpio.c:195-207 | striking all polls out of a run without a start leaves the same clock, periods retired, notifications and timer, and the run stays possible |
| TickRuns.PollBeforeStartIsFreeIff | alsa_gpio_driver/alsa_gpio.c:131-140 | a poll right before a start is without effect exactly when no jiffy is due |
| TickFixedWidth.TickPcm32.Prepare | alsa_gpio_driver/alsa_gpio.c:151-164 | in 32-bit words a prepare of parameters that fit is the unbounded one |
| TickFixedWidth.TickPcm32.Rearm | alsa_gpio_driver/alsa_gpio.c:106-110 | the wrapped expiry is the image of the unbounded one |
| TickFixedWidth.TickPcm32.TurnRing | alsa_gpio_driver/alsa_gpio.c:121-123 | the position loop in 32-bit words computes the remainder as long as the sum fits, and past that exactly when the ring divides what was dropped |
| TickFixedWidth.TickPcm32.CrossPeriods | alsa_gpio_driver/alsa_gpio.c:124-128 | the period loop in 32-bit words crosses one boundary a round and ends at the first rest above delta, leaving a rest in (0, period], whenever that one fits a word |
| TickFixedWidth.TickPcm32.Update | alsa_gpio_driver/alsa_gpio.c:112-129 | an exact update in wrapping words is the unbounded update, also across a wrap of jiffies |
| TickFixedWidth.TickPcm32.Start | alsa_gpio_driver/alsa_gpio.c:131-140 | a start in wrapping words is the unbounded start, the armed jiffy included |
| TickFixedWidth.TickPcm32.Stop | alsa_gpio_driver/alsa_gpio.c:142-149 | a stop in wrapping words is the unbounded stop, and leaves no timer |
| TickFixedWidth.TickPcm32.Callback | alsa_gpio_driver/alsa_gpio.c:166-193 | an exact callback in wrapping words is the unbounded callback |
| TickFixedWidth.TickPcm32.Pointer | alsa_gpio_driver/alsa_gpio.c:195-207 | an exact poll in wrapping words is the unbounded poll |
| TickFixedWidth.TrueGap | alsa_gpio_driver/alsa_gpio.c:116-120 | wrapped jiffy counts differ by the true gap as long as its product with the rate fits 32 bits |
| TickFixedWidth.Replay | alsa_gpio_driver/alsa_gpio.c:91-207 | any run of exact updates of the 32-bit driver ends in the image of the unbounded run |
| TickFixedWidth.UpdateExactIff | alsa_gpio_driver/alsa_gpio.c:112-129 | an update whose product the unsigned long holds ends in the words of the unbounded one exactly when the position sum drops whole rings and the first rest above the time due fits a word; with 2^32 fractions due it never ends |
| TickFixedWidth.TimelyIsExact | alsa_gpio_driver/alsa_gpio.c:121-128 | time due plus a ring below 2^32 is enough for that |
| TickFixedWidth.OnTimeIsTimely | alsa_gpio_driver/alsa_gpio.c:16-26 | under the declared limits, an update at most 520,000 jiffies past the armed expiry, or past the last update of an idle stream, is timely |
| TickFixedWidth.PunctualRunsAreExact | alsa_gpio_driver/alsa_gpio.c:266-283 | so every run whose polls and callbacks keep to that, with any stops and resumes, is exact throughout |
| TickFixedWidth.PlayWithinLimits | alsa_gpio_driver/alsa_gpio.c:112-283 | the 32-bit driver, prepared within its limits and taken through any such run, ends with the frames and periods of the unbounded clock |
| TickFixedWidth.WrappedPositionIff | alsa_gpio_driver/alsa_gpio.c:121-123 | a sum that wraps gives the right position exactly when the ring divides what was dropped |
| HrClock.HrtimerPcm.Prepare | alsa_sound_gen/alsa_sound_gen.c:156-173 | the period is the exact one in nanoseconds, rounded up, without a 64-bit wrap |
| HrClock.HrtimerPcm.Start | alsa_sound_gen/alsa_sound_gen.c:114-123 | a start records the time, whatever was recorded before, and queues the timer one period ahead |
| HrClock.HrtimerPcm.Stop | alsa_sound_gen/alsa_sound_gen.c:125-133 | a stop clears the running flag and cancels the timer unless its callback runs |
| HrClock.HrtimerPcm.Callback | alsa_sound_gen/alsa_sound_gen.c:86-112 | a callback of a running stream notifies and moves the timer on, unless the stream is stopped in it; its position is the 64-bit frame count on the ring, the true one until the product wraps |
| HrClock.HrtimerPcm.Pointer | alsa_sound_gen/alsa_sound_gen.c:140-154 | the pointer is the 64-bit frame count on the ring, the true one until the product wraps, and lies in it |
| HrClock.PeriodTimeIsCeil | alsa_sound_gen/alsa_sound_gen.c:165-170 | seconds and nanoseconds together are period / rate in nanoseconds, rounded up |
| HrClock.NanosProperIff | alsa_sound_gen/alsa_sound_gen.c:169-170 | the nanosecond part is below a second for every period exactly when the rate is at most 10^9 |
| HrClock.FramesGalois | alsa_sound_gen/alsa_sound_gen.c:148-150 | the frame count is the least that covers the microseconds |
| HrClock.FramesExactUntilWrapIff | alsa_sound_gen/alsa_sound_gen.c:150 | the 64-bit count is right exactly until its product wraps |
| HrClock.CoversPeriods | alsa_sound_gen/alsa_sound_gen.c:101-104 | after n period times the unwrapped pointer has passed n periods |
| HrClock.NeverShortIff | alsa_sound_gen/alsa_sound_gen.c:148-151 | it does so for all n and all periods exactly up to 1,001,001 Hz |
| HrClock.HardlyAhead | alsa_sound_gen/alsa_sound_gen.c:148-170 | at the n-th expiry the pointer is ahead by at most the frames of n nanoseconds |
| HrClock.RunOnGrid | alsa_sound_gen/alsa_sound_gen.c:86-123 | over every run the queued expiry stays on the grid of whole periods from the start and past the notified ones |
| HrClock.NotifiedPeriodsArePlayed | alsa_sound_gen/alsa_sound_gen.c:86-112 | after every run the pointer stands at or past the periods ALSA was notified of |
| HrClock.PointerCountsFromStart | alsa_sound_gen/alsa_sound_gen.c:114-154 | after every legal run from any start, whatever came before it, the pointer reports the frames of the time since that start |
| HrClock.FireRequeues | alsa_sound_gen/alsa_sound_gen.c:106-111 | after a callback of a stream that goes on the timer is queued past now by at most a period, whole periods from where it was |
| HrClock.MovedIff | alsa_sound_gen/alsa_sound_gen.c:106-111 | over every run the timer moves on by at least a period a notification, and by just that exactly when every callback comes before the next grid point |
| HrClock.NotifiedIff | alsa_sound_gen/alsa_sound_gen.c:86-112 | while the timer is not overdue, ALSA was notified of no more than the periods since the start, and of all exactly when every callback came before the next grid point |
| HrClock.StoppedStaysSilent | alsa_sound_gen/alsa_sound_gen.c:94-108 | a stream that is not running is not notified of until the next start, and without a queued timer never has one |
| HrClock.StopSilences | alsa_sound_gen/alsa_sound_gen.c:107-133 | a stop, or a callback in which ALSA stops the stream, leaves nothing queued and nothing more to notify in any run |
| ClockEngines.MicrosAtTick | alsa_sound_gen/alsa_sound_gen.c:148-149 | the microseconds read at a tick are those of the tick rounded down once |
| ClockEngines.NeverAhead | alsa_sound_gen/alsa_sound_gen.c:140-154 | for every HZ and rate the frame count at a tick is at most the ticks' frames rounded up |
| ClockEngines.WithinAFrameIff | alsa_sound_gen/alsa_sound_gen.c:140-154 | at every tick of every HZ it is the ticks' frames rounded down or one more, exactly for rates up to a megahertz |
| ClockEngines.HrFramesAtTick | alsa_sound_gen/alsa_sound_gen.c:140-154 | when HZ divides a million it is the ticks' frames rounded up |
| ClockEngines.EnginesAgree | alsa_sound_gen/alsa_sound_gen.c:232-329 | after a common start, of the hrtimer stream from any earlier state, and any runs of the two, for every HZ the pointer the hrtimer stream reports is level or one frame ahead on the ring; when HZ divides a million, ahead unless the ticks hold whole frames |
| SpiLife.StepSound | spi_driver/spi_driver.c:77-543 | every call keeps one object a minor and one a device |
| SpiLife.GoneForGood | spi_driver/spi_driver.c:481-537 | an object that nothing reaches is never reached again in any run |
| SpiLife.FileKeepsItsObject | spi_driver/spi_driver.c:191-193 | a file keeps its object until its release, whatever is removed and probed |
| SpiLife.OpenReachesOwner | spi_driver/spi_driver.c:169-196 | in every run an open reaches the one owner of the minor, if there is one, and no other object; only the owner's first open can fail for want of memory |
| SpiLife.ProbeOutcome | spi_driver/spi_driver.c:113-151 | a probe binds its device, to a new object at the least free minor, exactly when the node is created and a minor is free, and changes nothing else |
| SpiLife.ReleaseOutcome | spi_driver/spi_driver.c:473-506 | a release lets go of its file and of nothing else |
| SpiLife.RemoveOutcome | spi_driver/spi_driver.c:509-543 | a remove unbinds its device and gives back its minor, and changes nothing else |
| SpiLife.StuckIff | spi_driver/spi_driver.c:113-132 | a call leaves the lock held exactly when it is a probe with all 32 minors taken |
| SpiLife.ProbesExhaust | spi_driver/spi_driver.c:113-132 | 32 probes take every minor and the next one sticks |
| SpiLife.AllMade | spi_driver/spi_driver.c:77-543 | calls that can all be made in turn are all made |
| SpiLife.StepDetermined | spi_driver/spi_driver.c:77-543 | a call has one outcome |
| SpiLife.RunDetermined | spi_driver/spi_driver.c:77-543 | the calls offered determine the run |
| SpiKernel.BindOk | spi_driver/spi_driver.c:133-148 | binding keeps list, bitmap, driver data and allocation ledger in agreement |
| SpiKernel.DiscardOk | spi_driver/spi_driver.c:149-151 | a probe that fails frees its object once and changes nothing else |
| SpiKernel.StrandOk | spi_driver/spi_driver.c:129-132 | a probe without a minor leaves one object that nothing reaches |
| SpiKernel.AttachOk | spi_driver/spi_driver.c:180-195 | attaching a file keeps them in agreement, with a fresh buffer for the first user |
| SpiKernel.DetachOk | spi_driver/spi_driver.c:485-499 | detaching keeps them in agreement and frees what has no user left, once |
| SpiKernel.UnbindOk | spi_driver/spi_driver.c:523-536 | unbinding keeps them in agreement and frees an object that no file holds, once |
| SpiDriver.SpiDriver.FirstZeroBit | spi_driver/spi_driver.c:114-116 | finds the least free minor, or none |
| SpiDriver.SpiDriver.Probe | spi_driver/spi_driver.c:77-156 | a probe takes the least free minor, or fails and frees, or sticks; the status says whether the device is bound |
| SpiDriver.SpiDriver.Exhausted | spi_driver/spi_driver.c:129-132 | without a minor the lock stays held and the object stays behind |
| SpiDriver.SpiDriver.Create | spi_driver/spi_driver.c:121-151 | with a minor, a probe binds device and object, or frees the object when the node cannot be created |
| SpiDriver.SpiDriver.FindDevice | spi_driver/spi_driver.c:170-175 | the list search succeeds exactly when the minor is taken and finds its owner |
| SpiDriver.SpiDriver.Open | spi_driver/spi_driver.c:159-204 | an open attaches the file to the owner, or fails for want of one or of memory and changes nothing |
| SpiDriver.SpiDriver.AddUser | spi_driver/spi_driver.c:180-195 | the first user brings a buffer, and the file points at the object |
| SpiDriver.SpiDriver.Release | spi_driver/spi_driver.c:473-506 | a release detaches exactly that file and keeps the driver valid |
| SpiDriver.SpiDriver.UncountUser | spi_driver/spi_driver.c:487-499 | the last user takes the buffer along, and the object if it has no device |
| SpiDriver.SpiDriver.Remove | spi_driver/spi_driver.c:509-543 | a remove unbinds exactly that device, or fails if it is not bound |
| SpiDriver.SpiDriver.Unlist | spi_driver/spi_driver.c:523-536 | exactly the device's object leaves list, bitmap and driver data |
| SpiDriver.SpiDriver.Invariant | spi_driver/spi_driver.c:77-543 | between calls: users count open files, a buffer exists exactly with users, live is listed or held, no two objects share a buffer, a bit is set exactly when a listed object has that minor, and just one then, a listed object and its device name each other, and each allocation no longer live was freed once |
| SpiDriver.Try | spi_driver/spi_driver.c:77-543 | a call is made exactly if it is possible, and is then a step of the model |
| SpiDriver.Drive | spi_driver/spi_driver.c:77-543 | of any sequence of calls those possible in turn are made, no other, and they are a run in the sense of the theorems above |
| SpiBits.ReverseBits | spi_driver/spi_driver.c:346-356 | the loop puts every bit at its mirror position |
| SpiBits.ReverseMirrors | spi_driver/spi_driver.c:346-356 | bit i of a byte is bit 7 - i of the reversed byte |
| SpiBits.WordMirrors | spi_driver/spi_driver.c:366-384 | swapping two bytes and reversing each reverses the 16-bit word |
| SpiData.SwapPairs | spi_driver/spi_driver.c:367-374 | the loop swaps the bytes of each word, rounding an odd length up |
| SpiData.MirrorBytes | spi_driver/spi_driver.c:382-384 | the loop reverses the bits of each of the first bytes and no other |
| SpiData.LsbFirst | spi_driver/spi_driver.c:359-392 | in place, the bytes become their image in the other bit order; other widths fail and change nothing |
| SpiData.WordImageAt | spi_driver/spi_driver.c:366-384 | every byte of the 16-bit image, odd lengths included |
| SpiData.LsbImageReversesWords | spi_driver/spi_driver.c:366-384 | whole words are byte-swapped and reversed and nothing past the length changes |
| SpiData.LsbTwiceIff | spi_driver/spi_driver.c:359-392 | doing it twice restores the buffer unless an odd length was treated as words, and then exactly for two palindromes |
| SpiData.LsbTwiceFails | spi_driver/spi_driver.c:359-392 | one byte treated as a word is a buffer it does not restore |
| SpiData.ParseReadsHeader | spi_driver/spi_driver.c:262-281 | for every buffer, each field is the bits of the header that the protocol gives it |
| SpiData.ParseIgnoresRest | spi_driver/spi_driver.c:262-281 | buffers that agree on those bits parse alike, whatever else they hold |
| SpiData.AddressedIff | spi_driver/spi_driver.c:283-289 | a message is accepted for a chip select exactly when bits 5 and 4 of its second byte say so |
| SpiData.SpiPort.Transmit | spi_driver/spi_driver.c:395-441 | one transfer sends a group, or the payload if shorter, and stores the answer where it belongs and nowhere else |
| SpiData.SpiPort.SendGroup | spi_driver/spi_driver.c:332-333 | one round sends the next group and appends its answer to the earlier ones |
| SpiData.SpiPort.Fill | spi_driver/spi_driver.c:233-235 | the message lies in the buffer with zeros behind it |
| SpiData.SpiPort.SendAll | spi_driver/spi_driver.c:331-334 | all groups are sent in order and the read buffer begins with the answers, none overwritten |
| SpiData.SpiPort.WriteMsg | spi_driver/spi_driver.c:292-343 | the message is put in bit order and sent; mode and length are recorded |
| SpiData.SpiPort.Write | spi_driver/spi_driver.c:207-259 | what is sent and recorded, the bus mode included, in each of the three outcomes of a write |
| SpiData.SpiPort.Read | spi_driver/spi_driver.c:444-470 | a read hands out as many bytes as the last message carried |
| SpiRoundTrip.TransfersCarryPayload | spi_driver/spi_driver.c:331-334 | ceil(ndb / group) transfers carry the payload in order, with less than a group behind it |
| SpiRoundTrip.TransferLengths | spi_driver/spi_driver.c:408-411 | every transfer is a whole group, or the whole payload when that is less |
| SpiRoundTrip.NoOvershootIff | spi_driver/spi_driver.c:331-334 | they carry nothing else exactly when the group divides the count or exceeds it |
| SpiRoundTrip.OvershootIsZero | spi_driver/spi_driver.c:233-235 | what follows the payload is zeros for a message no longer than its count, unless an odd payload was turned round in words |
| SpiRoundTrip.LoopbackReturnsPayload | spi_driver/spi_driver.c:331-336 | on a loopback device what is read is the payload in the order sent |
| SpiRoundTrip.PayloadAt | spi_driver/spi_driver.c:312-316 | every byte of that payload in terms of the bytes given |
| SpiRoundTrip.WriteThenRead | spi_driver/spi_driver.c:207-470 | for any device, a write and a read return the first ndb bytes of all its answers |
| SpiRoundTrip.ParseInvertsCompose | spi_driver/spi_driver.c:262-289 | parsing recovers every field of a composed header |
| SpiRoundTrip.ComposedPayloadAt | spi_driver/spi_driver.c:262-316 | every byte the bus carries for a composed message in terms of the payload given |
| SpiRoundTrip.RoundTrip | spi_driver/spi_driver.c:207-470 | compose, write to a loopback, read: the payload in the bit order asked for, for every request |
| SpiShared.LastAcceptedIff | spi_driver/spi_driver.c:207-259 | the last accepted write is the one with none accepted behind it |
| SpiShared.WritesThenRead | spi_driver/spi_driver.c:207-470 | after any interleaving of writes to two devices a read from either returns the answers to the last accepted write, of whichever device |
| FbMode.Var.CheckVar | virtfb/virtfb_platform.c:78-186 | the branches compute the closed form, also when the mode checked is the one in force |
| FbMode.Var.RaiseSizes | virtfb/virtfb_platform.c:95-102 | sizes are at least one and the virtual screen at least the visible one |
| FbMode.Var.RoundDepth | virtfb/virtfb_platform.c:103-114 | the depth is rounded up to one the driver knows, or refused |
| FbMode.Var.FitWindow | virtfb/virtfb_platform.c:116-119 | the virtual screen is raised to the 32-bit end of the window |
| FbMode.Var.LayOutColours | virtfb/virtfb_platform.c:126-183 | the colour fields of the depth, most significant bit left |
| FbMode.CheckedIsLeast | virtfb/virtfb_platform.c:78-119 | refusal is for depth alone; the result is the least mode at or above the request, and acceptable exactly when the window ends in 32 bits |
| FbMode.CheckedPanning | virtfb/virtfb_platform.c:86-90 | a console update comes back with the panning in force and wrapping set, any other request with its own |
| FbMode.CheckedColours | virtfb/virtfb_platform.c:126-183 | above eight bits red, green, blue and alpha fill the pixel in that order from bit 0, with the widths of each format; up to eight they share bits 0 to 7 |
| FbMode.RefusedIsRaised | virtfb/virtfb_platform.c:95-114 | a refused request comes back with its sizes raised no further than needed and its own depth and colours |
| FbMode.CheckedIsStable | virtfb/virtfb_platform.c:78-186 | a second check changes nothing |
| FbMemory.FbInfo.constructor | virtfb/virtfb_platform.c:213-215 | the probe's block is recorded in smem_start and not in screen_base |
| FbMemory.FbInfo.SetPar | virtfb/virtfb_platform.c:57-76 | from any such state on, one block is live, the new one, with the 32-bit sizes; a failure leaves none, and the screen base dangling exactly if it named memory before |
| FbMemory.CheckedFieldsInPixelIff | virtfb/virtfb_platform.c:126-179 | colour fields lie in the pixel exactly for more than one bit |
| FbMemory.LineKeptIff | virtfb/virtfb_platform.c:64 | the line length never exceeds a line, and keeps all of it exactly without a wrap and for lines of whole bytes |
| FbMemory.DisjointIff | virtfb/virtfb_platform.c:64-65 | at any depth distinct pixels share no bit exactly when the line length keeps a whole line or there is one row |
| FbMemory.AllInsideIff | virtfb/virtfb_platform.c:64-67 | at any depth all pixels lie in the memory exactly when neither size wraps and lines are whole bytes |
| FbMemory.CheckedScreenAddressable | virtfb/virtfb_platform.c:57-186 | the three together for every mode check_var accepts, lines being whole bytes above one bit a pixel |
| FbMemory.OneBitRowsOverlap | virtfb/virtfb_platform.c:64-65 | an accepted one-bit mode of 9 by 2 in which two pixels share a bit and one lies outside |
| FbMemory.ProbeSizeAgreesIff | virtfb/virtfb_platform.c:213-214 | where set_par's sizes fit, the probe's is the same exactly when the bits the lines leave over make up for its own wraps, to the byte |
| FbMemory.WholeByteProbeIff | virtfb/virtfb_platform.c:213-214 | for whole-byte pixels the probe's size is set_par's modulo 512 MiB, so the same exactly below that |
| FbMemory.ProbeSizeDiffers | virtfb/virtfb_platform.c:213-214 | at 16384 by 16384 and 24 bits the probe asks for a third of the screen |
| FbMemory.PeakIsMaximum | virtfb/virtfb.c:70-77 | the peak of a history is the largest need since its last failure |
| FbMemory.GrowingFb.UnmapVideoMemory | virtfb/virtfb.c:43-51 | frees the block and clears its description |
| FbMemory.GrowingFb.MapVideoMemory | virtfb/virtfb.c:18-41 | allocates the larger of the recorded and the needed size, or records nothing |
| FbMemory.GrowingFb.SetPar | virtfb/virtfb.c:53-80 | over every sequence of calls one block at most is live, its size the peak need since the last failure, and a success is large enough |

## Left out

- TickFixedWidth.TickPcm32.Update: the int `elapsed` is not bounded; it would take 2^31 periods pending between two callbacks.
- TickFixedWidth.TickPcm32.Callback: asks for an exact update; without one a loop may run for ever or miscount (UpdateExactIff).
- TickFixedWidth.UpdateExactIff: takes the product of gap and rate as the unsigned long holds it; a product that wraps a 32-bit long is not covered.
- SpiDriver.SpiDriver.Remove: is one atomic step; the source takes two locks in turn, and the single-free argument needs nothing to run between them.
- SpiDriver.SpiDriver.Release: `struct spidrv_data` is a record in an explicit heap, updated in place under its key, because Dafny's own objects cannot be freed.
- SpiData.SpiPort.Write: excludes a message with a count but groups of zero bytes, for which the loop never ends.
- The sample copy and `buffer_counter` of the tick clock's callback, and the music tables.
- Timer races: a callback that outlives `del_timer`, and the running flag set after `hrtimer_start`.
- The double unlock after a failed `copy_from_user`, writes after a remove, and a failed `kzalloc` in a probe.
- `virtfb_check_var` of `virtfb.c`, both framebuffers' probe (but for the block it records and its size) and exit, and the page rounding of allocations.
- The SPI clock speed beyond the parsed number, delays, and the device's use of the mode bits.
- Registration of platform, PCM, class and character devices, locking inside an entry point, logging.
- The other modules of the repository: input, network, USB, PCI, debugfs and scheduling examples.
