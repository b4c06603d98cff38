/** Frame delimiting by inter-frame silence: the t3.5 threshold computed from
    the baud rate, and the poll-by-poll observation of the port's pending
    byte count. */
module FrameAssembler {
  import opened Bytes

  /** `micros()` and `unsigned long` wrap at 2^32. */
  const MICROS_MODULUS: nat := 0x1_0000_0000

  /** An `unsigned long` value. */
  type u32 = x: nat | x < 0x1_0000_0000

  /** 3.5 character times of 11 bits each, in bit-microseconds. */
  const SILENCE_BIT_MICROS: nat := 3500000 * 11

  /** The floor used above 19200 baud, in microseconds. */
  const HIGH_SPEED_SILENCE: nat := 1750

  /** t3.5 in microseconds, as computed once by `begin`: the whole number of
      microseconds that 3.5 characters take at `baud` up to 19200 baud, and a
      fixed 1750 above it. */
  function SilenceThreshold(baud: nat): (t: u32)
    requires baud > 0
    ensures baud <= 19200 ==> t * baud <= SILENCE_BIT_MICROS < (t + 1) * baud
    ensures baud > 19200 ==> t == HIGH_SPEED_SILENCE
    ensures HIGH_SPEED_SILENCE <= t
  {
    if baud <= 19200 then
      var t := SILENCE_BIT_MICROS / baud;
      assert t * baud <= SILENCE_BIT_MICROS < (t + 1) * baud;
      assert 2005 * baud <= 2005 * 19200 < (t + 1) * baud;
      CancelFactor(2005, t + 1, baud);
      t
    else
      HIGH_SPEED_SILENCE
  }

  /** A faster line never waits longer for silence than a slower one. */
  lemma SilenceThresholdAntitone(slow: nat, fast: nat)
    requires 0 < slow <= fast
    ensures SilenceThreshold(fast) <= SilenceThreshold(slow)
  {
    var ts, tf := SilenceThreshold(slow), SilenceThreshold(fast);
    if fast <= 19200 {
      assert tf * slow <= tf * fast;
      assert tf * slow < (ts + 1) * slow;
      CancelFactor(tf, ts + 1, slow);
    }
  }

  /** Cancelling a positive factor from a strict inequality. */
  lemma CancelFactor(a: nat, b: nat, c: nat)
    requires a * c < b * c
    ensures a < b
  {
    if b <= a {
      MulMonotone(b, a, c);
    }
  }

  lemma MulMonotone(a: nat, b: nat, c: nat)
    requires a <= b
    ensures a * c <= b * c
  {
  }

  /** `now - ts` on `unsigned long`: the subtraction wraps modulo 2^32. */
  function Elapsed(now: u32, ts: u32): (d: u32)
    ensures ts <= now ==> d == now - ts
    ensures now < ts ==> d == now + MICROS_MODULUS - ts
  {
    (now - ts) % MICROS_MODULUS
  }

  /** Wraparound-safe: however the clock wrapped, the elapsed time of a reading
      taken d microseconds after ts is d, as long as d is below 2^32. */
  lemma ElapsedAcrossWrap(ts: u32, d: u32)
    ensures Elapsed(((ts + d) % MICROS_MODULUS) as u32, ts) == d
  {
    var now := (ts + d) % MICROS_MODULUS;
    if ts + d < MICROS_MODULUS {
      assert now == ts + d;
    } else {
      assert now == ts + d - MICROS_MODULUS;
      assert now - ts == d - MICROS_MODULUS;
    }
  }

  /** The retained observation: `_last_available` and `_last_available_ts`. */
  datatype Observation = Observation(count: word, ts: u32)

  /** One poll's effect: the new observation and whether `readBytes` ran. */
  datatype PollStep = PollStep(next: Observation, read: bool)

  /** The assembler at the top of `process`, for a pending count `available`
      observed at time `now`. */
  function Assemble(last: Observation, t35: u32, available: word, now: u32): (s: PollStep)
    ensures s.read ==> 0 < available == last.count && s.next == Observation(0, last.ts)
    ensures !s.read ==> s.next == last || s.next == Observation(available, now)
  {
    if available == 0 then
      PollStep(last, false)
    else if available != last.count then
      PollStep(Observation(available, now), false)
    else if Elapsed(now, last.ts) >= t35 then
      PollStep(Observation(0, last.ts), true)
    else
      PollStep(last, false)
  }

  /** A count of 0 changes nothing and yields no frame. */
  lemma EmptyPortIgnored(last: Observation, t35: u32, now: u32)
    ensures Assemble(last, t35, 0, now) == PollStep(last, false)
  {
  }

  /** A new count restarts the silence measurement and yields no frame. */
  lemma ChangedCountRestartsSilence(last: Observation, t35: u32, available: word, now: u32)
    requires available > 0 && available != last.count
    ensures Assemble(last, t35, available, now) == PollStep(Observation(available, now), false)
  {
  }

  /** Bytes are read exactly when the count is nonzero, equals the recorded
      count, and the silence threshold has passed since it was recorded; a
      read clears the recorded count and keeps the timestamp. */
  lemma ReadIffStableAndSilent(last: Observation, t35: u32, available: word, now: u32)
    ensures Assemble(last, t35, available, now).read
            <==> available > 0 && available == last.count && Elapsed(now, last.ts) >= t35
    ensures Assemble(last, t35, available, now).read
            ==> Assemble(last, t35, available, now).next == Observation(0, last.ts)
  {
  }

  /** One poll of the port: its pending count and the clock. */
  datatype Sample = Sample(available: word, now: u32)

  /** The `read` flags of a sequence of polls, starting from `last`: a poll
      reads only with bytes pending, the first poll after the recorded count
      was cleared never reads, and no two consecutive polls both read. */
  function Run(last: Observation, t35: u32, samples: seq<Sample>): (fired: seq<bool>)
    decreases samples
    ensures |fired| == |samples|
    ensures forall i :: 0 <= i < |samples| && fired[i] ==> samples[i].available > 0
    ensures last.count == 0 && |samples| > 0 ==> !fired[0]
    ensures forall i :: 0 < i < |samples| && fired[i] ==> !fired[i - 1]
  {
    if samples == [] then []
    else
      var s := Assemble(last, t35, samples[0].available, samples[0].now);
      [s.read] + Run(s.next, t35, samples[1..])
  }

  /** While the pending count keeps changing from poll to poll, no frame is
      ever assembled, however much time passes. */
  lemma {:induction false} NoFrameWhileCountChanges(last: Observation, t35: u32, samples: seq<Sample>)
    requires forall i :: 0 <= i < |samples| ==> samples[i].available > 0
    requires |samples| > 0 ==> samples[0].available != last.count
    requires forall i :: 0 < i < |samples| ==> samples[i].available != samples[i - 1].available
    ensures forall i :: 0 <= i < |samples| ==> !Run(last, t35, samples)[i]
    decreases samples
  {
    if samples != [] {
      var s := Assemble(last, t35, samples[0].available, samples[0].now);
      assert s.next.count == samples[0].available;
      var rest := samples[1..];
      assert forall i :: 0 < i < |rest| ==> rest[i].available != rest[i - 1].available by {
        forall i | 0 < i < |rest| ensures rest[i].available != rest[i - 1].available {
          assert rest[i] == samples[i + 1] && rest[i - 1] == samples[i];
        }
      }
      NoFrameWhileCountChanges(s.next, t35, rest);
      var fired := Run(last, t35, samples);
      assert fired == [s.read] + Run(s.next, t35, rest);
      forall i | 0 <= i < |samples| ensures !fired[i] {
        if i > 0 {
          assert fired[i] == Run(s.next, t35, rest)[i - 1];
        }
      }
    }
  }

  /** A poll that reads a frame is never followed by another read on the very
      next poll: the cleared count must be re-observed first. */
  lemma NoBackToBackReads(last: Observation, t35: u32, first: Sample, second: Sample)
    requires Assemble(last, t35, first.available, first.now).read
    ensures !Assemble(Assemble(last, t35, first.available, first.now).next, t35,
                      second.available, second.now).read
  {
  }
}
