// The time arithmetic beside the pipeline: elapsed-time statistics, positions, and the
// playing time of a buffer.
module Time {
  import opened Bytes
  import opened Pcm

  const NANOSECONDS := 1_000_000_000
  const MICROSECONDS := 1_000_000

  // struct timespec
  datatype Timespec = Timespec(sec: int, nsec: int) {
    function Ns(): int {
      sec * NANOSECONDS + nsec
    }

    predicate Normalized() {
      0 <= nsec < NANOSECONDS
    }
  }

  // A result stored in a size_t, and one stored in a long.
  function Wrap(x: int): (n: nat)
    ensures n < SIZE_LIMIT
  {
    x % SIZE_LIMIT
  }

  function ToLong(n: nat): int
    requires n < SIZE_LIMIT
  {
    if n >= SIZE_LIMIT / 2 then n - SIZE_LIMIT else n
  }

  // -- timer.c --------------------------------------------------------------------------

  function ElapsedBetween(start: Timespec, end: Timespec): Timespec {
    if end.nsec < start.nsec
    then Timespec(end.sec - start.sec - 1, NANOSECONDS + end.nsec - start.nsec)
    else Timespec(end.sec - start.sec, end.nsec - start.nsec)
  }

  function Sum(total: Timespec, elapsed: Timespec): Timespec {
    var nsec := total.nsec + elapsed.nsec;
    if nsec >= NANOSECONDS
    then Timespec(total.sec + elapsed.sec + 1, nsec - NANOSECONDS)
    else Timespec(total.sec + elapsed.sec, nsec)
  }

  // The result is stored in a 32-bit unsigned.
  function Milliseconds(t: Timespec): nat {
    (1000 * t.sec + t.nsec / 1_000_000) % UINT32_LIMIT
  }

  class Accumulator {
    var value: Timespec

    constructor ()
      ensures value == Timespec(0, 0)
    {
      value := Timespec(0, 0);
    }

    method AddElapsed(start: Timespec, now: Timespec)
      modifies this
      ensures value == Sum(old(value), ElapsedBetween(start, now))
    {
      var elapsed := ElapsedBetween(start, now);
      value := value.(nsec := value.nsec + elapsed.nsec);
      value := value.(sec := value.sec + elapsed.sec);
      if value.nsec >= NANOSECONDS {
        value := value.(nsec := value.nsec - NANOSECONDS);
        value := value.(sec := value.sec + 1);
      }
    }
  }

  datatype Interval = Interval(start: Timespec, end: Timespec)

  predicate AllNormalized(intervals: seq<Interval>) {
    forall i :: i in intervals ==> i.start.Normalized() && i.end.Normalized()
  }

  function Accumulated(total: Timespec, intervals: seq<Interval>): Timespec
    decreases |intervals|
  {
    if intervals == [] then total
    else Accumulated(Sum(total, ElapsedBetween(intervals[0].start, intervals[0].end)), intervals[1..])
  }

  function Lengths(intervals: seq<Interval>): int {
    if intervals == [] then 0
    else (intervals[0].end.Ns() - intervals[0].start.Ns()) + Lengths(intervals[1..])
  }

  // The time between two normalized ones is normalized, and exact to the nanosecond.
  lemma ElapsedExactly(start: Timespec, end: Timespec)
    requires start.Normalized() && end.Normalized()
    ensures var t := ElapsedBetween(start, end);
      t.Normalized() && t.Ns() == end.Ns() - start.Ns()
  {
  }

  // Adding up any intervals keeps the total normalized, and exact to the nanosecond.
  lemma {:induction false} AccumulatedExactly(total: Timespec, intervals: seq<Interval>)
    requires total.Normalized() && AllNormalized(intervals)
    ensures var t := Accumulated(total, intervals);
      t.Normalized() && t.Ns() == total.Ns() + Lengths(intervals)
    decreases |intervals|
  {
    if intervals != [] {
      assert intervals[0] in intervals;
      assert forall i :: i in intervals[1..] ==> i in intervals;
      AccumulatedExactly(Sum(total, ElapsedBetween(intervals[0].start, intervals[0].end)), intervals[1..]);
    }
  }

  // Milliseconds are whole ones, modulo 2^32.
  lemma MillisecondsExactly(t: Timespec)
    requires t.Normalized()
    ensures Milliseconds(t) == t.Ns() / 1_000_000 % UINT32_LIMIT
  {
    assert t.Ns() == 1_000_000 * (1000 * t.sec) + t.nsec;
  }

  // -- positions ------------------------------------------------------------------------

  // The seconds of pcm_spec_get_samples_time, a size_t stored in a time_t
  function Seconds(rate: nat, count: nat): int
    requires rate > 0 && count < SIZE_LIMIT
  {
    ShrinkingQuotient(count, rate);
    ToLong(count / rate)
  }

  // pcm_spec_get_samples_time, operation by operation in the widths of its types. The product
  // of seconds and rate is a signed long; where it leaves that range, C leaves the result
  // open, and it is taken to wrap here, as the host does.
  function SamplesTime(rate: nat, count: nat): Timespec
    requires rate > 0 && count < SIZE_LIMIT
  {
    var product := ToLong(Wrap(Seconds(rate, count) * rate));
    Timespec(Seconds(rate, count), Nanoseconds(rate, Wrap(count - product)))
  }

  // The product does not leave the range of a long.
  predicate ProductFits(rate: nat, count: nat)
    requires rate > 0 && count < SIZE_LIMIT
  {
    -(SIZE_LIMIT as int / 2) <= Seconds(rate, count) * rate < SIZE_LIMIT / 2
  }

  // That depends on the whole seconds of the count alone: they must be fewer than 2^63 frames.
  lemma ProductFitsExactly(rate: nat, count: nat)
    requires rate > 0 && count < SIZE_LIMIT && count / rate < SIZE_LIMIT / 2
    ensures ProductFits(rate, count) <==> count - count % rate < SIZE_LIMIT / 2
  {
    assert count == rate * (count / rate) + count % rate;
    assert Seconds(rate, count) * rate == rate * (count / rate);
  }

  lemma WrapOfLong(x: int, y: int)
    ensures Wrap(y - ToLong(Wrap(x))) == Wrap(y - x)
  {
    var q := x / SIZE_LIMIT;
    assert x == SIZE_LIMIT * q + Wrap(x);
    var k := if Wrap(x) >= SIZE_LIMIT / 2 then q + 1 else q;
    assert y - ToLong(Wrap(x)) == (y - x) + SIZE_LIMIT * k;
    var z := (y - x) / SIZE_LIMIT;
    ModulusUnique(y - ToLong(Wrap(x)), SIZE_LIMIT, z + k, Wrap(y - x));
  }

  function Nanoseconds(rate: nat, rest: nat): int
    requires rate > 0
  {
    ShrinkingQuotient(Wrap(NANOSECONDS * rest), rate);
    ToLong(Wrap(NANOSECONDS * rest) / rate)
  }

  // The time is the exact one rounded down to a nanosecond, for every 32-bit rate and every
  // count whose seconds do not leave the range of time_t: the product may wrap, but what is
  // subtracted from the count then wraps back.
  lemma SamplesTimeExact(rate: nat, count: nat)
    requires 0 < rate < UINT32_LIMIT && count < SIZE_LIMIT && count / rate < SIZE_LIMIT / 2
    ensures var t := SamplesTime(rate, count);
      t.Normalized() && t.Ns() == count * NANOSECONDS / rate
  {
    NothingCutOff(rate, count);
    SplitSeconds(rate, count);
  }

  lemma NothingCutOff(rate: nat, count: nat)
    requires 0 < rate < UINT32_LIMIT && count < SIZE_LIMIT && count / rate < SIZE_LIMIT / 2
    ensures SamplesTime(rate, count) == Timespec(count / rate, NANOSECONDS * (count % rate) / rate)
  {
    var q, r := count / rate, count % rate;
    assert count - q * rate == r by {
      assert count == rate * q + r;
    }
    WrapOfLong(q * rate, count);
    ModulusUnique(r, SIZE_LIMIT, 0, r);
    NanosecondsExact(rate, r);
  }

  lemma NanosecondsExact(rate: nat, rest: nat)
    requires rest < rate < UINT32_LIMIT
    ensures Nanoseconds(rate, rest) == NANOSECONDS * rest / rate
  {
    var scaled := NANOSECONDS * rest;
    assert scaled < SIZE_LIMIT / 2;
    ModulusUnique(scaled, SIZE_LIMIT, 0, scaled);
    ShrinkingQuotient(scaled, rate);
  }

  lemma SplitSeconds(rate: nat, count: nat)
    requires rate > 0
    ensures var nsec := NANOSECONDS * (count % rate) / rate;
      && 0 <= nsec < NANOSECONDS
      && count / rate * NANOSECONDS + nsec == count * NANOSECONDS / rate
  {
    var q, r := count / rate, count % rate;
    var scaled := NANOSECONDS * r;
    var f, m := scaled / rate, scaled % rate;
    assert scaled == rate * f + m;
    var beyond := f - NANOSECONDS + 1;
    MultipleAtLeast(rate, beyond);
    assert rate * beyond == rate * f - rate * NANOSECONDS + rate;
    assert count * NANOSECONDS == rate * (q * NANOSECONDS + f) + m by {
      assert count == rate * q + r;
      assert rate * (q * NANOSECONDS + f) == rate * q * NANOSECONDS + rate * f;
    }
    ModulusUnique(count * NANOSECONDS, rate, q * NANOSECONDS + f, m);
  }

  lemma QuotientMonotone(m: nat, n: nat, d: nat)
    requires m <= n && d > 0
    ensures m / d <= n / d
  {
    var p, q := m / d, n / d;
    assert m == d * p + m % d && n == d * q + n % d;
    MultipleAtLeast(d, p - q);
    assert d * (p - q) == d * p - d * q;
  }

  // A later position never reads as an earlier time.
  lemma SamplesTimeMonotone(rate: nat, first: nat, later: nat)
    requires 0 < rate < UINT32_LIMIT && first <= later < SIZE_LIMIT && later / rate < SIZE_LIMIT / 2
    ensures SamplesTime(rate, first).Ns() <= SamplesTime(rate, later).Ns()
  {
    QuotientMonotone(first, later, rate);
    SamplesTimeExact(rate, first);
    SamplesTimeExact(rate, later);
    QuotientMonotone(first * NANOSECONDS, later * NANOSECONDS, rate);
  }

  // pcm_spec_get_total_time
  function TotalTime(spec: PcmSpec): Timespec
    requires spec.format.samplesPerSec > 0 && spec.samplesCount < SIZE_LIMIT
  {
    SamplesTime(spec.format.samplesPerSec, spec.samplesCount)
  }

  // The position heard, in frames
  function ActualFrames(written: nat, delay: int): nat {
    Wrap(written - delay)
  }

  // What a snd_pcm_sframes_t can hold
  predicate IsDelay(delay: int) {
    -0x8000_0000_0000_0000 <= delay < 0x8000_0000_0000_0000
  }

  // The position subtracts in unsigned arithmetic, so it is the true difference exactly if
  // the device is not behind by more than was written, nor ahead by more than a count holds.
  lemma ActualFramesExact(written: nat, delay: int)
    requires written < SIZE_LIMIT && IsDelay(delay)
    ensures ActualFrames(written, delay) == written - delay <==>
      delay <= written && written - delay < SIZE_LIMIT
  {
  }

  lemma QuotientSum(x: nat, y: nat, d: nat)
    requires d > 0
    ensures x / d + y / d <= (x + y) / d <= x / d + y / d + 1
  {
    var p, q := x / d, y / d;
    var r := x % d + y % d;
    assert x + y == d * (p + q) + r by {
      assert x == d * p + x % d && y == d * q + y % d;
      assert d * (p + q) == d * p + d * q;
    }
    if r < d {
      ModulusUnique(x + y, d, p + q, r);
    } else {
      assert d * (p + q + 1) == d * (p + q) + d;
      ModulusUnique(x + y, d, p + q + 1, r - d);
    }
  }

  // player_get_playback_status: the time heard and the time still buffered. The delay is
  // signed; both calls take unsigned counts.
  function Actual(rate: nat, written: nat, delay: int): Timespec
    requires rate > 0
  {
    SamplesTime(rate, ActualFrames(written, delay))
  }

  function PlaybackBuffer(rate: nat, delay: int): Timespec
    requires rate > 0
  {
    SamplesTime(rate, Wrap(delay))
  }

  // The two unsigned counts add up to the frames written, or to 2^64 more.
  lemma CountsAddUp(written: nat, delay: int)
    requires written < SIZE_LIMIT && IsDelay(delay)
    ensures ActualFrames(written, delay) + Wrap(delay) ==
      if 0 <= delay <= written || written - delay >= SIZE_LIMIT then written else written + SIZE_LIMIT
  {
  }

  // The two times reported are at most that of all frames written, and short of it by a
  // nanosecond at most, exactly if the delay is neither negative nor more than what was
  // written; the one exception is a negative delay so large that both counts wrap.
  lemma StatusAddsUp(rate: nat, written: nat, delay: int)
    requires 2 <= rate < UINT32_LIMIT && written < SIZE_LIMIT && IsDelay(delay)
    ensures var sum := Actual(rate, written, delay).Ns() + PlaybackBuffer(rate, delay).Ns();
      var all := SamplesTime(rate, written).Ns();
      all - 1 <= sum <= all <==> 0 <= delay <= written || written - delay >= SIZE_LIMIT
  {
    var heard, buffered := ActualFrames(written, delay), Wrap(delay);
    WithinRange(rate, heard);
    WithinRange(rate, buffered);
    WithinRange(rate, written);
    SamplesTimeExact(rate, heard);
    SamplesTimeExact(rate, buffered);
    SamplesTimeExact(rate, written);
    TimesAddUp(rate, heard, buffered);
    CountsAddUp(written, delay);
    TooLong(rate, written);
  }

  // None of this rests on a product that leaves its range, as long as the delay is neither
  // negative nor more than was written; otherwise a count is 2^63 at least.
  lemma StatusFits(rate: nat, written: nat, delay: int)
    requires 2 <= rate < UINT32_LIMIT && written < SIZE_LIMIT / 2 && IsDelay(delay)
    ensures 0 <= delay <= written ==>
      ProductFits(rate, written) && ProductFits(rate, ActualFrames(written, delay)) && ProductFits(rate, Wrap(delay))
    ensures 0 <= delay <= written <==>
      ActualFrames(written, delay) < SIZE_LIMIT / 2 && Wrap(delay) < SIZE_LIMIT / 2
  {
    CountsInRange(written, delay);
    if 0 <= delay <= written {
      FewFramesFit(rate, written);
      FewFramesFit(rate, ActualFrames(written, delay));
      FewFramesFit(rate, Wrap(delay));
    }
  }

  lemma CountsInRange(written: nat, delay: int)
    requires written < SIZE_LIMIT / 2 && IsDelay(delay)
    ensures 0 <= delay <= written <==>
      ActualFrames(written, delay) < SIZE_LIMIT / 2 && Wrap(delay) < SIZE_LIMIT / 2
  {
  }

  lemma FewFramesFit(rate: nat, count: nat)
    requires 2 <= rate && count < SIZE_LIMIT
    ensures ProductFits(rate, count) <==> count - count % rate < SIZE_LIMIT / 2
    ensures count < SIZE_LIMIT / 2 ==> ProductFits(rate, count)
  {
    WithinRange(rate, count);
    ProductFitsExactly(rate, count);
  }

  lemma WithinRange(rate: nat, count: nat)
    requires rate >= 2 && count < SIZE_LIMIT
    ensures count / rate < SIZE_LIMIT / 2
  {
    var q := count / rate;
    assert count == rate * q + count % rate;
    assert rate * q == 2 * q + (rate - 2) * q;
    FewerItems(0, rate - 2, q);
  }

  // 2^64 frames more are noticed.
  lemma TooLong(rate: nat, written: nat)
    requires 0 < rate < UINT32_LIMIT
    ensures (written + SIZE_LIMIT) * NANOSECONDS / rate > written * NANOSECONDS / rate + 1
  {
    var more := SIZE_LIMIT * NANOSECONDS;
    QuotientSum(written * NANOSECONDS, more, rate);
    assert (written + SIZE_LIMIT) * NANOSECONDS == written * NANOSECONDS + more;
    QuotientMonotone(2 * rate, more, rate);
    ModulusUnique(2 * rate, rate, 2, 0);
  }

  // An underrun that the device reports as a delay of -1 after a thousand frames: the time
  // still buffered reads as some thirteen million years. Its seconds are what C gives; the
  // nanoseconds come of a product that does not fit a long, taken to wrap.
  lemma NegativeDelay()
    ensures PlaybackBuffer(44100, -1).sec == 418_293_516_410_647 && !ProductFits(44100, Wrap(-1))
    ensures var sum := Actual(44100, 1000, -1).Ns() + PlaybackBuffer(44100, -1).Ns();
      !(SamplesTime(44100, 1000).Ns() - 1 <= sum <= SamplesTime(44100, 1000).Ns())
  {
    StatusAddsUp(44100, 1000, -1);
    assert Wrap(-1) == SIZE_LIMIT - 1;
    NothingCutOff(44100, SIZE_LIMIT - 1);
    FewFramesFit(44100, SIZE_LIMIT - 1);
  }

  lemma TimesAddUp(rate: nat, heard: nat, delay: nat)
    requires rate > 0
    ensures var sum := heard * NANOSECONDS / rate + delay * NANOSECONDS / rate;
      (heard + delay) * NANOSECONDS / rate - 1 <= sum <= (heard + delay) * NANOSECONDS / rate
  {
    QuotientSum(heard * NANOSECONDS, delay * NANOSECONDS, rate);
    assert heard * NANOSECONDS + delay * NANOSECONDS == (heard + delay) * NANOSECONDS;
  }

  // -- playing time of a buffer -------------------------------------------------------------

  // pcm_buffer_time_us, for a number of whole frames: size_t arithmetic, returned in 32 bits
  function FramesTimeUs(rate: nat, frames: nat): nat
    requires rate > 0
  {
    Wrap(Wrap(frames * 1000) * 1000) / rate % UINT32_LIMIT
  }

  function BufferTimeUs(frameSize: nat, rate: nat, size: nat): nat
    requires frameSize > 0 && rate > 0
  {
    FramesTimeUs(rate, size / frameSize)
  }

  // No intermediate value is cut off.
  predicate TimeFits(rate: nat, frames: nat)
    requires rate > 0
  {
    frames * MICROSECONDS < SIZE_LIMIT && frames * MICROSECONDS / rate < UINT32_LIMIT
  }

  lemma FramesTimeBound(rate: nat, frames: nat)
    requires rate > 0 && TimeFits(rate, frames)
    ensures var t := FramesTimeUs(rate, frames);
      && t == frames * MICROSECONDS / rate
      && frames * MICROSECONDS - rate < t * rate <= frames * MICROSECONDS
  {
    ScaledExactly(frames);
    QuotientBound(frames * MICROSECONDS, rate);
  }

  lemma WrapOfWrap(frames: nat)
    ensures Wrap(Wrap(frames * 1000) * 1000) == Wrap(frames * MICROSECONDS)
  {
    var x := frames * 1000;
    var q := x / SIZE_LIMIT;
    assert frames * MICROSECONDS == SIZE_LIMIT * (1000 * q) + Wrap(x) * 1000;
    var r := Wrap(x) * 1000 / SIZE_LIMIT;
    ModulusUnique(frames * MICROSECONDS, SIZE_LIMIT, 1000 * q + r, Wrap(Wrap(x) * 1000));
  }

  lemma ScaledExactly(frames: nat)
    requires frames * MICROSECONDS < SIZE_LIMIT
    ensures Wrap(Wrap(frames * 1000) * 1000) == frames * MICROSECONDS
  {
  }

  lemma QuotientBound(n: nat, d: nat)
    requires d > 0
    ensures n - d < n / d * d <= n
  {
    var q := n / d;
    assert n == d * q + n % d;
    assert q * d == d * q;
  }

  // The microseconds are counted modulo 2^64, and their time modulo 2^32.
  lemma FramesTimeWraps(rate: nat, frames: nat)
    requires rate > 0
    ensures FramesTimeUs(rate, frames) == frames * 1_000_000 % 0x1_0000_0000_0000_0000 / rate % 0x1_0000_0000
  {
    WrapOfWrap(frames);
  }

  // Whatever wraps on the way, the time is the true one exactly if that fits 32 bits.
  lemma FramesTimeExactly(rate: nat, frames: nat)
    requires 0 < rate < UINT32_LIMIT
    ensures FramesTimeUs(rate, frames) == frames * MICROSECONDS / rate <==>
      frames * MICROSECONDS / rate < UINT32_LIMIT
  {
    var us := frames * MICROSECONDS;
    if us / rate < UINT32_LIMIT {
      assert us == rate * (us / rate) + us % rate;
      FewerItems(us / rate, UINT32_LIMIT - 1, rate);
      assert (UINT32_LIMIT - 1) * rate == UINT32_LIMIT * rate - rate;
      FewerItems(rate, UINT32_LIMIT, UINT32_LIMIT);
      ScaledExactly(frames);
    }
  }

  // The time of a buffer is that of its whole frames, rounded down, and grows with it.
  lemma BufferTimeBound(frameSize: nat, rate: nat, size: nat, larger: nat)
    requires frameSize > 0 && rate > 0 && size <= larger && TimeFits(rate, larger / frameSize)
    ensures var k, t := size / frameSize, BufferTimeUs(frameSize, rate, size);
      && k * MICROSECONDS - rate < t * rate <= k * MICROSECONDS
      && t <= BufferTimeUs(frameSize, rate, larger)
  {
    var k, l := size / frameSize, larger / frameSize;
    QuotientMonotone(size, larger, frameSize);
    QuotientMonotone(k * MICROSECONDS, l * MICROSECONDS, rate);
    FramesTimeBound(rate, k);
    FramesTimeBound(rate, l);
  }

  // Up to a million frames a second, and no faster, the time tells how many whole frames
  // there are.
  lemma TimeDeterminesFrames(rate: nat)
    requires 0 < rate < UINT32_LIMIT
    ensures (forall k: nat, l: nat ::
               TimeFits(rate, k) && TimeFits(rate, l) && FramesTimeUs(rate, k) == FramesTimeUs(rate, l) ==> k == l)
      <==> rate <= MICROSECONDS
  {
    if rate <= MICROSECONDS {
      forall k: nat, l: nat | TimeFits(rate, k) && TimeFits(rate, l) && FramesTimeUs(rate, k) == FramesTimeUs(rate, l)
        ensures k == l
      {
        FramesTimeBound(rate, k);
        FramesTimeBound(rate, l);
      }
    } else {
      ModulusUnique(MICROSECONDS, rate, 0, MICROSECONDS);
      ModulusUnique(0, rate, 0, 0);
      assert TimeFits(rate, 0) && TimeFits(rate, 1);
      assert FramesTimeUs(rate, 0) == 0 && FramesTimeUs(rate, 1) == 0;
    }
  }
}
