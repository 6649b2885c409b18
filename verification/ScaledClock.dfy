/**
 The clock hooks.  `clock_gettime` divides the time since the replica's epoch
 by `time_scale` and `clock_nanosleep` multiplies the requested time by it.
 Instants are whole nanoseconds of the steady clock; the doubles of the code
 are exact reals here.
 */
module ScaledClock {

  const SECOND: int := 1_000_000_000

  datatype Timespec = Timespec(sec: int, nsec: int)

  function Nanoseconds(t: Timespec): int { t.sec * SECOND + t.nsec }

  /** Conversion of a floating duration to an integral one: truncation toward zero. */
  function Truncate(x: real): int {
    if x >= 0.0 then x.Floor else -(-x).Floor
  }

  /** The scaled time: the epoch plus what has passed since, at the scaled rate. */
  function ScaledTime(epoch: int, now: int, scale: real): real
    requires scale > 0.0
  {
    epoch as real + (now - epoch) as real / scale
  }

  /** `sys_clock_gettime` */
  method ClockGettime(epoch: int, now: int, scale: real) returns (tm: Timespec)
    requires scale > 0.0 && 0 <= epoch <= now
    ensures 0 <= tm.nsec < SECOND
    ensures Nanoseconds(tm) == ScaledTime(epoch, now, scale).Floor
    ensures tm == Reading(epoch, now, scale)
  {
    var sinceEpoch := now - epoch;
    var scaledSinceEpoch := sinceEpoch as real / scale;
    var newTime := epoch as real + scaledSinceEpoch;
    var sec := Truncate(newTime / SECOND as real);
    var nsec := Truncate(newTime - sec as real * SECOND as real);
    tm := Timespec(sec, nsec);
    ReadingIsFloor(epoch, now, scale);
  }

  /** `sys_clock_nanosleep`: the real time it asks `sleep_for` to block for at least. */
  function SleepFor(request: Timespec, scale: real): real {
    Nanoseconds(request) as real * scale
  }

  function Reading(epoch: int, now: int, scale: real): Timespec
    requires scale > 0.0
  {
    var t := ScaledTime(epoch, now, scale);
    var sec := Truncate(t / SECOND as real);
    Timespec(sec, Truncate(t - sec as real * SECOND as real))
  }

  /** At the epoch a reading is the epoch, whatever the scale; at scale 1 it is always the time itself. */
  lemma ReadingFixedPoints(epoch: int, now: int, scale: real)
    requires scale > 0.0 && 0 <= epoch <= now
    ensures Nanoseconds(Reading(epoch, epoch, scale)) == epoch
    ensures Nanoseconds(Reading(epoch, now, 1.0)) == now
  {
    ReadingIsFloor(epoch, epoch, scale);
    ReadingIsFloor(epoch, now, 1.0);
  }

  /** The scaled time runs at `1 / scale` of the clock, up to the rounding of the readings. */
  lemma ReadingsAtRate(epoch: int, now1: int, now2: int, scale: real)
    requires scale > 0.0 && 0 <= epoch <= now1 <= now2
    ensures var elapsed := (now2 - now1) as real;
            var read := (Nanoseconds(Reading(epoch, now2, scale)) - Nanoseconds(Reading(epoch, now1, scale))) as real;
            elapsed / scale - 1.0 < read < elapsed / scale + 1.0
  {
    ReadingIsFloor(epoch, now1, scale);
    ReadingIsFloor(epoch, now2, scale);
    DivideDifference((now1 - epoch) as real, (now2 - epoch) as real, scale);
  }

  lemma DivideDifference(x: real, y: real, scale: real)
    requires scale > 0.0
    ensures y / scale - x / scale == (y - x) / scale
  {}

  lemma FloorSplit(t: real)
    requires t >= 0.0
    ensures var sec := (t / SECOND as real).Floor;
            && 0.0 <= t - sec as real * SECOND as real < SECOND as real
            && sec * SECOND + (t - sec as real * SECOND as real).Floor == t.Floor
  {
    var q := t / SECOND as real;
    var sec := q.Floor;
    assert t == q * SECOND as real;
    assert sec as real <= q < sec as real + 1.0;
    var rest := t - sec as real * SECOND as real;
    assert (sec * SECOND) as real == sec as real * SECOND as real;
    assert t == rest + (sec * SECOND) as real;
  }

  lemma ScaledNonNegative(epoch: int, now: int, scale: real)
    requires scale > 0.0 && 0 <= epoch <= now
    ensures ScaledTime(epoch, now, scale) >= 0.0
  {}

  /** The two fields of a reading are a proper timespec for the floor of the scaled time. */
  lemma ReadingIsFloor(epoch: int, now: int, scale: real)
    requires scale > 0.0 && 0 <= epoch <= now
    ensures var tm := Reading(epoch, now, scale);
            0 <= tm.nsec < SECOND && Nanoseconds(tm) == ScaledTime(epoch, now, scale).Floor
  {
    ScaledNonNegative(epoch, now, scale);
    FloorSplit(ScaledTime(epoch, now, scale));
  }

  lemma DivideMonotone(x: real, y: real, scale: real)
    requires scale > 0.0 && x <= y
    ensures x / scale <= y / scale
  {}

  lemma DivideGap(x: real, y: real, d: real, scale: real)
    requires scale > 0.0 && y - x >= d * scale
    ensures y / scale - x / scale >= d
  {
    DivideMonotone(x + d * scale, y, scale);
    assert (x + d * scale) / scale == x / scale + d;
  }

  /** Successive readings never go back. */
  lemma ReadingsMonotone(epoch: int, now1: int, now2: int, scale: real)
    requires scale > 0.0 && 0 <= epoch <= now1 <= now2
    ensures Nanoseconds(Reading(epoch, now1, scale)) <= Nanoseconds(Reading(epoch, now2, scale))
  {
    ReadingIsFloor(epoch, now1, scale);
    ReadingIsFloor(epoch, now2, scale);
    DivideMonotone((now1 - epoch) as real, (now2 - epoch) as real, scale);
  }

  lemma ScaledGap(epoch: int, now1: int, now2: int, d: int, scale: real)
    requires scale > 0.0 && (now2 - now1) as real == d as real * scale
    ensures ScaledTime(epoch, now2, scale) == ScaledTime(epoch, now1, scale) + d as real
  {
    DivideDifference((now1 - epoch) as real, (now2 - epoch) as real, scale);
    MultiplyDivide(d as real, scale);
  }

  lemma MultiplyDivide(d: real, scale: real)
    requires scale > 0.0
    ensures d * scale / scale == d
  {}

  /** A clock that advances by exactly what `clock_nanosleep` sleeps for is read exactly the time requested later. */
  lemma SleepIsExact(epoch: int, now1: int, now2: int, request: Timespec, scale: real)
    requires scale > 0.0 && 0 <= epoch <= now1 <= now2
    requires (now2 - now1) as real == SleepFor(request, scale)
    ensures Nanoseconds(Reading(epoch, now2, scale)) - Nanoseconds(Reading(epoch, now1, scale)) == Nanoseconds(request)
  {
    ScaledGap(epoch, now1, now2, Nanoseconds(request), scale);
    hide Reading, ScaledTime, Nanoseconds, SleepFor;
    ReadingIsFloor(epoch, now1, scale);
    ReadingIsFloor(epoch, now2, scale);
  }

  /**
   The two hooks agree: if the steady clock advances between two readings by
   at least what `clock_nanosleep` sleeps for, the readings differ by at least
   the time requested, at any scale.
   */
  lemma SleepIsVisible(epoch: int, now1: int, now2: int, request: Timespec, scale: real)
    requires scale > 0.0 && 0 <= epoch <= now1 <= now2
    requires (now2 - now1) as real >= SleepFor(request, scale)
    ensures Nanoseconds(Reading(epoch, now2, scale)) - Nanoseconds(Reading(epoch, now1, scale)) >= Nanoseconds(request)
  {
    var d := Nanoseconds(request);
    ReadingIsFloor(epoch, now1, scale);
    ReadingIsFloor(epoch, now2, scale);
    var x, y := (now1 - epoch) as real, (now2 - epoch) as real;
    DivideGap(x, y, d as real, scale);
    var t1, t2 := ScaledTime(epoch, now1, scale), ScaledTime(epoch, now2, scale);
    assert t2 >= t1 + d as real >= (t1.Floor + d) as real;
  }
}
