/** The workspace sampler: a polling loop over a wrapping 32-bit tick counter that fills
    a bounded buffer. */
module Sampler {

  const PERIOD_TICKS: nat := 50
  const WINDOW_TICKS: nat := 4000
  const MAX_SAMPLES: nat := WINDOW_TICKS / PERIOD_TICKS + 2
  const TWO32: nat := 0x1_0000_0000
  const TWO64: nat := 0x1_0000_0000_0000_0000

  /** Unsigned 32-bit subtraction. */
  function Minus(a: int, b: int): int {
    (a - b) % TWO32
  }

  datatype Sample = Sample(elapsed: int, total: nat, used: nat, free: nat, minFree: nat, largestFree: nat, usage: nat)

  /** What rtems_workspace_get_information reports, if it succeeds. All sizes are 32-bit
      uintptr_t values. */
  datatype Info = Unavailable | Info(size: nat, freeSize: nat, minFreeSize: nat, largest: nat)

  /** usage_x1000: the used share in thousandths of a percent. */
  function Usage(total: nat, free: nat): nat {
    if total == 0 then 0
    else (Minus(total, free) * 100000 + total / 2) % TWO64 / total % TWO32
  }

  /** u is the share used/total in thousandths of a percent, rounded to the nearest. */
  predicate RoundedShare(u: int, used: int, total: int) {
    0 <= u <= 100000 && -total <= 2 * (u * total - used * 100000) <= total
  }

  /** When no more is free than there is, the usage lies between 0 and 100% and is the
      exact share rounded to the nearest thousandth of a percent. */
  lemma {:induction false} UsageRounds(total: nat, free: nat)
    requires 0 < total < TWO32 && free <= total
    ensures RoundedShare(Usage(total, free), total - free, total)
  {
    hide RoundedShare;
    hide Usage;
    var used := total - free;
    var x := used * 100000 + total / 2;
    Division(x, total);
    QuotientRounds(x / total, x % total, total, used);
    UsageIsQuotient(total, free);
  }

  /** Neither the 64-bit product nor the conversion to 32 bits loses anything. */
  lemma {:induction false} UsageIsQuotient(total: nat, free: nat)
    requires 0 < total < TWO32 && free <= total
    requires RoundedShare(((total - free) * 100000 + total / 2) / total, total - free, total)
    ensures Usage(total, free) == ((total - free) * 100000 + total / 2) / total
  {
    hide RoundedShare;
    var used := total - free;
    var x := used * 100000 + total / 2;
    QuotientSmall(x / total, used, total);
    assert Minus(total, free) == used;
    assert x % TWO64 == x;
  }

  lemma {:induction false} Division(x: nat, total: nat)
    requires total > 0
    ensures x / total * total + x % total == x && 0 <= x % total < total && 0 <= x / total
  {
  }

  lemma {:induction false} QuotientRounds(q: int, r: int, total: int, used: int)
    requires 0 <= r < total && 0 <= used <= total && 0 <= q && q * total + r == used * 100000 + total / 2
    ensures RoundedShare(q, used, total)
  {
    assert q > 100000 ==> q * total >= 100001 * total;
  }

  lemma {:induction false} QuotientSmall(q: int, used: int, total: int)
    requires RoundedShare(q, used, total)
    ensures 0 <= q < TWO32
  {
  }

  function SampleOf(elapsed: int, info: Info): Sample {
    match info
    case Unavailable => Sample(elapsed, 0, 0, 0, 0, 0, 0)
    case Info(size, freeSize, minFreeSize, largest) =>
      Sample(elapsed, size, Minus(size, freeSize), freeSize, minFreeSize, largest, Usage(size, freeSize))
  }

  /** What a stored sample says, field by field. */
  ghost predicate Records(s: Sample, elapsed: int, info: Info) {
    && s.elapsed == elapsed
    && (info.Unavailable? ==> s.total == s.used == s.free == s.minFree == s.largestFree == s.usage == 0)
    && (info.Info? ==>
          && s.total == info.size && s.free == info.freeSize
          && s.minFree == info.minFreeSize && s.largestFree == info.largest
          && s.used < TWO32 && (s.used + info.freeSize - info.size) % TWO32 == 0
          && (info.size < TWO32 && info.freeSize <= info.size ==>
                && s.used + s.free == s.total
                && (info.size == 0 ==> s.usage == 0)
                && (info.size > 0 ==> RoundedShare(s.usage, info.size - info.freeSize, info.size))))
  }

  lemma {:induction false} MinusModulo(a: nat, b: nat)
    ensures 0 <= Minus(a, b) < TWO32 && (Minus(a, b) + b - a) % TWO32 == 0
  {
    var q := (a - b) / TWO32;
    assert a - b == TWO32 * q + Minus(a, b);
    assert Minus(a, b) + b - a == TWO32 * -q;
  }

  lemma {:induction false} SampleRecords(elapsed: int, info: Info)
    ensures Records(SampleOf(elapsed, info), elapsed, info)
  {
    hide RoundedShare;
    if info.Info? {
      MinusModulo(info.size, info.freeSize);
    }
    if info.Info? && 0 < info.size < TWO32 && info.freeSize <= info.size {
      UsageRounds(info.size, info.freeSize);
    }
  }

  // ---------------------------------------------------------------------
  // The clock
  // ---------------------------------------------------------------------

  /** The ticks since boot, without wrapping, at each read of the clock. Read 0 is the
      base; the first read of the loop follows without a pause, every later one after a
      sleep of at least one tick. No two reads are so far apart that the wrapped
      difference could look small again. */
  ghost predicate ValidClock(ticks: nat -> nat) {
    && ticks(0) <= ticks(1) < ticks(0) + TWO32 - WINDOW_TICKS
    && forall k: nat :: k >= 1 ==> ticks(k) < ticks(k + 1) < ticks(k) + TWO32 - WINDOW_TICKS
  }

  function Wrap(x: nat): nat {
    x % TWO32
  }

  function Elapsed(ticks: nat -> nat, k: nat): int {
    ticks(k) - ticks(0)
  }

  /** The wrapped difference of two reads is the true one as long as that fits. */
  lemma {:induction false} WrappedDifference(a: nat, b: nat)
    requires b <= a < b + TWO32
    ensures Minus(Wrap(a), Wrap(b)) == a - b
  {
    var qa, qb, ra, rb := a / TWO32, b / TWO32, a % TWO32, b % TWO32;
    assert a == TWO32 * qa + ra && b == TWO32 * qb + rb;
    assert qa == qb || qa == qb + 1;
    assert ra - rb == (a - b) - TWO32 * (qa - qb);
  }

  /** next, which is base + 50*count wrapped, is not after now exactly when the wrapped
      difference is below 2^31. */
  lemma {:induction false} DueTest(now: nat, next: nat)
    requires now < next + TWO32 / 2 && next < now + TWO32 / 2
    ensures Minus(Wrap(now), Wrap(next)) < 0x8000_0000 <==> next <= now
  {
    hide Minus;
    if next <= now {
      WrappedDifference(now, next);
    } else {
      WrappedDifference(next, now);
      MinusFlips(Wrap(now), Wrap(next));
    }
  }

  lemma {:induction false} MinusFlips(a: nat, b: nat)
    requires a < TWO32 && b < TWO32 && a != b
    ensures Minus(a, b) == TWO32 - Minus(b, a)
  {
  }

  // ---------------------------------------------------------------------
  // The recorder
  // ---------------------------------------------------------------------

  /** Every read from lo up to hi comes too early for sample i. */
  ghost predicate TooEarly(ticks: nat -> nat, lo: nat, hi: nat, i: nat) {
    forall r :: lo <= r < hi ==> Elapsed(ticks, r) < PERIOD_TICKS * i
  }

  /** The first read at which sample i could be taken. */
  function From(taken: seq<nat>, i: nat): nat
    requires i <= |taken|
  {
    if i == 0 then 1 else taken[i - 1] + 1
  }

  /** The read at which sample i is taken, or k when it has not been. */
  function Until(taken: seq<nat>, k: nat, i: nat): nat
    requires i <= |taken|
  {
    if i < |taken| then taken[i] else k
  }

  /** The reads at which samples were taken, before read k: sample i is taken at the first
      read after sample i-1 that is at least 50*i ticks from the base. */
  ghost predicate Schedule(ticks: nat -> nat, taken: seq<nat>, k: nat) {
    && (forall i :: 0 <= i < |taken| ==> 1 <= taken[i] < k)
    && (forall i :: 0 <= i < |taken| ==> PERIOD_TICKS * i <= Elapsed(ticks, taken[i]) < WINDOW_TICKS)
    && (forall i, j :: 0 <= i < j < |taken| ==> taken[i] < taken[j])
    && (forall i :: 0 <= i <= |taken| ==> TooEarly(ticks, From(taken, i), Until(taken, k, i), i))
  }

  class Recorder {
    const samples: array<Sample>
    var count: nat

    ghost predicate Valid()
      reads this
    {
      samples.Length == MAX_SAMPLES && count <= MAX_SAMPLES
    }

    constructor ()
      ensures Valid() && count == 0 && fresh(samples)
    {
      samples := new Sample[MAX_SAMPLES](_ => Sample(0, 0, 0, 0, 0, 0, 0));
      count := 0;
    }

    /** take_one_sample */
    method TakeOneSample(elapsed: int, info: Info)
      requires Valid()
      modifies this, samples
      ensures Valid()
      ensures old(count) < MAX_SAMPLES ==>
                && count == old(count) + 1
                && samples[..count] == old(samples[..count]) + [SampleOf(elapsed, info)]
                && Records(samples[count - 1], elapsed, info)
      ensures old(count) >= MAX_SAMPLES ==> count == old(count) && samples[..] == old(samples[..])
    {
      hide Records;
      if count >= MAX_SAMPLES {
        return;
      }
      SampleRecords(elapsed, info);
      if info == Unavailable {
        samples[count] := Sample(elapsed, 0, 0, 0, 0, 0, 0);
        count := count + 1;
        return;
      }
      var total := info.size;
      var free := info.freeSize;
      var used := Minus(total, free);
      var usage := 0;
      if total != 0 {
        usage := (used * 100000 + total / 2) % TWO64 / total % TWO32;
      }
      samples[count] := Sample(elapsed, total, used, free, info.minFreeSize, info.largest, usage);
      count := count + 1;
    }

    /** record_workspace_for_4000ticks_then_print, without the printing. The samples are
        taken on schedule, there are never more than 80 of them, so the buffer guard
        never fires, and the loop ends with the first read past the window. */
    method Record(ticks: nat -> nat, infos: nat -> Info) returns (ghost taken: seq<nat>, ghost end: nat)
      requires Valid() && ValidClock(ticks)
      modifies this, samples
      ensures Valid() && count == |taken| <= 80
      ensures Schedule(ticks, taken, end) && end >= 1
      ensures ticks(end) - ticks(0) >= 4000
      ensures forall k :: 1 <= k < end ==> ticks(k) - ticks(0) < 4000
      ensures forall i :: 0 <= i < count ==> 50 * i <= ticks(taken[i]) - ticks(0) < 4000
      ensures forall i :: 0 <= i < count ==> Records(samples[i], ticks(taken[i]) - ticks(0), infos(taken[i]))
    {
      hide Schedule;
      hide SampleOf;
      hide Records;
      hide Minus;
      hide Wrap;
      hide ValidClock;
      count := 0;
      var base := Wrap(ticks(0));
      var next := base;
      taken := [];
      var k: nat := 0;
      ScheduleStarts(ticks);
      while true
        invariant Valid() && count == |taken| <= WINDOW_TICKS / PERIOD_TICKS
        invariant k >= 1 ==> k - 1 <= Elapsed(ticks, k) < WINDOW_TICKS
        invariant Schedule(ticks, taken, k + 1)
        invariant next == Wrap(ticks(0) + PERIOD_TICKS * count)
        invariant forall t :: 1 <= t <= k ==> ticks(t) - ticks(0) < WINDOW_TICKS
        invariant forall i :: 0 <= i < count ==> Records(samples[i], Elapsed(ticks, taken[i]), infos(taken[i]))
        decreases WINDOW_TICKS + 1 - k
      {
        k := k + 1;
        var now := Wrap(ticks(k));
        var elapsed := Minus(now, base);
        ClockStep(ticks, k);
        if elapsed >= WINDOW_TICKS {
          end := k;
          ScheduleTimes(ticks, taken, k);
          return;
        }
        ScheduleBound(ticks, taken, k);
        DueTest(ticks(k), ticks(0) + PERIOD_TICKS * count);
        if Minus(now, next) < 0x8000_0000 {
          ScheduleTake(ticks, taken, k);
          TakeOneSample(elapsed, infos(k));
          taken := taken + [k];
          NextWraps(ticks(0) + PERIOD_TICKS * (count - 1));
          next := Wrap(next + PERIOD_TICKS);
        } else {
          ScheduleWait(ticks, taken, k);
        }
      }
    }
  }

  lemma {:induction false} NextWraps(x: nat)
    ensures Wrap(Wrap(x) + PERIOD_TICKS) == Wrap(x + PERIOD_TICKS)
  {
  }

  lemma {:induction false} ScheduleStarts(ticks: nat -> nat)
    ensures Schedule(ticks, [], 1)
  {
    assert TooEarly(ticks, 1, 1, 0);
  }

  lemma {:induction false} ScheduleTimes(ticks: nat -> nat, taken: seq<nat>, k: nat)
    requires Schedule(ticks, taken, k)
    ensures forall i :: 0 <= i < |taken| ==> 50 * i <= ticks(taken[i]) - ticks(0) < 4000
  {
    forall i | 0 <= i < |taken|
      ensures 50 * i <= ticks(taken[i]) - ticks(0) < 4000
    {
      assert PERIOD_TICKS * i <= Elapsed(ticks, taken[i]) < WINDOW_TICKS;
    }
  }

  /** The next read: its wrapped distance from the base is the true one. */
  lemma {:induction false} ClockStep(ticks: nat -> nat, k: nat)
    requires ValidClock(ticks) && k >= 1
    requires k >= 2 ==> k - 2 <= Elapsed(ticks, k - 1) < WINDOW_TICKS
    ensures Elapsed(ticks, k) >= k - 1
    ensures Minus(Wrap(ticks(k)), Wrap(ticks(0))) == Elapsed(ticks, k)
  {
    if k >= 2 {
      assert ticks(k - 1) < ticks(k - 1 + 1) < ticks(k - 1) + TWO32 - WINDOW_TICKS;
    }
    WrappedDifference(ticks(k), ticks(0));
  }

  /** The next due time is never far from now. */
  lemma {:induction false} ScheduleBound(ticks: nat -> nat, taken: seq<nat>, k: nat)
    requires Schedule(ticks, taken, k)
    requires 0 <= Elapsed(ticks, k) < WINDOW_TICKS
    ensures PERIOD_TICKS * |taken| < WINDOW_TICKS + PERIOD_TICKS
  {
    if |taken| > 0 {
      assert PERIOD_TICKS * (|taken| - 1) <= Elapsed(ticks, taken[|taken| - 1]);
    }
  }

  lemma {:induction false} ScheduleTake(ticks: nat -> nat, taken: seq<nat>, k: nat)
    requires Schedule(ticks, taken, k) && k >= 1
    requires PERIOD_TICKS * |taken| <= Elapsed(ticks, k) < WINDOW_TICKS
    ensures Schedule(ticks, taken + [k], k + 1)
    ensures |taken| < WINDOW_TICKS / PERIOD_TICKS
  {
    hide TooEarly;
    var now, next := taken + [k], k + 1;
    forall i | 0 <= i <= |now|
      ensures TooEarly(ticks, From(now, i), Until(now, next, i), i)
    {
      if i <= |taken| {
        assert TooEarly(ticks, From(taken, i), Until(taken, k, i), i);
        assert From(now, i) == From(taken, i) && Until(now, next, i) == Until(taken, k, i);
      } else {
        NothingEarly(ticks, next, i);
      }
    }
  }

  lemma {:induction false} NothingEarly(ticks: nat -> nat, k: nat, i: nat)
    ensures TooEarly(ticks, k, k, i)
  {
  }

  lemma {:induction false} ScheduleWait(ticks: nat -> nat, taken: seq<nat>, k: nat)
    requires Schedule(ticks, taken, k) && k >= 1
    requires Elapsed(ticks, k) < PERIOD_TICKS * |taken|
    ensures Schedule(ticks, taken, k + 1)
  {
    var next := k + 1;
    forall i | 0 <= i <= |taken|
      ensures TooEarly(ticks, From(taken, i), Until(taken, next, i), i)
    {
      assert TooEarly(ticks, From(taken, i), Until(taken, k, i), i);
    }
  }

  /** Elapsed times never go down from one sample to the next. */
  lemma {:induction false} ElapsedAscends(ticks: nat -> nat, taken: seq<nat>, k: nat, i: nat, j: nat)
    requires ValidClock(ticks) && Schedule(ticks, taken, k) && i < j < |taken|
    ensures Elapsed(ticks, taken[i]) < Elapsed(ticks, taken[j])
  {
    TicksAscend(ticks, taken[i], taken[j]);
  }

  lemma {:induction false} TicksAscend(ticks: nat -> nat, a: nat, b: nat)
    requires ValidClock(ticks) && 1 <= a < b
    ensures ticks(a) < ticks(b)
    decreases b
  {
    assert ticks(b - 1) < ticks(b - 1 + 1);
    if a < b - 1 {
      TicksAscend(ticks, a, b - 1);
    }
  }

  /** A clock that is read every tick gives exactly the 80 samples at 0, 50, ..., 3950. */
  lemma {:induction false} SteadyClock(ticks: nat -> nat, taken: seq<nat>, end: nat)
    requires Schedule(ticks, taken, end) && end >= 1 && Elapsed(ticks, end) >= WINDOW_TICKS
    requires forall k: nat :: k >= 1 ==> Elapsed(ticks, k) == k - 1
    ensures |taken| == 80
    ensures forall i :: 0 <= i < |taken| ==> Elapsed(ticks, taken[i]) == 50 * i
  {
    SteadySamples(ticks, taken, end, |taken|);
    if |taken| > 0 {
      assert Elapsed(ticks, taken[|taken| - 1]) == PERIOD_TICKS * (|taken| - 1) < WINDOW_TICKS;
    }
    var r := PERIOD_TICKS * |taken| + 1;
    assert TooEarly(ticks, From(taken, |taken|), Until(taken, end, |taken|), |taken|);
    assert Elapsed(ticks, r) == PERIOD_TICKS * |taken|;
    assert end - 1 >= WINDOW_TICKS;
  }

  lemma {:induction false} SteadySamples(ticks: nat -> nat, taken: seq<nat>, end: nat, n: nat)
    requires Schedule(ticks, taken, end) && n <= |taken|
    requires forall k: nat :: k >= 1 ==> Elapsed(ticks, k) == k - 1
    ensures forall i :: 0 <= i < n ==> Elapsed(ticks, taken[i]) == PERIOD_TICKS * i
  {
    if n > 0 {
      SteadySamples(ticks, taken, end, n - 1);
      var i, r := n - 1, PERIOD_TICKS * (n - 1) + 1;
      assert i > 0 ==> Elapsed(ticks, taken[i - 1]) == PERIOD_TICKS * (i - 1);
      assert TooEarly(ticks, From(taken, i), Until(taken, end, i), i);
      assert Elapsed(ticks, r) == PERIOD_TICKS * i;
      assert taken[i] <= r;
    }
  }
}
