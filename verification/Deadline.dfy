/** Deadlines of my_global.h and the waits thr_cond.h makes of them, in both representations of a deadline.
    Clock readings are parameters, in ticks of 100 ns. Signed arithmetic wraps, as the compiler makes it. */
module Deadline {
  import opened Bits

  const INT_MAX32 := 0x7FFF_FFFF
  const UINT_MAX := 0xFFFF_FFFF
  const INFINITE := 0xFFFF_FFFF

  function Min(a: int, b: int): int { if a <= b then a else b }
  function Max(a: int, b: int): int { if a >= b then a else b }

  // C division of integers rounds towards zero.
  function TruncDiv(a: int, b: int): int
    requires b > 0
  {
    if a >= 0 then a / b else -((-a) / b)
  }

  type Clock = x: int | 0 <= x < 0x8000_0000_0000_0000

  // ---------- deadlines as file times ----------

  // struct timespec where the platform has none.
  class FileTimespec {
    var tv: int64
    var maxTimeoutMsec: int32

    constructor () { tv, maxTimeoutMsec := 0, 0; }
  }

  function FileDeadline(clock: int64, nsec: uint64): int64 { S64(clock + nsec / 100) }

  predicate Overflows(clock: Clock, nsec: uint64) { clock + nsec / 100 >= 0x8000_0000_0000_0000 }

  // The longest wait, in milliseconds, that a deadline may ever cause.
  function WaitBound(nsec: uint64): (r: int32)
    ensures 0 <= r
  {
    Min(nsec / 1000000, INT_MAX32)
  }

  method SetTimespecNsec(abstime: FileTimespec, nsec: uint64, clock: int64)
    modifies abstime
    ensures abstime.tv == FileDeadline(clock, nsec) && abstime.maxTimeoutMsec == WaitBound(nsec)
  {
    var maxTimeoutMsec: int := nsec / 1000000;
    abstime.tv := S64(clock + S64(nsec / 100));
    maxTimeoutMsec := Min(maxTimeoutMsec, INT_MAX32);
    abstime.maxTimeoutMsec := S32(maxTimeoutMsec);
  }

  function SecondsToNsec(sec: uint64): (r: uint64) { U64(sec * 1000000000) }

  method SetTimespec(abstime: FileTimespec, sec: uint64, clock: int64)
    modifies abstime
    ensures abstime.tv == FileDeadline(clock, SecondsToNsec(sec))
    ensures abstime.maxTimeoutMsec == WaitBound(SecondsToNsec(sec))
  {
    SetTimespecNsec(abstime, SecondsToNsec(sec), clock);
  }

  // The wait for a deadline with a given bound, at a given clock reading.
  function FileWait(tv: int64, bound: int32, clock: int64): int {
    Min(Max(S64(tv - clock), 0) / 10000, bound)
  }

  method GetMilliseconds(abstime: FileTimespec?, clock: int64) returns (r: uint32)
    ensures abstime == null ==> r == INFINITE
    ensures abstime != null && abstime.maxTimeoutMsec >= 0 ==>
              r == FileWait(abstime.tv, abstime.maxTimeoutMsec, clock)
    ensures abstime != null && abstime.maxTimeoutMsec < 0 ==>
              r == if S64(abstime.tv - clock) <= -10000 then 0 else U32(abstime.maxTimeoutMsec)
  {
    if abstime == null {
      return INFINITE;
    }
    var millis := TruncDiv(S64(abstime.tv - clock), 10000);
    if millis < 0 {
      return 0;
    }
    if millis > abstime.maxTimeoutMsec {
      millis := abstime.maxTimeoutMsec;
    }
    assert millis <= UINT_MAX;
    if millis > UINT_MAX {
      millis := UINT_MAX;
    }
    return U32(millis);
  }

  /** No wait is longer than the timeout in whole milliseconds, up to 2147483647. */
  lemma WaitBoundExact(nsec: uint64)
    ensures WaitBound(nsec) <= 2147483647 && 1000000 * WaitBound(nsec) <= nsec
    ensures nsec < 2147483648000000 ==> nsec < 1000000 * (WaitBound(nsec) + 1)
    ensures nsec >= 2147483648000000 ==> WaitBound(nsec) == 2147483647
  {
  }

  /** A deadline built at one clock reading and waited for at any other: the wait is never negative, never
      above the original timeout in milliseconds nor 2147483647 of them (so never the infinite one), and the
      whole of that bound if the clock stood still. It is the time really left up to the bound, unless the clock
      has gone back so far that the ticks left overflow; then there is no wait, wrongly so for any timeout of a
      millisecond. */
  lemma FileWaitExact(nsec: uint64, built: Clock, used: Clock)
    ensures var w := FileWait(FileDeadline(built, nsec), WaitBound(nsec), used);
            var left := built + nsec / 100 - used;
            var bound := Min(nsec / 1000000, 2147483647);
            && 0 <= w <= bound < INFINITE
            && (used == built ==> w == bound)
            && (left < 0x8000_0000_0000_0000 ==> w == Min(Max(left, 0) / 10000, bound))
            && (left >= 0x8000_0000_0000_0000 ==> w == 0)
            && (w == Min(Max(left, 0) / 10000, bound) <==> left < 0x8000_0000_0000_0000 || nsec < 1000000)
  {
    var ticks := nsec / 100;
    var left := built + ticks - used;
    TicksLeft(built, ticks, used);
    assert ticks / 10000 == nsec / 1000000;
    if left >= 0x8000_0000_0000_0000 {
      assert left / 10000 > INT_MAX32;
    }
  }

  // Wrapping the sum and then the difference wraps the whole expression once.
  lemma TicksLeft(built: Clock, ticks: nat, used: Clock)
    requires ticks < 0x4000_0000_0000_0000
    ensures var left := built + ticks - used;
            S64(S64(built + ticks) - used) ==
            if left < 0x8000_0000_0000_0000 then left else left - 0x1_0000_0000_0000_0000
  {
  }

  ghost predicate NeverGrows(nsec: uint64, built: Clock) {
    forall earlier: Clock, later: Clock :: earlier <= later ==>
      FileWait(FileDeadline(built, nsec), WaitBound(nsec), later)
      <= FileWait(FileDeadline(built, nsec), WaitBound(nsec), earlier)
  }

  /** The wait never grows while the clock advances, whatever it reads, exactly when the deadline itself does
      not overflow, or the timeout is below a millisecond. */
  lemma NeverGrowsExactly(nsec: uint64, built: Clock)
    ensures NeverGrows(nsec, built) <==> !Overflows(built, nsec) || nsec < 1000000
  {
    if !Overflows(built, nsec) || nsec < 1000000 {
      forall earlier: Clock, later: Clock | earlier <= later
        ensures FileWait(FileDeadline(built, nsec), WaitBound(nsec), later)
             <= FileWait(FileDeadline(built, nsec), WaitBound(nsec), earlier)
      {
        FileWaitExact(nsec, built, earlier);
        FileWaitExact(nsec, built, later);
      }
    } else {
      var start: Clock := 0;
      FileWaitExact(nsec, built, start);
      FileWaitExact(nsec, built, built);
      TicksLeft(built, nsec / 100, start);
      assert FileWait(FileDeadline(built, nsec), WaitBound(nsec), start) == 0;
    }
  }

  // A reading the system clock can give, late in the year 30827, and the longest timeout.
  const LATE: Clock := 0x7FFF_0000_0000_0000
  const LONGEST: uint64 := 0xFFFF_FFFF_FFFF_FFFF
  // A reading in January 2024.
  const CORRECTED: Clock := 133500000000000000

  /** A clock that stood that late when the deadline was built and is then corrected: millennia are left, but
      the code does not wait at all, while it waits for its whole bound once the clock is late again. */
  lemma CorrectedClockExample()
    ensures LATE + LONGEST / 100 - CORRECTED >= 0x8000_0000_0000_0000
    ensures FileWait(FileDeadline(LATE, LONGEST), WaitBound(LONGEST), CORRECTED) == 0
    ensures FileWait(FileDeadline(LATE, LONGEST), WaitBound(LONGEST), LATE) == 2147483647
    ensures !NeverGrows(LONGEST, LATE)
  {
    TicksLeft(LATE, LONGEST / 100, CORRECTED);
    FileWaitExact(LONGEST, LATE, LATE);
    NeverGrowsExactly(LONGEST, LATE);
  }

  /** For clocks up to 9038904596117680291 ticks, past the year 30200, no timeout overflows: the wait is always
      the time really left, up to the bound, and never grows. */
  lemma UsualClocksAreSafe(nsec: uint64, built: Clock, used: Clock)
    requires built <= 9038904596117680291
    ensures FileWait(FileDeadline(built, nsec), WaitBound(nsec), used)
            == Min(Max(built + nsec / 100 - used, 0) / 10000, Min(nsec / 1000000, 2147483647))
    ensures NeverGrows(nsec, built)
  {
    FileWaitExact(nsec, built, used);
    NeverGrowsExactly(nsec, built);
  }

  /** A timeout in seconds becomes that many ticks exactly up to 18446744073 seconds; beyond, the product of
      seconds and nanoseconds overflows and the deadline is too early. */
  lemma SecondsExactly(sec: uint64)
    ensures SecondsToNsec(sec) / 100 == sec * 10000000 <==> sec <= 18446744073
    ensures sec > 18446744073 ==> SecondsToNsec(sec) / 100 < sec * 10000000
    ensures SecondsToNsec(sec) == sec * 1000000000 % 0x1_0000_0000_0000_0000
  {
    WrapIsMod(sec * 1000000000, 0x1_0000_0000_0000_0000);
  }

  /** One second beyond that limit the deadline is less than a third of a second away. */
  lemma SecondsOverflowExample()
    ensures SecondsToNsec(18446744074) == 290448384
    ensures WaitBound(SecondsToNsec(18446744074)) == 290
  {
  }

  // ---------- deadlines as seconds and nanoseconds ----------

  // The value of a struct timespec with an eight-byte time_t and a four-byte long.
  datatype Timespec = Timespec(sec: int64, nsec: int32) {
    predicate Normalised() { 0 <= nsec < 1000000000 }
    function Total(): int { sec * 1000000000 + nsec }
  }

  class TimespecCell {
    var value: Timespec

    constructor () { value := Timespec(0, 0); }
  }

  function TimespecDeadline(sys: uint64, nsec: uint64): (r: Timespec)
    ensures r.Normalised()
    ensures r.Total() == 100 * U64(sys + nsec / 100) + nsec % 100
  {
    var now := U64(sys + nsec / 100);
    Timespec(now / 10000000, now % 10000000 * 100 + nsec % 100)
  }

  method StoreTimespecNsec(abstime: TimespecCell, nsec: uint64, sys: uint64)
    modifies abstime
    ensures abstime.value == TimespecDeadline(sys, nsec)
  {
    var now := U64(sys + nsec / 100);
    var tvSec := now / 10000000;
    abstime.value := abstime.value.(sec := S64(tvSec));
    abstime.value := abstime.value.(nsec := S32(now % 10000000 * 100 + nsec % 100));
  }

  /** The stored deadline is the requested instant to the nanosecond exactly when the tick count does not
      overflow, and 2^64 ticks too early when it does; no clock reading below 2^63 makes it overflow. */
  lemma TimespecExactly(sys: uint64, nsec: uint64)
    ensures TimespecDeadline(sys, nsec).Total() == 100 * sys + nsec <==> sys + nsec / 100 < 0x1_0000_0000_0000_0000
    ensures sys + nsec / 100 >= 0x1_0000_0000_0000_0000 ==>
              TimespecDeadline(sys, nsec).Total() == 100 * sys + nsec - 100 * 0x1_0000_0000_0000_0000
    ensures sys < 0x8000_0000_0000_0000 ==> TimespecDeadline(sys, nsec).Total() == 100 * sys + nsec
  {
  }

  method GetMillisecondsTimespec(abstime: TimespecCell, sys: uint64) returns (r: uint32)
    ensures r == TimespecWait(abstime.value, sys)
  {
    var tv := abstime.value;
    var future := U64(S64(S64(tv.sec * 1000) + TruncDiv(tv.nsec, 1000000)));
    var now := sys / 10000;
    if future < now {
      return 0;
    }
    return U32(future - now);
  }

  function TimespecWait(tv: Timespec, sys: uint64): (r: uint32) {
    U32(Max(U64(S64(S64(tv.sec * 1000) + TruncDiv(tv.nsec, 1000000))) - sys / 10000, 0))
  }

  // Milliseconds between two instants, each rounded down to a millisecond.
  function MillisLeft(sys: uint64, nsec: uint64, used: uint64): int {
    (100 * sys + nsec) / 1000000 - used / 10000
  }

  // The same up to the deadline that was stored.
  function MillisToDeadline(sys: uint64, nsec: uint64, used: uint64): int {
    TimespecDeadline(sys, nsec).Total() / 1000000 - used / 10000
  }

  lemma WaitToDeadline(sys: uint64, nsec: uint64, used: uint64)
    ensures TimespecWait(TimespecDeadline(sys, nsec), used)
            == Max(MillisToDeadline(sys, nsec, used), 0) % 0x1_0000_0000
  {
    WholeMillis(TimespecDeadline(sys, nsec));
    WrapIsMod(Max(MillisToDeadline(sys, nsec, used), 0), 0x1_0000_0000);
  }

  lemma TimespecWaitValue(sys: uint64, nsec: uint64, used: uint64)
    requires sys + nsec / 100 < 0x1_0000_0000_0000_0000
    ensures TimespecWait(TimespecDeadline(sys, nsec), used)
            == Max(MillisLeft(sys, nsec, used), 0) % 0x1_0000_0000
  {
    WaitToDeadline(sys, nsec, used);
    TimespecExactly(sys, nsec);
  }

  /** At any later or earlier clock reading the wait is the milliseconds left, cut to 32 bits; so it is the
      time really left exactly when that is below 2^32 ms, and waits forever exactly when it is congruent to
      2^32 - 1. */
  lemma TimespecWaitExact(sys: uint64, nsec: uint64, used: uint64)
    requires sys + nsec / 100 < 0x1_0000_0000_0000_0000
    ensures var w := TimespecWait(TimespecDeadline(sys, nsec), used);
            var left := Max(MillisLeft(sys, nsec, used), 0);
            && (w == left <==> left < 0x1_0000_0000)
            && (w == INFINITE <==> left % 0x1_0000_0000 == UINT_MAX)
  {
    TimespecWaitValue(sys, nsec, used);
  }

  lemma WholeMillis(tv: Timespec)
    requires tv.Normalised() && 0 <= tv.sec < 0x200_0000_0000
    ensures tv.sec * 1000 + tv.nsec / 1000000 == tv.Total() / 1000000
    ensures U64(S64(S64(tv.sec * 1000) + TruncDiv(tv.nsec, 1000000))) == tv.Total() / 1000000
  {
  }

  // A timeout in whole milliseconds, one more when the fractions of a millisecond of the clock and of the
  // timeout add up to one.
  function TimeoutMillis(sys: uint64, nsec: uint64): nat {
    nsec / 1000000 + (if 100 * sys % 1000000 + nsec % 1000000 >= 1000000 then 1 else 0)
  }

  lemma MillisLeftSameClock(sys: uint64, nsec: uint64)
    ensures MillisLeft(sys, nsec, sys) == TimeoutMillis(sys, nsec)
  {
  }

  /** At the clock reading it was built at, a deadline is waited for its timeout, rounded to milliseconds so,
      exactly when that is below 2^32 ms. */
  lemma TimespecSameClock(sys: uint64, nsec: uint64)
    requires sys + nsec / 100 < 0x1_0000_0000_0000_0000
    ensures var w, timeout := TimespecWait(TimespecDeadline(sys, nsec), sys), TimeoutMillis(sys, nsec);
            && (w == timeout <==> timeout < 0x1_0000_0000)
            && (w == INFINITE <==> timeout % 0x1_0000_0000 == UINT_MAX)
  {
    MillisLeftSameClock(sys, nsec);
    TimespecWaitExact(sys, nsec, sys);
  }

  /** At every clock reading, a finite timeout of seven weeks that this form waits for without end. */
  lemma FiniteTimeoutWaitsForever(sys: Clock)
    ensures TimespecWait(TimespecDeadline(sys, 4294967295000000), sys) == INFINITE
  {
    TimespecSameClock(sys, 4294967295000000);
  }

  /** And one a millisecond longer that it does not wait for at all. */
  lemma LongTimeoutDoesNotWait(sys: Clock)
    ensures TimespecWait(TimespecDeadline(sys, 4294967296000000), sys) == 0
  {
    MillisLeftSameClock(sys, 4294967296000000);
    TimespecWaitValue(sys, 4294967296000000, sys);
  }

  ghost predicate WaitNeverGrowsFrom(sys: uint64, nsec: uint64, from: uint64) {
    forall earlier: uint64, later: uint64 :: from <= earlier <= later ==>
      TimespecWait(TimespecDeadline(sys, nsec), later) <= TimespecWait(TimespecDeadline(sys, nsec), earlier)
  }

  /** From any clock reading on, the wait never grows while the clock advances exactly when fewer than 2^32 ms
      are left at that reading. */
  lemma WaitNeverGrowsExactly(sys: uint64, nsec: uint64, from: uint64)
    ensures WaitNeverGrowsFrom(sys, nsec, from) <==> MillisToDeadline(sys, nsec, from) < 0x1_0000_0000
  {
    if MillisToDeadline(sys, nsec, from) < 0x1_0000_0000 {
      forall earlier: uint64, later: uint64 | from <= earlier <= later
        ensures TimespecWait(TimespecDeadline(sys, nsec), later) <= TimespecWait(TimespecDeadline(sys, nsec), earlier)
      {
        ShortWaitShrinks(sys, nsec, earlier, later);
      }
    } else {
      var earlier, later := WaitThatGrows(sys, nsec, from);
    }
  }

  lemma ShortWaitShrinks(sys: uint64, nsec: uint64, earlier: uint64, later: uint64)
    requires earlier <= later && MillisToDeadline(sys, nsec, earlier) < 0x1_0000_0000
    ensures TimespecWait(TimespecDeadline(sys, nsec), later) <= TimespecWait(TimespecDeadline(sys, nsec), earlier)
  {
    WaitToDeadline(sys, nsec, earlier);
    WaitToDeadline(sys, nsec, later);
  }

  // The readings around the instant at which 2^32 ms are left.
  lemma WaitThatGrows(sys: uint64, nsec: uint64, from: uint64) returns (earlier: uint64, later: uint64)
    requires MillisToDeadline(sys, nsec, from) >= 0x1_0000_0000
    ensures from <= earlier <= later
    ensures TimespecWait(TimespecDeadline(sys, nsec), earlier) == 0
    ensures TimespecWait(TimespecDeadline(sys, nsec), later) == INFINITE
  {
    var deadline := TimespecDeadline(sys, nsec).Total() / 1000000;
    assert 10000 * deadline < 0x1_0000_0000_0000_0000;
    earlier, later := ReadingsAround(deadline, from);
    WaitToDeadline(sys, nsec, earlier);
    WaitToDeadline(sys, nsec, later);
  }

  lemma ReadingsAround(deadline: nat, from: uint64) returns (earlier: uint64, later: uint64)
    requires deadline - from / 10000 >= 0x1_0000_0000 && 10000 * deadline < 0x1_0000_0000_0000_0000
    ensures from <= earlier <= later
    ensures deadline - earlier / 10000 == 0x1_0000_0000 && deadline - later / 10000 == UINT_MAX
  {
    var full := deadline - 0x1_0000_0000;
    earlier, later := Max(from, 10000 * full), 10000 * (full + 1);
  }

  /** From the building reading on, exactly when the timeout is that short. */
  lemma WaitNeverGrowsOnceBuilt(sys: uint64, nsec: uint64)
    requires sys + nsec / 100 < 0x1_0000_0000_0000_0000
    ensures WaitNeverGrowsFrom(sys, nsec, sys) <==> TimeoutMillis(sys, nsec) < 0x1_0000_0000
  {
    WaitNeverGrowsExactly(sys, nsec, sys);
    MillisLeftSameClock(sys, nsec);
    TimespecExactly(sys, nsec);
  }

  /** The timeout that is not waited for at all is waited for without end a millisecond later. */
  lemma WaitGrowsExample(sys: Clock)
    ensures TimespecWait(TimespecDeadline(sys, 4294967296000000), sys + 10000) == INFINITE
    ensures !WaitNeverGrowsFrom(sys, 4294967296000000, sys)
  {
    TimespecWaitValue(sys, 4294967296000000, sys + 10000);
    LongTimeoutDoesNotWait(sys);
  }

  // ---------- comparing deadlines ----------

  function Sign(d: int): int { if d > 0 then 1 else if d < 0 then -1 else 0 }

  function CmpTimespec(a: Timespec, b: Timespec): (r: int)
    ensures a.Normalised() && b.Normalised() ==> r == Sign(a.Total() - b.Total())
  {
    if a.sec > b.sec || (a.sec == b.sec && a.nsec > b.nsec) then 1
    else if a.sec < b.sec || (a.sec == b.sec && a.nsec < b.nsec) then -1
    else 0
  }

  function CmpFileTime(a: int64, b: int64): int {
    if a > b then 1 else if a < b then -1 else 0
  }

  /** The comparison is a total order whose equality is that of the structures, normalised or not. */
  lemma CmpIsTotalOrder(a: Timespec, b: Timespec, c: Timespec)
    ensures CmpTimespec(a, b) == 0 <==> a == b
    ensures CmpTimespec(a, b) == -CmpTimespec(b, a)
    ensures CmpTimespec(a, b) <= 0 && CmpTimespec(b, c) <= 0 ==> CmpTimespec(a, c) <= 0
  {
  }

  /** Two deadlines built from one clock reading are equal as file times exactly when their timeouts fall in the
      same tick; otherwise they compare as the exact ones do, exactly when both or neither overflow the signed
      range. If only one does, the answer is the wrong way round. */
  lemma FileTimeCoarsens(clock: Clock, n1: uint64, n2: uint64)
    ensures var f := CmpFileTime(FileDeadline(clock, n1), FileDeadline(clock, n2));
            var exact := CmpTimespec(TimespecDeadline(clock, n1), TimespecDeadline(clock, n2));
            && (f == 0 <==> n1 / 100 == n2 / 100)
            && ((f != 0 ==> f == exact) <==> Overflows(clock, n1) == Overflows(clock, n2))
            && (Overflows(clock, n1) != Overflows(clock, n2) ==> f == -exact != 0)
  {
    ExactOrder(clock, n1, n2);
  }

  lemma ExactOrder(clock: Clock, n1: uint64, n2: uint64)
    ensures CmpTimespec(TimespecDeadline(clock, n1), TimespecDeadline(clock, n2)) == Sign(n1 - n2)
  {
    TimespecExactly(clock, n1);
    TimespecExactly(clock, n2);
  }

  /** At the late clock reading the longest timeout compares as ending before one that ends at once. */
  lemma FileTimeOrderExample()
    ensures CmpFileTime(FileDeadline(LATE, LONGEST), FileDeadline(LATE, 0)) == -1
    ensures CmpTimespec(TimespecDeadline(LATE, LONGEST), TimespecDeadline(LATE, 0)) == 1
  {
    FileTimeCoarsens(LATE, LONGEST, 0);
    ExactOrder(LATE, LONGEST, 0);
  }

  function DiffTimespec(a: Timespec, b: Timespec): uint64 {
    U64(U64(U64(U64(S64(a.sec - b.sec)) * 1000000000) + U64(a.nsec)) - U64(b.nsec))
  }

  function DiffFileTime(a: int64, b: int64): uint64 {
    U64(S64(S64(a - b) * 100))
  }

  lemma WrapCongruent(x: int, y: int, q: int, m: int)
    requires m > 0 && x == y + q * m
    ensures Wrap(x, m) == Wrap(y, m)
  {
    WrapIsMod(x, m);
    WrapIsMod(y, m);
    ModPlusMultiple(y, q, m);
  }

  lemma ModPlusMultiple(y: int, q: int, m: int)
    requires m > 0
    ensures (y + q * m) % m == y % m
  {
    var k, r := y / m, y % m;
    assert y + q * m == (k + q) * m + r by { assert (k + q) * m == k * m + q * m; }
    DivModUnique(y + q * m, m, k + q, r);
  }

  lemma WrapQuotient(x: int, m: int) returns (q: int)
    requires m > 0
    ensures x == Wrap(x, m) + q * m
  {
    WrapIsMod(x, m);
    q := x / m;
  }

  /** diff_timespec is the exact difference in nanoseconds modulo 2^64, normalised or not. */
  lemma DiffIsExactModulo(a: Timespec, b: Timespec)
    ensures DiffTimespec(a, b) == U64(a.Total() - b.Total())
  {
    var m := 0x1_0000_0000_0000_0000;
    var q0 := WrapQuotient(a.sec - b.sec + 0x8000_0000_0000_0000, m);
    var q1 := WrapQuotient(S64(a.sec - b.sec), m);
    var d := U64(S64(a.sec - b.sec));
    assert d == a.sec - b.sec - (q0 + q1) * m;
    var q2 := WrapQuotient(d * 1000000000, m);
    var q3 := WrapQuotient(a.nsec, m);
    var q4 := WrapQuotient(U64(d * 1000000000) + U64(a.nsec), m);
    var q5 := WrapQuotient(b.nsec, m);
    WrapCongruent(U64(U64(d * 1000000000) + U64(a.nsec)) - U64(b.nsec), a.Total() - b.Total(),
                  q5 - (q0 + q1) * 1000000000 - q2 - q3 - q4, m);
  }

  /** For deadlines built from one clock reading, whether or not they overflow, the file-time difference is,
      modulo 2^64, the exact one with both timeouts rounded down to ticks, so less than 100 ns off. */
  lemma FileTimeDiff(clock: Clock, n1: uint64, n2: uint64)
    ensures DiffFileTime(FileDeadline(clock, n1), FileDeadline(clock, n2)) == U64((n1 / 100 - n2 / 100) * 100)
    ensures -100 < (n1 / 100 - n2 / 100) * 100 - (n1 - n2) < 100
  {
    var t := n1 / 100 - n2 / 100;
    assert S64(FileDeadline(clock, n1) - FileDeadline(clock, n2)) == t;
    var q := WrapQuotient(t * 100 + 0x8000_0000_0000_0000, 0x1_0000_0000_0000_0000);
    WrapCongruent(S64(t * 100), t * 100, -q, 0x1_0000_0000_0000_0000);
  }
}
