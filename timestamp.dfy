/**
 * The timestamping wrapper `Wrapped<RawDataType>` and the counter that
 * issues its stamps.
 *
 * A stamp is a C++ `short`: 16 bits, two's complement. The counter is
 * pre-incremented, and an increment past 32767 wraps to -32768 (the
 * conversion back to `short` is modular), so the wrap is written out here.
 */
module TimeStamp {

  /** The 16-bit signed range of a C++ `short`. */
  newtype Short = x: int | -0x8000 <= x < 0x8000

  /** Truncating conversion of an integer to `short`: keep it modulo 2^16,
      taking the representative in the signed range. */
  function ToShort(x: int): (r: Short)
    ensures -0x8000 <= x < 0x8000 ==> r as int == x
    ensures (x - r as int) % 0x10000 == 0
  {
    ((x + 0x8000) % 0x10000 - 0x8000) as Short
  }

  /** The value `++clock_time` produces from `c`. */
  function Next(c: Short): (r: Short)
    ensures c < 0x7FFF ==> r == c + 1
    ensures c == 0x7FFF ==> r == -0x8000
  {
    ToShort(c as int + 1)
  }

  /** The counter after `k` increments starting from `c`; as long as no
      wrap happens, that is `c + k`. */
  function ClockAfter(c: Short, k: nat): (r: Short)
    ensures c as int + k < 0x8000 ==> r as int == c as int + k
    decreases k
  {
    if k == 0 then c else Next(ClockAfter(c, k - 1))
  }

  /** Two integers that agree modulo 2^16 become the same `short`. */
  lemma ToShortCongruent(a: int, b: int)
    requires (a - b) % 0x10000 == 0
    ensures ToShort(a) == ToShort(b)
  {
    var m := (a - b) / 0x10000;
    assert a + 0x8000 == (b + 0x8000) + m * 0x10000;
  }

  /** `k` increments from `c` give `c + k` truncated to 16 bits. */
  lemma {:induction false} ClockAfterIsTruncatedSum(c: Short, k: nat)
    ensures ClockAfter(c, k) == ToShort(c as int + k)
  {
    if k > 0 {
      ClockAfterIsTruncatedSum(c, k - 1);
      var prev := ClockAfter(c, k - 1);
      ToShortCongruent(c as int + k, prev as int + 1);
    }
  }

  /** A counter that starts at 0 (its static initial value) issues 1, 2, 3, ...:
      after `k` increments it holds `k`, as long as no wrap has happened. */
  lemma FreshClockCounts(k: nat)
    requires k <= 0x7FFF
    ensures ClockAfter(0, k) as int == k
  {
    ClockAfterIsTruncatedSum(0, k);
  }

  /** Successive stamps strictly increase until the counter reaches 32767. */
  lemma StampsIncrease(c: Short, i: nat, j: nat)
    requires i < j
    requires c as int + j <= 0x7FFF
    ensures ClockAfter(c, i) < ClockAfter(c, j)
  {
    ClockAfterIsTruncatedSum(c, i);
    ClockAfterIsTruncatedSum(c, j);
  }

  /** Monotonicity is not unbounded: after 2^16 increments, every stamp
      comes back. */
  lemma StampsRecur(c: Short, k: nat)
    ensures ClockAfter(c, k + 0x10000) == ClockAfter(c, k)
  {
    ClockAfterIsTruncatedSum(c, k);
    ClockAfterIsTruncatedSum(c, k + 0x10000);
    ToShortCongruent(c as int + k + 0x10000, c as int + k);
  }

  /** The static `clock_time` of one instantiation `Wrapped<RawDataType>`:
      a single counter shared by every stamped value of that payload type. */
  class Clock {
    var clockTime: Short

    /** The static member starts at 0. */
    constructor ()
      ensures clockTime == 0
    {
      clockTime := 0;
    }

    /** `clock()`: pre-increment the counter and return its new value. */
    method Tick() returns (s: Short)
      modifies this
      ensures clockTime == Next(old(clockTime))
      ensures s == clockTime
    {
      clockTime := Next(clockTime);
      s := clockTime;
    }
  }

  /** A payload paired with the stamp it was given when it was built.
      The datatype constructor itself is the two-argument constructor with
      an explicit stamp: it keeps both arguments and does not touch any clock. */
  datatype Wrapped<T> = Wrapped(rawData: T, timeStamp: Short) {

    /** `operator=`: the target takes over both fields of `source`; nothing
        of the old target survives. */
    function Assign(source: Wrapped<T>): (r: Wrapped<T>)
      ensures r.rawData == source.rawData
      ensures r.timeStamp == source.timeStamp
    {
      Wrapped(source.rawData, source.timeStamp)
    }

    /** `wrap`: replace the payload and keep the stamp. */
    function Wrap(raw: T): (r: Wrapped<T>)
      ensures r.rawData == raw
      ensures r.timeStamp == timeStamp
    {
      this.(rawData := raw)
    }
  }

  /** The auto-stamped constructors: `Wrapped(data_)` with the default
      stamp argument `clock()`, and `Wrapped()` with `raw` standing for the
      default-constructed payload (deterministic only for a class payload;
      an indeterminate scalar payload is not modelled). Each advances the counter once and takes its new value. */
  method NewWrapped<T>(clock: Clock, raw: T) returns (w: Wrapped<T>)
    modifies clock
    ensures clock.clockTime == Next(old(clock.clockTime))
    ensures w.rawData == raw && w.timeStamp == clock.clockTime
  {
    var stamp := clock.Tick();
    w := Wrapped(raw, stamp);
  }
}
