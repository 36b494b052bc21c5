/** Process CPU-time counters and the conversions between `Duration` and
    the user-visible `Timespec` (kernel/src/time.rs).

    The counters are atomics updated with relaxed `fetch_add`; here they
    are plain fields, and the wrap-around of a 64-bit `fetch_add` is
    written out.  The tick clock (`ticks_since_boot`,
    `duration_since_boot`) reads the timer and is not modelled. */
module Time {

  import opened Common

  const U64_LIMIT: nat := 0x1_0000_0000_0000_0000
  const I64_LIMIT: nat := 0x8000_0000_0000_0000
  const NANOS_PER_SEC: nat := 1_000_000_000
  const MICROS_PER_SEC: nat := 1_000_000
  const NANOS_PER_MICRO: nat := 1_000

  /** Adds ticks to a 64-bit counter the way `fetch_add` does, wrapping. */
  function AddWrapping(counter: u64, ticks: u64): (r: u64)
    ensures counter + ticks < U64_LIMIT ==> r == counter + ticks
    ensures counter + ticks >= U64_LIMIT ==> r == counter + ticks - U64_LIMIT
  {
    (counter + ticks) % U64_LIMIT
  }

  /** `CpuTimes`: user and system ticks of a process, and those of its
      waited-for children. */
  class CpuTimes {
    var utime: u64
    var stime: u64
    var cutime: u64
    var cstime: u64

    /** `Default`: every counter zero. */
    constructor ()
      ensures utime == 0 && stime == 0 && cutime == 0 && cstime == 0
    {
      utime, stime, cutime, cstime := 0, 0, 0, 0;
    }

    constructor Copy(utime: u64, stime: u64, cutime: u64, cstime: u64)
      ensures this.utime == utime && this.stime == stime
      ensures this.cutime == cutime && this.cstime == cstime
    {
      this.utime, this.stime, this.cutime, this.cstime := utime, stime, cutime, cstime;
    }

    /** `account_user`: the ticks are added to the user time only. */
    method AccountUser(ticks: u64)
      modifies this
      ensures utime == AddWrapping(old(utime), ticks)
      ensures stime == old(stime) && cutime == old(cutime) && cstime == old(cstime)
    {
      utime := AddWrapping(utime, ticks);
    }

    /** `account_sys`: the ticks are added to the system time only. */
    method AccountSys(ticks: u64)
      modifies this
      ensures stime == AddWrapping(old(stime), ticks)
      ensures utime == old(utime) && cutime == old(cutime) && cstime == old(cstime)
    {
      stime := AddWrapping(stime, ticks);
    }

    /** `clone`: a new set of counters holding the same four values. */
    method Clone() returns (c: CpuTimes)
      ensures fresh(c)
      ensures c.utime == utime && c.stime == stime && c.cutime == cutime && c.cstime == cstime
    {
      c := new CpuTimes.Copy(utime, stime, cutime, cstime);
    }
  }

  /** Two accountings add up: accounting `a` then `b` ticks is accounting
      `a + b` ticks, in 64-bit wrapping arithmetic. */
  lemma AccountTwice(counter: u64, a: u64, b: u64)
    ensures AddWrapping(AddWrapping(counter, a), b) == (counter + a + b) % U64_LIMIT
  {
    var s := counter + a;
    DivModUnique(s, U64_LIMIT, s / U64_LIMIT, s % U64_LIMIT);
    var t := s % U64_LIMIT + b;
    DivModUnique(s + b, U64_LIMIT, s / U64_LIMIT + t / U64_LIMIT, t % U64_LIMIT);
  }

  /** `core::time::Duration`: whole seconds in 64 bits and nanoseconds
      below one second. */
  datatype Duration = Duration(secs: u64, nanos: nat)

  predicate ValidDuration(d: Duration)
  {
    d.nanos < NANOS_PER_SEC
  }

  /** `Timespec`: seconds and microseconds as signed 64-bit numbers. */
  datatype Timespec = Timespec(sec: i64, usec: i64)

  /** `x as i64` on a `u64`: values from 2^63 on become negative. */
  function AsI64(x: u64): (r: i64)
    ensures x < I64_LIMIT ==> r == x
    ensures x >= I64_LIMIT ==> r == x - U64_LIMIT
  {
    if x < I64_LIMIT then x else x - U64_LIMIT
  }

  /** `x as u64` on an `i64`: negative values become large. */
  function AsU64(x: i64): (r: u64)
    ensures x >= 0 ==> r == x
    ensures x < 0 ==> r == x + U64_LIMIT
  {
    if x >= 0 then x else x + U64_LIMIT
  }

  /** `From<Duration> for Timespec`: the whole seconds, and the
      microseconds of the fraction, the nanoseconds below a microsecond
      dropped. */
  function ToTimespec(d: Duration): (t: Timespec)
    requires ValidDuration(d)
    ensures d.secs < I64_LIMIT ==> t.sec == d.secs
    ensures 0 <= t.usec < MICROS_PER_SEC
    ensures t.usec * NANOS_PER_MICRO <= d.nanos < (t.usec + 1) * NANOS_PER_MICRO
  {
    Timespec(AsI64(d.secs), d.nanos / NANOS_PER_MICRO)
  }

  /** `From<Timespec> for Duration`: the seconds and the microseconds, each
      cast to `u64`, added as durations.  The addition panics on overflow,
      which is `None` here. */
  function FromTimespec(t: Timespec): (r: Option<Duration>)
    ensures r.Some? ==> ValidDuration(r.value)
    ensures r.Some? ==>
      r.value.secs * NANOS_PER_SEC + r.value.nanos
        == AsU64(t.sec) * NANOS_PER_SEC + AsU64(t.usec) * NANOS_PER_MICRO
    ensures r.None? <==> AsU64(t.sec) + AsU64(t.usec) / MICROS_PER_SEC >= U64_LIMIT
  {
    var s := AsU64(t.sec);
    var us := AsU64(t.usec);
    var secs := s + us / MICROS_PER_SEC;
    var nanos := (us % MICROS_PER_SEC) * NANOS_PER_MICRO;
    if secs >= U64_LIMIT then None
    else
      assert us == (us / MICROS_PER_SEC) * MICROS_PER_SEC + us % MICROS_PER_SEC;
      Some(Duration(secs, nanos))
  }

  /** A duration turned into a `Timespec` and back loses exactly the
      nanoseconds below a microsecond. */
  lemma DurationRoundTrip(d: Duration)
    requires ValidDuration(d) && d.secs < I64_LIMIT
    ensures FromTimespec(ToTimespec(d))
      == Some(Duration(d.secs, (d.nanos / NANOS_PER_MICRO) * NANOS_PER_MICRO))
  {
    var us := d.nanos / NANOS_PER_MICRO;
    DivModUnique(us, MICROS_PER_SEC, 0, us);
  }

  /** A `Timespec` with a non-negative second count and a microsecond
      count below one second survives the trip through `Duration`. */
  lemma TimespecRoundTrip(t: Timespec)
    requires 0 <= t.sec && 0 <= t.usec < MICROS_PER_SEC
    ensures FromTimespec(t).Some?
    ensures ToTimespec(FromTimespec(t).value) == t
  {
    DivModUnique(t.usec, MICROS_PER_SEC, 0, t.usec);
    DivModUnique(t.usec * NANOS_PER_MICRO, NANOS_PER_MICRO, t.usec, 0);
  }
}
