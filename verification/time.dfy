/** Conversions between the kernel's time value (seconds and sub-second
    nanoseconds) and the user-visible `timespec` and `timeval` records.

    On the 64-bit targets the three timespec layouts (`timespec`,
    `__kernel_timespec`, `__kernel_old_timespec`) all carry two signed 64-bit
    fields and their conversions are textually identical, so one record and
    one pair of functions model all three; likewise for the three timeval
    layouts (`timeval`, `__kernel_old_timeval`, `__kernel_sock_timeval`). */
module Time {
  import opened Ints
  import opened Errors

  const NANOS_PER_SEC: int := 1_000_000_000
  const NANOS_PER_MICRO: int := 1000
  const MAX_NSEC: int := 999_999_999
  const MAX_USEC: int := 999_999

  type Nanos = n: int | 0 <= n < 1_000_000_000

  /** The kernel's duration type: unsigned 64-bit seconds plus nanoseconds
      below one second (so building one never carries). */
  datatype TimeValue = TimeValue(secs: u64, nanos: Nanos)

  datatype Timespec = Timespec(sec: i64, nsec: i64)
  datatype Timeval = Timeval(sec: i64, usec: i64)

  // ---------------------------------------------------------------------
  // timespec

  /** A timespec is accepted when both fields are non-negative and the
      nanoseconds are below one second. */
  predicate TimespecInRange(ts: Timespec)
  {
    0 <= ts.sec && 0 <= ts.nsec <= MAX_NSEC
  }

  /** `from_time_value`: seconds are cast to the signed field (wrapping for
      values of 2^63 and above), nanoseconds copied. */
  function TimespecFromTimeValue(tv: TimeValue): (ts: Timespec)
    ensures ts.nsec == tv.nanos
    ensures tv.secs < I64_SIGN ==> ts.sec == tv.secs
    ensures tv.secs >= I64_SIGN ==> ts.sec == tv.secs - U64_LIMIT < 0
  {
    Timespec(U64AsI64(tv.secs), tv.nanos)
  }

  /** `try_into_time_value`: EINVAL exactly for out-of-range fields,
      otherwise the same seconds and nanoseconds. */
  function TimespecToTimeValue(ts: Timespec): (r: Result<TimeValue>)
    ensures r.Err? <==> ts.nsec < 0 || ts.nsec > MAX_NSEC || ts.sec < 0
    ensures r.Err? ==> r.error == EINVAL
    ensures r.Ok? ==> r.value.secs == ts.sec && r.value.nanos == ts.nsec
  {
    if ts.nsec < 0 || ts.nsec > MAX_NSEC || ts.sec < 0 then
      Err(EINVAL)
    else
      Ok(TimeValue(ts.sec, ts.nsec))
  }

  /** Time value -> timespec -> time value is exact whenever the seconds fit
      the signed field, and is rejected otherwise. */
  lemma TimespecRoundTrip(tv: TimeValue)
    ensures tv.secs < I64_SIGN ==> TimespecToTimeValue(TimespecFromTimeValue(tv)) == Ok(tv)
    ensures tv.secs >= I64_SIGN ==> TimespecToTimeValue(TimespecFromTimeValue(tv)) == Err(EINVAL)
  {
  }

  /** Every accepted timespec is reproduced exactly by converting back. */
  lemma TimespecInverseRoundTrip(ts: Timespec)
    requires TimespecInRange(ts)
    ensures TimespecToTimeValue(ts).Ok?
    ensures TimespecFromTimeValue(TimespecToTimeValue(ts).value) == ts
  {
  }

  // ---------------------------------------------------------------------
  // timeval

  predicate TimevalInRange(tv: Timeval)
  {
    0 <= tv.sec && 0 <= tv.usec <= MAX_USEC
  }

  /** `from_time_value`: seconds cast to the signed field, sub-second part
      in whole microseconds (truncated). */
  function TimevalFromTimeValue(tv: TimeValue): (r: Timeval)
    ensures r.usec * NANOS_PER_MICRO <= tv.nanos < (r.usec + 1) * NANOS_PER_MICRO
    ensures tv.secs < I64_SIGN ==> r.sec == tv.secs
    ensures tv.secs >= I64_SIGN ==> r.sec == tv.secs - U64_LIMIT < 0
  {
    Timeval(U64AsI64(tv.secs), tv.nanos / NANOS_PER_MICRO)
  }

  /** `try_into_time_value`: EINVAL exactly for out-of-range fields;
      otherwise the microseconds scaled to nanoseconds, which stay below
      one second, so no carry into the seconds can happen. */
  function TimevalToTimeValue(tv: Timeval): (r: Result<TimeValue>)
    ensures r.Err? <==> tv.usec < 0 || tv.usec > MAX_USEC || tv.sec < 0
    ensures r.Err? ==> r.error == EINVAL
    ensures r.Ok? ==> r.value.secs == tv.sec && r.value.nanos == tv.usec * NANOS_PER_MICRO
    ensures r.Ok? ==> r.value.nanos <= 999_999_000 && r.value.nanos % NANOS_PER_MICRO == 0
  {
    if tv.usec < 0 || tv.usec > MAX_USEC || tv.sec < 0 then
      Err(EINVAL)
    else
      Ok(TimeValue(tv.sec, tv.usec * NANOS_PER_MICRO))
  }

  /** Time value -> timeval -> time value keeps the seconds and truncates
      the nanoseconds down to a whole microsecond; seconds that wrap to a
      negative field are rejected on the way back. */
  lemma TimevalRoundTrip(tv: TimeValue)
    ensures tv.secs < I64_SIGN ==>
              && TimevalToTimeValue(TimevalFromTimeValue(tv)).Ok?
              && TimevalToTimeValue(TimevalFromTimeValue(tv)).value.secs == tv.secs
              && TimevalToTimeValue(TimevalFromTimeValue(tv)).value.nanos
                 == tv.nanos - tv.nanos % NANOS_PER_MICRO
    ensures tv.secs >= I64_SIGN ==> TimevalToTimeValue(TimevalFromTimeValue(tv)) == Err(EINVAL)
  {
  }

  /** Every accepted timeval is reproduced exactly by converting back. */
  lemma TimevalInverseRoundTrip(tv: Timeval)
    requires TimevalInRange(tv)
    ensures TimevalToTimeValue(tv).Ok?
    ensures TimevalFromTimeValue(TimevalToTimeValue(tv).value) == tv
  {
  }
}
