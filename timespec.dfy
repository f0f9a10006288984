/**
 * Time arithmetic of the timer manager: `struct timespec` values, the
 * nanosecond addition with carry (add_nsecs), the choice between a
 * caller-supplied "now" and the clock (getnow), and the wait computed by
 * tmr_timeout.
 *
 * Integers are unbounded here; the C `/` and `%` (which truncate toward
 * zero, section 6.5.5 of ISO C99) are written out for the one divisor the
 * code uses, one second in nanoseconds.
 */
module TimeSpec {

  /** Nanoseconds in one second, the `1000000000L` of timer.c. */
  const NsPerSec: int := 1_000_000_000

  /** The values of C's `int64_t`. */
  type Int64 = x: int | -0x8000_0000_0000_0000 <= x < 0x8000_0000_0000_0000

  datatype Option<T> = None | Some(value: T)

  /**
   * A `struct timespec`. Nothing in the C type keeps `nsec` inside
   * [0, NsPerSec); Normal says when it is.
   */
  datatype Timespec = Timespec(sec: int, nsec: int)

  /** The instant a timespec denotes, in nanoseconds. */
  function Total(t: Timespec): int
  {
    t.sec * NsPerSec + t.nsec
  }

  predicate Normal(t: Timespec)
  {
    0 <= t.nsec < NsPerSec
  }

  /**
   * The ordering test timer.c writes out wherever it compares two
   * deadlines: seconds first, nanoseconds on a tie.
   */
  predicate Before(a: Timespec, b: Timespec)
  {
    a.sec < b.sec || (a.sec == b.sec && a.nsec < b.nsec)
  }

  /** On normalised values the field-wise test orders the instants. */
  lemma BeforeIsEarlier(a: Timespec, b: Timespec)
    requires Normal(a) && Normal(b)
    ensures Before(a, b) <==> Total(a) < Total(b)
  {
  }

  /**
   * Off normalised values it does not: (5, -1) and (4, 999999999) are the
   * same instant, yet the second comes strictly before the first.
   */
  lemma BeforeOnDenormalised()
    ensures Total(Timespec(4, 999_999_999)) == Total(Timespec(5, -1))
    ensures Before(Timespec(4, 999_999_999), Timespec(5, -1))
  {
  }

  /**
   * C's `n / 1000000000L`: the quotient truncated toward zero, so that
   * what is left over has the sign of `n` and is less than one second.
   */
  function DivSec(n: int): (q: int)
    ensures n >= 0 ==> 0 <= n - q * NsPerSec < NsPerSec
    ensures n <= 0 ==> -NsPerSec < n - q * NsPerSec <= 0
  {
    if n >= 0 then n / NsPerSec else -((-n) / NsPerSec)
  }

  /**
   * C's `n % 1000000000L`: the remainder that completes DivSec, which
   * takes the sign of the dividend.
   */
  function RemSec(n: int): (r: int)
    ensures DivSec(n) * NsPerSec + r == n
    ensures -NsPerSec < r < NsPerSec
    ensures n >= 0 ==> r >= 0
    ensures n <= 0 ==> r <= 0
  {
    if n >= 0 then n % NsPerSec else -((-n) % NsPerSec)
  }

  /**
   * add_nsecs: add a signed nanosecond count, then carry whole seconds out
   * of the nanosecond field when it has reached one second. The instant
   * moves by exactly `nsecs`; the nanosecond field always ends below one
   * second, and it stays normalised when a normalised value is moved
   * forward.
   */
  function AddNsecs(t: Timespec, nsecs: Int64): (r: Timespec)
    ensures Total(r) == Total(t) + nsecs
    ensures r.nsec < NsPerSec
    ensures Normal(t) && nsecs >= 0 ==> Normal(r)
  {
    var sec := t.sec + DivSec(nsecs);
    var nsec := t.nsec + RemSec(nsecs);
    if nsec >= NsPerSec then
      Timespec(sec + DivSec(nsec), RemSec(nsec))
    else
      Timespec(sec, nsec)
  }

  /**
   * The carry only goes upward: moving a normalised value backward can
   * leave a negative nanosecond field.
   */
  lemma AddNsecsBackwardNotNormal()
    ensures AddNsecs(Timespec(5, 0), -1) == Timespec(5, -1)
    ensures !Normal(AddNsecs(Timespec(5, 0), -1))
  {
  }

  /**
   * getnow: the time the caller passed in, if any; otherwise `clock`, the
   * value the monotonic clock would report.
   */
  function GetNow(nowP: Option<Timespec>, clock: Timespec): (now: Timespec)
    ensures nowP.Some? ==> now == nowP.value
    ensures nowP.None? ==> now == clock
    ensures (if nowP.Some? then Normal(nowP.value) else Normal(clock)) ==> Normal(now)
  {
    if nowP.Some? then nowP.value else clock
  }

  /**
   * The wait tmr_timeout reports for a deadline: the nanoseconds from `now`
   * to `deadline`, clamped at zero, split into seconds and a normalised
   * nanosecond part.
   */
  function Remaining(deadline: Timespec, now: Timespec): (r: Timespec)
    ensures Normal(r) && r.sec >= 0
    ensures Total(r) == if Total(deadline) <= Total(now) then 0 else Total(deadline) - Total(now)
  {
    var nsecs := (deadline.sec - now.sec) * NsPerSec + (deadline.nsec - now.nsec);
    var wait := if nsecs <= 0 then 0 else nsecs;
    Timespec(DivSec(wait), RemSec(wait))
  }

  /**
   * The wait is zero exactly when the deadline is due, in the sense tmr_run
   * uses to decide whether to fire (deadline not after now), provided both
   * values are normalised.
   */
  lemma RemainingZeroIffDue(deadline: Timespec, now: Timespec)
    requires Normal(deadline) && Normal(now)
    ensures Remaining(deadline, now) == Timespec(0, 0) <==> !Before(now, deadline)
  {
    BeforeIsEarlier(now, deadline);
  }
}
