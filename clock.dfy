/** Local wall-clock time as integer milliseconds, with uniform 24-hour days,
    and the two JavaScript arithmetic operators the timer code relies on. */
module Clock {

  const MS_PER_SECOND: int := 1000
  const MS_PER_MINUTE: int := 60_000
  const MS_PER_HOUR: int := 3_600_000
  const MS_PER_DAY: int := 86_400_000

  /** Milliseconds elapsed since the local midnight that starts t's day. */
  function TimeOfDay(t: int): (r: int)
    ensures 0 <= r < MS_PER_DAY
    ensures (t - r) % MS_PER_DAY == 0
  {
    t % MS_PER_DAY
  }

  /** The local midnight that starts t's day. */
  function DayStart(t: int): (r: int)
    ensures r <= t < r + MS_PER_DAY
    ensures TimeOfDay(r) == 0
  {
    MultipleOfDay(t - TimeOfDay(t));
    t - TimeOfDay(t)
  }

  /** Date.prototype.setHours(h, m, s, ms) with in-range arguments: same day, new time of day. */
  function SetTimeOfDay(t: int, hours: int, minutes: int, seconds: int, millis: int): (r: int)
    requires 0 <= hours < 24 && 0 <= minutes < 60 && 0 <= seconds < 60 && 0 <= millis < 1000
    ensures DayStart(r) == DayStart(t)
    ensures TimeOfDay(r) == hours * MS_PER_HOUR + minutes * MS_PER_MINUTE + seconds * MS_PER_SECOND + millis
  {
    var tod := hours * MS_PER_HOUR + minutes * MS_PER_MINUTE + seconds * MS_PER_SECOND + millis;
    DayPlusOffset(DayStart(t), tod);
    DayStart(t) + tod
  }

  /** Date.prototype.setDate(getDate() + k) under uniform days: k whole days later. */
  function AddDays(t: int, k: int): (r: int)
    ensures TimeOfDay(r) == TimeOfDay(t)
    ensures r - t == k * MS_PER_DAY
  {
    ShiftByDays(t, k);
    t + k * MS_PER_DAY
  }

  /** Date.prototype.setMinutes(getMinutes() + k): seconds and milliseconds
      are kept, and the minutes carry into the hours and the day. */
  function AddMinutes(t: int, k: int): (r: int)
    ensures TimeOfDay(r) % MS_PER_MINUTE == TimeOfDay(t) % MS_PER_MINUTE
    ensures TimeOfDay(r) == (TimeOfDay(t) + k * MS_PER_MINUTE) % MS_PER_DAY
    ensures DayStart(r) == DayStart(t) + ((TimeOfDay(t) + k * MS_PER_MINUTE) / MS_PER_DAY) * MS_PER_DAY
  {
    var x := TimeOfDay(t) + k * MS_PER_MINUTE;
    CarryIntoDays(DayStart(t), x);
    CarryKeepsSeconds(TimeOfDay(t), k, x / MS_PER_DAY);
    t + k * MS_PER_MINUTE
  }

  /** JavaScript's `a % b` on integers: the remainder takes the sign of the
      dividend; on a non-negative dividend it is the ordinary remainder. */
  function TruncRem(a: int, b: int): (r: int)
    requires b > 0
    ensures -b < r < b
    ensures (a - r) % b == 0
    ensures a >= 0 ==> r == a % b
    ensures a <= 0 ==> r <= 0
  {
    if a >= 0 then
      MultipleMod(a - a % b, a / b, b);
      a % b
    else
      MultipleMod(a + (-a) % b, -((-a) / b), b);
      -((-a) % b)
  }

  /** A multiple of b leaves no remainder. */
  lemma MultipleMod(x: int, q: int, b: int)
    requires b > 0 && x == q * b
    ensures x % b == 0
  {
    var y := q - x / b;
    assert y * b == x % b;
  }

  /** Negating the dividend negates JavaScript's remainder. */
  lemma TruncRemOdd(a: int, b: int)
    requires b > 0
    ensures TruncRem(-a, b) == -TruncRem(a, b)
  {
    if a == 0 {
      assert TruncRem(0, b) == 0 % b == 0;
    }
  }

  /** `Math.floor(a / b)` for a positive divisor: the greatest q with q * b <= a. */
  function FloorDiv(a: int, b: int): (q: int)
    requires b > 0
    ensures q * b <= a < (q + 1) * b
  {
    a / b
  }

  lemma MultipleOfDay(x: int)
    requires x % MS_PER_DAY == 0
    ensures TimeOfDay(x) == 0
  {
  }

  lemma DayPlusOffset(d: int, tod: int)
    requires TimeOfDay(d) == 0 && 0 <= tod < MS_PER_DAY
    ensures TimeOfDay(d + tod) == tod
    ensures d + tod - TimeOfDay(d + tod) == d
  {
    var q := d / MS_PER_DAY;
    assert d == q * MS_PER_DAY;
    assert (q * MS_PER_DAY + tod) % MS_PER_DAY == tod;
  }

  /** Adding x to a midnight d lands x mod one day into the day x / MS_PER_DAY days later. */
  lemma CarryIntoDays(d: int, x: int)
    requires TimeOfDay(d) == 0
    ensures TimeOfDay(d + x) == x % MS_PER_DAY
    ensures DayStart(d + x) == d + (x / MS_PER_DAY) * MS_PER_DAY
  {
    var q := d / MS_PER_DAY;
    assert d == q * MS_PER_DAY;
    assert d + x == (q + x / MS_PER_DAY) * MS_PER_DAY + x % MS_PER_DAY;
    ShiftByDays(x % MS_PER_DAY, q + x / MS_PER_DAY);
  }

  /** Removing p whole days from tod + k minutes keeps tod's seconds and milliseconds. */
  lemma CarryKeepsSeconds(tod: int, k: int, p: int)
    ensures (tod + k * MS_PER_MINUTE - p * MS_PER_DAY) % MS_PER_MINUTE == tod % MS_PER_MINUTE
  {
    var q := tod / MS_PER_MINUTE;
    assert tod + k * MS_PER_MINUTE - p * MS_PER_DAY == (q + k - 1440 * p) * MS_PER_MINUTE + tod % MS_PER_MINUTE;
  }

  lemma ShiftByDays(t: int, k: int)
    ensures TimeOfDay(t + k * MS_PER_DAY) == TimeOfDay(t)
  {
    var q := t / MS_PER_DAY;
    var r := t % MS_PER_DAY;
    assert t + k * MS_PER_DAY == (q + k) * MS_PER_DAY + r;
  }
}
