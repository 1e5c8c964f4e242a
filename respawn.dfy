/** Turning an "HH:mm" kill time into the kill instant and the respawn instant
    (the date arithmetic of handleAddTimer in src/App.tsx). */
module Respawn {
  import opened Clock
  import opened TimerTypes

  /** The hour and minute a time input can hold. */
  predicate ValidClockTime(hours: int, minutes: int) {
    0 <= hours < 24 && 0 <= minutes < 60
  }

  /** Milliseconds after midnight of hours:minutes:00.000. */
  function ClockOffset(hours: int, minutes: int): (offset: int) {
    hours * MS_PER_HOUR + minutes * MS_PER_MINUTE
  }

  /** Minutes from kill to respawn: 30 for '수룡', 40 for every other kind. */
  function OffsetMinutes(dragon: DragonType): (m: int)
    ensures m == 30 || m == 40
    ensures m == 30 <==> dragon == Suryong
  {
    if dragon == Suryong then 30 else 40
  }

  /** The kill instant on now's own day, at hours:minutes with zero seconds. */
  function SameDayCandidate(now: int, hours: int, minutes: int): (c: int)
    requires ValidClockTime(hours, minutes)
    ensures DayStart(c) == DayStart(now)
    ensures TimeOfDay(c) == ClockOffset(hours, minutes)
  {
    SetTimeOfDay(now, hours, minutes, 0, 0)
  }

  /** The kill instant: the latest instant at or before now whose time of day is hours:minutes. */
  function KilledAt(now: int, hours: int, minutes: int): (k: int)
    requires ValidClockTime(hours, minutes)
    ensures 0 <= now - k < MS_PER_DAY
    ensures TimeOfDay(k) == ClockOffset(hours, minutes)
  {
    var candidate := SameDayCandidate(now, hours, minutes);
    if candidate > now then AddDays(candidate, -1) else candidate
  }

  /** The respawn instant: the kill instant plus the dragon's offset. It lies
      in the 24 hours that end one offset after now, at the entered time of
      day plus the offset, wrapping past midnight. */
  function RespawnAt(now: int, hours: int, minutes: int, dragon: DragonType): (r: int)
    requires ValidClockTime(hours, minutes)
    ensures 0 <= now + OffsetMinutes(dragon) * MS_PER_MINUTE - r < MS_PER_DAY
    ensures TimeOfDay(r) == (ClockOffset(hours, minutes) + OffsetMinutes(dragon) * MS_PER_MINUTE) % MS_PER_DAY
  {
    AddMinutes(KilledAt(now, hours, minutes), OffsetMinutes(dragon))
  }

  /** The day shift subtracts exactly one day, and does so exactly when the
      same-day candidate lies strictly after now. */
  lemma KilledAtShift(now: int, hours: int, minutes: int)
    requires ValidClockTime(hours, minutes)
    ensures var c := SameDayCandidate(now, hours, minutes);
      && (KilledAt(now, hours, minutes) == c <==> c <= now)
      && (KilledAt(now, hours, minutes) == c - MS_PER_DAY <==> c > now)
  {
  }

  /** Two instants with the same time of day less than a day apart coincide. */
  lemma SameTimeOfDayWithinDay(t: int, u: int)
    requires TimeOfDay(t) == TimeOfDay(u)
    requires -MS_PER_DAY < t - u < MS_PER_DAY
    ensures t == u
  {
    var qt, qu := t / MS_PER_DAY, u / MS_PER_DAY;
    assert t - u == (qt - qu) * MS_PER_DAY;
  }

  /** KilledAt is the only instant in the last 24 hours (now included) with the
      requested time of day. */
  lemma KilledAtUnique(now: int, hours: int, minutes: int, t: int)
    requires ValidClockTime(hours, minutes)
    requires TimeOfDay(t) == ClockOffset(hours, minutes)
    requires 0 <= now - t < MS_PER_DAY
    ensures t == KilledAt(now, hours, minutes)
  {
    SameTimeOfDayWithinDay(t, KilledAt(now, hours, minutes));
  }

  /** The respawn instant lies exactly 30 minutes ('수룡') or 40 minutes ('화룡')
      after the kill instant. */
  lemma RespawnOffsets(now: int, hours: int, minutes: int)
    requires ValidClockTime(hours, minutes)
    ensures RespawnAt(now, hours, minutes, Suryong) - KilledAt(now, hours, minutes) == 30 * MS_PER_MINUTE
    ensures RespawnAt(now, hours, minutes, Hwaryong) - KilledAt(now, hours, minutes) == 40 * MS_PER_MINUTE
  {
  }

  /** The respawn instant lies within the offset of now, never more than 40
      minutes ahead; it is already due at creation exactly when the kill was
      at least the offset ago. */
  lemma RespawnWindow(now: int, hours: int, minutes: int, dragon: DragonType)
    requires ValidClockTime(hours, minutes)
    ensures var r := RespawnAt(now, hours, minutes, dragon);
      var offset := OffsetMinutes(dragon) * MS_PER_MINUTE;
      && now - MS_PER_DAY + offset < r <= now + offset
      && now - MS_PER_DAY + 30 * MS_PER_MINUTE < r <= now + 40 * MS_PER_MINUTE
      && (r <= now <==> now - KilledAt(now, hours, minutes) >= offset)
  {
  }

  /** At 10:00, a '수룡' killed at 09:00 respawned at 09:30: the new entry is
      already due when it is created. */
  lemma RespawnAlreadyDue()
    ensures var now := 10 * MS_PER_HOUR;
      && KilledAt(now, 9, 0) == 9 * MS_PER_HOUR
      && RespawnAt(now, 9, 0, Suryong) == 9 * MS_PER_HOUR + 30 * MS_PER_MINUTE
      && RespawnAt(now, 9, 0, Suryong) < now
  {
  }

  /** At 00:10, a kill entered as 23:50 happened the previous evening. */
  lemma KilledPreviousEvening()
    ensures var now := MS_PER_DAY + 10 * MS_PER_MINUTE;
      && KilledAt(now, 23, 50) == MS_PER_DAY - 10 * MS_PER_MINUTE
      && RespawnAt(now, 23, 50, Hwaryong) == now + 20 * MS_PER_MINUTE
  {
  }
}
