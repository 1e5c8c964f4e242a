/** The timer list held by the App component of src/App.tsx, with the three
    operations that replace it: adding a timer, deleting by id, and the
    once-a-second tick. */
module App {
  import opened Clock
  import opened TimerTypes
  import opened Respawn
  import opened TimerList

  class TimerBoard {
    /** The `timerList` state cell, in display order. */
    var timerList: seq<Timer>

    constructor ()
      ensures timerList == []
    {
      timerList := [];
    }

    /** handleAddTimer. channelInput and timeInput are the raw form fields;
        channel, hours and minutes are their parsed values, id the value of
        Date.now() and now the current instant. Returns whether the
        "fill in every field" alert was raised instead of adding a timer. */
    method AddTimer(channelInput: string, timeInput: string, dragon: DragonType,
                    id: int, channel: int, hours: int, minutes: int, now: int)
      returns (alerted: bool)
      requires channelInput != [] && timeInput != [] ==> ValidClockTime(hours, minutes)
      modifies this
      ensures alerted <==> channelInput == [] || timeInput == []
      ensures alerted ==> timerList == old(timerList)
      ensures !alerted ==>
        timerList == old(timerList) + [Timer(id, channel, timeInput, dragon, RespawnAt(now, hours, minutes, dragon), "", false)]
    {
      if channelInput == [] || timeInput == [] {
        return true;
      }
      var killedDate := now;
      killedDate := SetTimeOfDay(killedDate, hours, minutes, 0, 0);
      if killedDate > now {
        killedDate := AddDays(killedDate, -1);
      }
      var respawnDate := killedDate;
      respawnDate := AddMinutes(respawnDate, OffsetMinutes(dragon));
      var newTimer := Timer(id, channel, timeInput, dragon, respawnDate, "", false);
      timerList := timerList + [newTimer];
      alerted := false;
    }

    /** handleDeleteTimer: drop every timer with this id. */
    method DeleteTimer(id: int)
      modifies this
      ensures timerList == DeleteById(old(timerList), id)
    {
      timerList := DeleteById(timerList, id);
    }

    /** One run of the interval callback at instant now. Returns the timers
        handed to showNotification, as they were before the tick. */
    method Tick(now: int) returns (notified: seq<Timer>)
      modifies this
      ensures timerList == TickAll(old(timerList), now)
      ensures notified == Notified(old(timerList), now)
    {
      notified := Notified(timerList, now);
      timerList := TickAll(timerList, now);
    }
  }
}
