/** The record shape of one tracked dragon kill (src/types/timer.ts). */
module TimerTypes {

  /** The two dragon kinds, '수룡' and '화룡' in the user interface. */
  datatype DragonType = Suryong | Hwaryong

  /** One row of the timer list. respawnTime is an instant in local wall-clock
      milliseconds; remainingTime is the text shown in the countdown column. */
  datatype Timer = Timer(
    id: int,
    channelNumber: int,
    killedTime: string,
    dragonType: DragonType,
    respawnTime: int,
    remainingTime: string,
    isCompleted: bool)

  /** The fields a tick never touches agree between two timers. */
  predicate SameEntry(u: Timer, t: Timer) {
    && u.id == t.id
    && u.channelNumber == t.channelNumber
    && u.killedTime == t.killedTime
    && u.dragonType == t.dragonType
    && u.respawnTime == t.respawnTime
  }
}
