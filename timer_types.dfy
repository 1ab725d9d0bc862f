/**
 * The two records of the application (src/types/index.ts): a countdown
 * timer and the log entry written when one completes.
 */
module TimerTypes {
  /** The four lifecycle states a timer can be in. */
  datatype Status = Idle | Running | Paused | Completed

  /**
   * A countdown timer. Durations and remaining times are whole seconds;
   * `createdAt` is a millisecond timestamp that nothing in the core reads.
   */
  datatype Timer = Timer(
    id: string,
    name: string,
    duration: int,
    category: string,
    status: Status,
    remainingTime: int,
    halfwayAlert: bool,
    halfwayAlertTriggered: bool,
    createdAt: int)

  /** One completion of a timer, as kept in the history. */
  datatype TimerLog = TimerLog(
    id: string,
    timerId: string,
    name: string,
    category: string,
    duration: int,
    completedAt: int)

  /** A timer that respects the data-model invariant: the remaining time lies
      within the duration, a completed timer has none left, and only a timer
      that asked for a halfway alert can have had it triggered. */
  predicate ValidTimer(t: Timer)
  {
    && 0 <= t.remainingTime <= t.duration
    && (t.status == Completed ==> t.remainingTime == 0)
    && (t.halfwayAlertTriggered ==> t.halfwayAlert)
  }
}
