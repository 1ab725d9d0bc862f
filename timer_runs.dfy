/**
 * Runs of the tick scheduler. The scheduler itself (an interval that fires
 * once a second) is not modelled; what it issues is modelled as a sequence
 * of `TICK_TIMER` intents, each followed by the provider's completion hook.
 */
module TimerRuns {
  import opened Wrappers
  import opened TimerTypes
  import opened TimerContext

  /** `n` ticks of one timer, each followed by the completion hook. Every
      completion reads the clock as `logId` and `at`. */
  function RunTicks(s: TimerState, id: string, n: nat, logId: string, at: int): TimerState
    decreases n
  {
    if n == 0 then s else TickThenLog(RunTicks(s, id, n - 1, logId, at), id, logId, at)
  }

  /** A tick of a lone running timer with more than a second left counts it
      down, opening the halfway notice when it crosses halfway, and logs
      nothing. */
  lemma LoneTick(p: TimerState, logId: string, at: int)
    requires |p.timers| == 1 && p.timers[0].status == Running && p.timers[0].remainingTime > 1
    ensures var t := p.timers[0];
            TickThenLog(p, t.id, logId, at)
              == if IsHalfway(t) then p.(timers := [Ticked(t)], showHalfwayAlert := true, halfwayAlertTimer := Some(Ticked(t)))
                 else p.(timers := [Ticked(t)])
  {
    var t := p.timers[0];
    assert FirstIndexOf(p.timers, t.id) == 0;
    assert !IsCompletingTick(p, t.id);
    assert MapTimers(p.timers, (u: Timer) => if u.id == t.id then Ticked(t) else u) == [Ticked(t)];
  }

  /** What `k` ticks of a lone running timer leave, while it has time left:
      `k` seconds fewer, the halfway flag set once the remaining time is at
      most half the duration, the halfway notice opened at that point, and
      the logs and the completion notice as they were. */
  predicate CountedDown(s: TimerState, k: nat, r: TimerState)
    requires |s.timers| == 1
  {
    var t := s.timers[0];
    var left := t.remainingTime - k;
    && r.timers == [t.(remainingTime := left,
                       halfwayAlertTriggered := t.halfwayAlertTriggered
                         || (0 < k && t.halfwayAlert && 2 * left <= t.duration))]
    && r.logs == s.logs
    && r.showCompletionModal == s.showCompletionModal && r.completedTimer == s.completedTimer
    && r.showHalfwayAlert == (s.showHalfwayAlert
         || (0 < k && t.halfwayAlert && !t.halfwayAlertTriggered && 2 * left <= t.duration))
  }

  lemma CountdownStep(s: TimerState, k: nat, p: TimerState, logId: string, at: int)
    requires |s.timers| == 1 && s.timers[0].status == Running
    requires 0 < k < s.timers[0].remainingTime
    requires CountedDown(s, k - 1, p)
    ensures CountedDown(s, k, TickThenLog(p, s.timers[0].id, logId, at))
  {
    var t, q := s.timers[0], p.timers[0];
    LoneTick(p, logId, at);
    assert NextRemaining(q) == t.remainingTime - k;
  }

  /** While a lone running timer has time left, `k` ticks take `k` seconds off,
      set the halfway flag once the remaining time is at most half the
      duration, open the halfway notice at that point, and neither complete
      nor log. */
  lemma {:induction false} Countdown(s: TimerState, k: nat, logId: string, at: int)
    requires |s.timers| == 1 && s.timers[0].status == Running
    requires k < s.timers[0].remainingTime
    ensures CountedDown(s, k, RunTicks(s, s.timers[0].id, k, logId, at))
  {
    if k > 0 {
      Countdown(s, k - 1, logId, at);
      CountdownStep(s, k, RunTicks(s, s.timers[0].id, k - 1, logId, at), logId, at);
    }
  }

  /** A counted-down timer is the same timer, still running, with `k`
      seconds fewer left; nothing has been logged. */
  lemma CountedDownFields(s: TimerState, k: nat, r: TimerState)
    requires |s.timers| == 1 && s.timers[0].status == Running
    requires CountedDown(s, k, r)
    ensures |r.timers| == 1 && r.timers[0].status == Running && r.logs == s.logs
    ensures r.timers[0].remainingTime == s.timers[0].remainingTime - k
    ensures var t, u := s.timers[0], r.timers[0];
            u.id == t.id && u.name == t.name && u.category == t.category && u.duration == t.duration
  {
  }

  /** The last tick of a lone running timer completes it, opens the
      completion notice on it, leaves the halfway notice alone and appends
      one log copying the timer. */
  lemma FinalTick(s: TimerState, logId: string, at: int)
    requires |s.timers| == 1 && s.timers[0].status == Running && s.timers[0].remainingTime <= 1
    ensures var t := s.timers[0];
            var r := TickThenLog(s, t.id, logId, at);
            && |r.timers| == 1
            && r.timers[0].remainingTime == 0 && r.timers[0].status == Completed
            && r.showCompletionModal && r.completedTimer == Some(r.timers[0])
            && r.showHalfwayAlert == s.showHalfwayAlert && r.halfwayAlertTimer == s.halfwayAlertTimer
            && r.logs == s.logs + [TimerLog(logId, t.id, t.name, t.category, t.duration, at)]
  {
    assert FirstIndexOf(s.timers, s.timers[0].id) == 0;
  }

  /** Restarting a completed timer (which the reducer allows) and ticking it
      completes it again at once, because `max(0, 0 - 1) = 0`, and the hook
      writes a second log. */
  lemma RestartCompletedCompletesAgain(s: TimerState, logId: string, at: int)
    requires |s.timers| == 1 && s.timers[0].status == Completed && s.timers[0].remainingTime == 0
    ensures var t := s.timers[0];
            var r := TickThenLog(Reduce(s, StartTimer(t.id)), t.id, logId, at);
            && r.timers[0].status == Completed && r.timers[0].remainingTime == 0
            && r.showCompletionModal
            && |r.logs| == |s.logs| + 1
            && r.logs[|s.logs|].timerId == t.id
  {
    var t := s.timers[0];
    var s1 := Reduce(s, StartTimer(t.id));
    assert s1.timers == [t.(status := Running)];
    FinalTick(s1, logId, at);
  }

  /** Adding a timer to the initial state and starting it leaves that one
      timer running and everything else empty. */
  lemma Launch(t0: Timer)
    ensures Reduce(Reduce(InitialState, AddTimer(t0)), StartTimer(t0.id))
              == InitialState.(timers := [t0.(status := Running)])
  {
    var s0 := Reduce(InitialState, AddTimer(t0));
    assert s0.timers == [t0];
  }

  /** A timer of `2 * n` seconds with the halfway alert, added and started,
      is after `n` ticks running with `n` seconds left, its alert fired and the
      halfway notice open; `n` more ticks complete it, open the completion
      notice and write exactly one log, with the full duration. */
  lemma EvenRun(n: nat, id: string, name: string, category: string, createdAt: int, logId: string, at: int)
    requires n >= 1
    ensures var t0 := Timer(id, name, 2 * n, category, Idle, 2 * n, true, false, createdAt);
            var s1 := Reduce(Reduce(InitialState, AddTimer(t0)), StartTimer(id));
            var mid := RunTicks(s1, id, n, logId, at);
            var end := RunTicks(mid, id, n, logId, at);
            && mid.timers == [t0.(status := Running, remainingTime := n, halfwayAlertTriggered := true)]
            && mid.showHalfwayAlert && mid.logs == [] && !mid.showCompletionModal
            && |end.timers| == 1
            && end.timers[0].remainingTime == 0 && end.timers[0].status == Completed
            && end.showCompletionModal
            && end.logs == [TimerLog(logId, id, name, category, 2 * n, at)]
  {
    var t0 := Timer(id, name, 2 * n, category, Idle, 2 * n, true, false, createdAt);
    Launch(t0);
    var s1 := InitialState.(timers := [t0.(status := Running)]);
    FirstHalf(s1, n, logId, at);
    SecondHalf(RunTicks(s1, id, n, logId, at), logId, at);
  }

  /** From a lone timer of `2 * n` seconds just started with the alert on and
      no notice open, `n` ticks reach halfway and open the halfway notice. */
  lemma FirstHalf(s: TimerState, n: nat, logId: string, at: int)
    requires n >= 1 && |s.timers| == 1 && s.logs == [] && !s.showCompletionModal && s.completedTimer.None?
    requires var t := s.timers[0];
             t.status == Running && t.duration == 2 * n && t.remainingTime == 2 * n
             && t.halfwayAlert && !t.halfwayAlertTriggered
    ensures var mid := RunTicks(s, s.timers[0].id, n, logId, at);
            && mid.timers == [s.timers[0].(remainingTime := n, halfwayAlertTriggered := true)]
            && mid.showHalfwayAlert && mid.logs == [] && !mid.showCompletionModal && mid.completedTimer.None?
  {
    Countdown(s, n, logId, at);
    HalfwayCounted(s, n, RunTicks(s, s.timers[0].id, n, logId, at));
  }

  /** Counted down by half its duration, the timer has half left and its
      flag set. */
  lemma HalfwayCounted(s: TimerState, n: nat, r: TimerState)
    requires n >= 1 && |s.timers| == 1
    requires var t := s.timers[0]; t.duration == 2 * n && t.remainingTime == 2 * n && t.halfwayAlert
    requires CountedDown(s, n, r)
    ensures r.timers == [s.timers[0].(remainingTime := n, halfwayAlertTriggered := true)]
  {
  }

  /** A lone running timer with `k` seconds left completes after `k` ticks,
      opens the completion notice and writes one log copying it. */
  lemma SecondHalf(s: TimerState, logId: string, at: int)
    requires |s.timers| == 1 && s.timers[0].status == Running && s.timers[0].remainingTime >= 1
    ensures var t := s.timers[0];
            var r := RunTicks(s, t.id, t.remainingTime, logId, at);
            && |r.timers| == 1 && r.timers[0].remainingTime == 0 && r.timers[0].status == Completed
            && r.showCompletionModal
            && r.logs == s.logs + [TimerLog(logId, t.id, t.name, t.category, t.duration, at)]
  {
    var k := s.timers[0].remainingTime;
    Countdown(s, k - 1, logId, at);
    CountedDownFields(s, k - 1, RunTicks(s, s.timers[0].id, k - 1, logId, at));
    FinalTick(RunTicks(s, s.timers[0].id, k - 1, logId, at), logId, at);
    LastOfRun(s, s.timers[0].id, k, logId, at);
  }

  /** A run of `n` ticks is the run of `n - 1` followed by one more. */
  lemma LastOfRun(s: TimerState, id: string, n: nat, logId: string, at: int)
    requires n >= 1
    ensures RunTicks(s, id, n, logId, at) == TickThenLog(RunTicks(s, id, n - 1, logId, at), id, logId, at)
  {
  }

  /** The two-minute case: 60 ticks to the halfway notice, 120 to completion. */
  lemma Scenario120(id: string, name: string, category: string, createdAt: int, logId: string, at: int)
    ensures var t0 := Timer(id, name, 120, category, Idle, 120, true, false, createdAt);
            var s1 := Reduce(Reduce(InitialState, AddTimer(t0)), StartTimer(id));
            var s60 := RunTicks(s1, id, 60, logId, at);
            var s120 := RunTicks(s60, id, 60, logId, at);
            && |s60.timers| == 1 && s60.timers[0].remainingTime == 60
            && s60.timers[0].halfwayAlertTriggered && s60.showHalfwayAlert
            && |s120.timers| == 1 && s120.timers[0].status == Completed && s120.showCompletionModal
            && s120.logs == [TimerLog(logId, id, name, category, 120, at)]
  {
    EvenRun(60, id, name, category, createdAt, logId, at);
  }

  /** A ten-second timer with the halfway alert: its flag and the halfway
      notice become true on the tick that leaves 5 seconds, not before, and
      stay true for the rest of the run. */
  lemma HalfwayAtFive(s: TimerState, k: nat, logId: string, at: int)
    requires |s.timers| == 1 && !s.showHalfwayAlert
    requires s.timers[0].status == Running && s.timers[0].duration == 10 && s.timers[0].remainingTime == 10
    requires s.timers[0].halfwayAlert && !s.timers[0].halfwayAlertTriggered
    requires k < 10
    ensures var r := RunTicks(s, s.timers[0].id, k, logId, at);
            && |r.timers| == 1 && r.timers[0].remainingTime == 10 - k
            && (r.timers[0].halfwayAlertTriggered <==> k >= 5)
            && (r.showHalfwayAlert <==> k >= 5)
  {
    Countdown(s, k, logId, at);
  }

  /** A one-second timer completes on its first tick; the completion notice
      opens and the halfway notice does not, although halfway and zero
      coincide (the halfway flag is still set by that tick). */
  lemma OneSecondTimer(s: TimerState, logId: string, at: int)
    requires |s.timers| == 1 && !s.showHalfwayAlert
    requires s.timers[0].status == Running && s.timers[0].duration == 1 && s.timers[0].remainingTime == 1
    requires s.timers[0].halfwayAlert && !s.timers[0].halfwayAlertTriggered
    ensures var r := TickThenLog(s, s.timers[0].id, logId, at);
            && r.timers[0].status == Completed && r.timers[0].remainingTime == 0
            && r.showCompletionModal && !r.showHalfwayAlert
            && r.timers[0].halfwayAlertTriggered
            && |r.logs| == |s.logs| + 1
  {
    FinalTick(s, logId, at);
    assert FirstIndexOf(s.timers, s.timers[0].id) == 0;
  }
}
