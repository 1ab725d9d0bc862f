/**
 * The application state and its reducer (src/contexts/TimerContext.tsx):
 * a pure transition function from a state and an action to the next state,
 * and the provider's hook that turns a completion into a history entry.
 */
module TimerContext {
  import opened Wrappers
  import opened TimerTypes

  /** The timers in insertion order, the completion history in append order,
      and the two single-slot notices (a flag and the timer it shows). */
  datatype TimerState = TimerState(
    timers: seq<Timer>,
    logs: seq<TimerLog>,
    showCompletionModal: bool,
    completedTimer: Option<Timer>,
    showHalfwayAlert: bool,
    halfwayAlertTimer: Option<Timer>)

  /** The actions the reducer accepts. `CompleteTimer` carries the log id and
      the completion time, which the source reads from the clock. */
  datatype TimerAction =
    | AddTimer(timer: Timer)
    | UpdateTimer(timer: Timer)
    | DeleteTimer(id: string)
    | StartTimer(id: string)
    | PauseTimer(id: string)
    | ResetTimer(id: string)
    | CompleteTimer(timer: Timer, logId: string, completedAt: int)
    | TickTimer(id: string)
    | StartCategory(category: string)
    | PauseCategory(category: string)
    | ResetCategory(category: string)
    | CloseCompletionModal
    | ShowHalfwayAlert(timer: Timer)
    | CloseHalfwayAlert
    | InitTimers(initTimers: seq<Timer>, initLogs: seq<TimerLog>)

  const InitialState: TimerState := TimerState([], [], false, None, false, None)

  // ---------------------------------------------------------------------
  // List helpers: the `map`, `filter` and `find` the reducer is written with

  /** `ts.map(f)`. */
  function MapTimers(ts: seq<Timer>, f: Timer -> Timer): (r: seq<Timer>)
    ensures |r| == |ts|
    ensures forall i :: 0 <= i < |ts| ==> r[i] == f(ts[i])
  {
    seq(|ts|, i requires 0 <= i < |ts| => f(ts[i]))
  }

  /** `ts.filter(t => t.id !== id)`. */
  function WithoutId(ts: seq<Timer>, id: string): (r: seq<Timer>)
    ensures |r| <= |ts|
  {
    if ts == [] then [] else (if ts[0].id == id then [] else [ts[0]]) + WithoutId(ts[1..], id)
  }

  /** The position `ts.find(t => t.id === id)` stops at: the first timer with
      that id, or `|ts|` when there is none. */
  function FirstIndexOf(ts: seq<Timer>, id: string): (k: nat)
    ensures k <= |ts|
    ensures forall j :: 0 <= j < k ==> ts[j].id != id
    ensures k < |ts| ==> ts[k].id == id
  {
    if ts == [] then 0 else if ts[0].id == id then 0 else 1 + FirstIndexOf(ts[1..], id)
  }

  /** `ts.find(t => t.id === id)`. */
  function Find(ts: seq<Timer>, id: string): Option<Timer>
  {
    var k := FirstIndexOf(ts, id);
    if k < |ts| then Some(ts[k]) else None
  }

  predicate UniqueIds(ts: seq<Timer>)
  {
    forall i, j :: 0 <= i < j < |ts| ==> ts[i].id != ts[j].id
  }

  // ---------------------------------------------------------------------
  // What each action does to one timer

  function Started(t: Timer): Timer { t.(status := Running) }

  function PausedTimer(t: Timer): Timer { t.(status := Paused) }

  function ResetOne(t: Timer): Timer
  {
    t.(status := Idle, remainingTime := t.duration, halfwayAlertTriggered := false)
  }

  /** `Math.max(0, remainingTime - 1)`. */
  function NextRemaining(t: Timer): int
  {
    if t.remainingTime - 1 > 0 then t.remainingTime - 1 else 0
  }

  /** The halfway condition of a tick. The source compares with
      `duration / 2` in floating point; on whole numbers that is
      `2 * next <= duration`. */
  predicate IsHalfway(t: Timer)
  {
    t.halfwayAlert && !t.halfwayAlertTriggered && 2 * NextRemaining(t) <= t.duration
  }

  /** The timer after one second of countdown. */
  function Ticked(t: Timer): Timer
  {
    var next := NextRemaining(t);
    t.(remainingTime := next,
       status := if next == 0 then Completed else t.status,
       halfwayAlertTriggered := if IsHalfway(t) then true else t.halfwayAlertTriggered)
  }

  /** The log entry `COMPLETE_TIMER` appends for a timer. */
  function LogOf(t: Timer, logId: string, completedAt: int): TimerLog
  {
    TimerLog(logId, t.id, t.name, t.category, t.duration, completedAt)
  }

  // ---------------------------------------------------------------------
  // The reducer

  /** `TICK_TIMER`: a no-op unless the first timer with that id is running;
      otherwise every timer with that id becomes the ticked timer, and the
      completion notice (first) or the halfway notice (otherwise) opens. */
  function Tick(s: TimerState, id: string): TimerState
  {
    match Find(s.timers, id)
    case None => s
    case Some(timer) =>
      if timer.status != Running then s
      else
        var u := Ticked(timer);
        var ts := MapTimers(s.timers, (t: Timer) => if t.id == timer.id then u else t);
        if u.remainingTime == 0 then
          s.(timers := ts, showCompletionModal := true, completedTimer := Some(u))
        else if IsHalfway(timer) then
          s.(timers := ts, showHalfwayAlert := true, halfwayAlertTimer := Some(u))
        else
          s.(timers := ts)
  }

  function Reduce(s: TimerState, a: TimerAction): TimerState
  {
    match a
    case AddTimer(t) => s.(timers := s.timers + [t])
    case UpdateTimer(u) => s.(timers := MapTimers(s.timers, (t: Timer) => if t.id == u.id then u else t))
    case DeleteTimer(id) => s.(timers := WithoutId(s.timers, id))
    case StartTimer(id) => s.(timers := MapTimers(s.timers, (t: Timer) => if t.id == id then Started(t) else t))
    case PauseTimer(id) => s.(timers := MapTimers(s.timers, (t: Timer) => if t.id == id then PausedTimer(t) else t))
    case ResetTimer(id) => s.(timers := MapTimers(s.timers, (t: Timer) => if t.id == id then ResetOne(t) else t))
    case TickTimer(id) => Tick(s, id)
    case CompleteTimer(t, logId, at) => s.(logs := s.logs + [LogOf(t, logId, at)])
    case StartCategory(c) =>
      s.(timers := MapTimers(s.timers, (t: Timer) => if t.category == c && t.status != Completed then Started(t) else t))
    case PauseCategory(c) =>
      s.(timers := MapTimers(s.timers, (t: Timer) => if t.category == c && t.status == Running then PausedTimer(t) else t))
    case ResetCategory(c) =>
      s.(timers := MapTimers(s.timers, (t: Timer) => if t.category == c then ResetOne(t) else t))
    case CloseCompletionModal => s.(showCompletionModal := false, completedTimer := None)
    case ShowHalfwayAlert(t) => s.(showHalfwayAlert := true, halfwayAlertTimer := Some(t))
    case CloseHalfwayAlert => s.(showHalfwayAlert := false, halfwayAlertTimer := None)
    case InitTimers(ts, ls) => s.(timers := ts, logs := ls)
  }

  /** A tick that completes its timer: the first timer with the id is running
      and has at most one second left. */
  predicate IsCompletingTick(s: TimerState, id: string)
  {
    var k := FirstIndexOf(s.timers, id);
    k < |s.timers| && s.timers[k].status == Running && NextRemaining(s.timers[k]) == 0
  }

  /** One `TICK_TIMER` followed by the provider's completion hook: when the
      tick put a new timer into the completion slot, `COMPLETE_TIMER` is
      dispatched for it. The log id and timestamp are the clock's readings. */
  function TickThenLog(s: TimerState, id: string, logId: string, completedAt: int): TimerState
  {
    var s1 := Reduce(s, TickTimer(id));
    if IsCompletingTick(s, id) then
      match s1.completedTimer
      case Some(c) => Reduce(s1, CompleteTimer(c, logId, completedAt))
      case None => s1
    else s1
  }

  // ---------------------------------------------------------------------
  // Invariants

  /** Every timer is valid and each notice flag agrees with its slot. */
  predicate StateInv(s: TimerState)
  {
    && (forall i :: 0 <= i < |s.timers| ==> ValidTimer(s.timers[i]))
    && (s.showCompletionModal <==> s.completedTimer.Some?)
    && (s.showHalfwayAlert <==> s.halfwayAlertTimer.Some?)
  }

  /** The actions whose payload can carry an arbitrary timer bring only
      valid ones (the form builds valid timers; stored data is trusted). */
  predicate PayloadValid(a: TimerAction)
  {
    match a
    case AddTimer(t) => ValidTimer(t)
    case UpdateTimer(t) => ValidTimer(t)
    case InitTimers(ts, _) => forall i :: 0 <= i < |ts| ==> ValidTimer(ts[i])
    case _ => true
  }

  lemma InitialStateValid()
    ensures StateInv(InitialState) && InitialState.timers == [] && InitialState.logs == []
  {
  }

  lemma {:induction false} WithoutIdValid(ts: seq<Timer>, id: string)
    requires forall i :: 0 <= i < |ts| ==> ValidTimer(ts[i])
    ensures forall i :: 0 <= i < |WithoutId(ts, id)| ==> ValidTimer(WithoutId(ts, id)[i])
  {
    var r := WithoutId(ts, id);
    WithoutIdKeeps(ts, id);
    forall i | 0 <= i < |r| ensures ValidTimer(r[i]) {
      assert r[i] in r;
      var j :| 0 <= j < |ts| && ts[j] == r[i];
    }
  }

  /** A tick keeps a valid timer valid: the remaining time stays within
      `[0, duration]`, it completes only at 0, and the trigger needs the alert. */
  lemma TickedValid(t: Timer)
    requires ValidTimer(t)
    ensures ValidTimer(Ticked(t))
  {
  }

  /** Every action keeps the state invariant, provided a timer it carries in
      its payload is valid. */
  lemma ReducePreservesInv(s: TimerState, a: TimerAction)
    requires StateInv(s) && PayloadValid(a)
    ensures StateInv(Reduce(s, a))
  {
    if a.AddTimer? || a.UpdateTimer? || a.DeleteTimer? || a.InitTimers? {
      ListActionsKeepInv(s, a);
    } else if a.StartTimer? || a.PauseTimer? || a.ResetTimer?
           || a.StartCategory? || a.PauseCategory? || a.ResetCategory? {
      StatusActionsKeepInv(s, a);
    } else {
      NoticeActionsKeepInv(s, a);
    }
  }

  /** Adding, updating, deleting and reloading keep the invariant. */
  lemma ListActionsKeepInv(s: TimerState, a: TimerAction)
    requires StateInv(s) && PayloadValid(a)
    requires a.AddTimer? || a.UpdateTimer? || a.DeleteTimer? || a.InitTimers?
    ensures StateInv(Reduce(s, a))
  {
    if a.DeleteTimer? {
      WithoutIdValid(s.timers, a.id);
    }
  }

  /** The per-timer and per-category status changes keep the invariant. */
  lemma StatusActionsKeepInv(s: TimerState, a: TimerAction)
    requires StateInv(s)
    requires a.StartTimer? || a.PauseTimer? || a.ResetTimer? || a.StartCategory? || a.PauseCategory? || a.ResetCategory?
    ensures StateInv(Reduce(s, a))
  {
  }

  /** Ticks, completions and the notice actions keep the invariant. */
  lemma NoticeActionsKeepInv(s: TimerState, a: TimerAction)
    requires StateInv(s) && PayloadValid(a)
    requires !(a.AddTimer? || a.UpdateTimer? || a.DeleteTimer? || a.InitTimers?)
    requires !(a.StartTimer? || a.PauseTimer? || a.ResetTimer? || a.StartCategory? || a.PauseCategory? || a.ResetCategory?)
    ensures StateInv(Reduce(s, a))
  {
    if a.TickTimer? {
      var k := FirstIndexOf(s.timers, a.id);
      if k < |s.timers| {
        TickedValid(s.timers[k]);
      }
    }
  }

  /** The provider's compound step keeps the invariant too. */
  lemma TickThenLogPreservesInv(s: TimerState, id: string, logId: string, completedAt: int)
    requires StateInv(s)
    ensures StateInv(TickThenLog(s, id, logId, completedAt))
  {
    ReducePreservesInv(s, TickTimer(id));
    var s1 := Reduce(s, TickTimer(id));
    if IsCompletingTick(s, id) && s1.completedTimer.Some? {
      ReducePreservesInv(s1, CompleteTimer(s1.completedTimer.value, logId, completedAt));
    }
  }

  // ---------------------------------------------------------------------
  // TICK_TIMER

  /** A tick on a missing timer, or on one that is not running, changes nothing. */
  lemma TickNotRunningIsNoOp(s: TimerState, id: string, logId: string, at: int)
    requires Find(s.timers, id).None? || Find(s.timers, id).value.status != Running
    ensures Reduce(s, TickTimer(id)) == s
    ensures TickThenLog(s, id, logId, at) == s
  {
  }

  /** A tick on a running timer counts it down by one second, never below 0,
      replaces every timer with its id by the ticked timer, and leaves the
      other timers, their number and order, and the history unchanged. */
  lemma TickRunning(s: TimerState, id: string)
    requires Find(s.timers, id).Some? && Find(s.timers, id).value.status == Running
    ensures var t := Find(s.timers, id).value;
            var r := Reduce(s, TickTimer(id));
            && t.id == id
            && Ticked(t).remainingTime == (if t.remainingTime >= 1 then t.remainingTime - 1 else 0)
            && |r.timers| == |s.timers|
            && (forall i :: 0 <= i < |s.timers| ==>
                  r.timers[i] == if s.timers[i].id == id then Ticked(t) else s.timers[i])
            && r.logs == s.logs
  {
  }

  /** A tick completes its timer exactly when the new remaining time is 0;
      then the completion notice opens on the ticked timer and the halfway
      notice is left alone, even when halfway is crossed on the same tick. */
  lemma TickCompletion(s: TimerState, id: string)
    requires Find(s.timers, id).Some? && Find(s.timers, id).value.status == Running
    ensures var t := Find(s.timers, id).value;
            var r := Reduce(s, TickTimer(id));
            && (Ticked(t).status == Completed <==> Ticked(t).remainingTime == 0)
            && (Ticked(t).remainingTime == 0 ==>
                  && r.showCompletionModal && r.completedTimer == Some(Ticked(t))
                  && r.showHalfwayAlert == s.showHalfwayAlert
                  && r.halfwayAlertTimer == s.halfwayAlertTimer)
            && (Ticked(t).remainingTime != 0 ==>
                  r.showCompletionModal == s.showCompletionModal && r.completedTimer == s.completedTimer)
  {
  }

  /** The halfway trigger: the flag is set by a tick exactly when the alert is
      wanted, has not fired yet, and the new remaining time is at most half
      the duration; once set a tick keeps it; and the halfway notice opens on
      the ticked timer exactly when the trigger fires on a non-completing tick. */
  lemma TickHalfway(s: TimerState, id: string)
    requires Find(s.timers, id).Some? && Find(s.timers, id).value.status == Running
    ensures var t := Find(s.timers, id).value;
            var u := Ticked(t);
            var r := Reduce(s, TickTimer(id));
            && (!t.halfwayAlertTriggered && u.halfwayAlertTriggered <==>
                  t.halfwayAlert && !t.halfwayAlertTriggered && 2 * u.remainingTime <= t.duration)
            && (t.halfwayAlertTriggered ==> u.halfwayAlertTriggered)
            && (if IsHalfway(t) && u.remainingTime != 0
                then r.showHalfwayAlert && r.halfwayAlertTimer == Some(u)
                else r.showHalfwayAlert == s.showHalfwayAlert && r.halfwayAlertTimer == s.halfwayAlertTimer)
  {
  }

  /** Once triggered, the halfway flag survives every action other than a
      reset, an update, a reload and a deletion, so the alert fires at most
      once per run (timer ids assumed unique, as the id generator intends). */
  lemma TriggeredPersists(s: TimerState, a: TimerAction, i: nat)
    requires UniqueIds(s.timers)
    requires !a.ResetTimer? && !a.ResetCategory? && !a.UpdateTimer? && !a.InitTimers? && !a.DeleteTimer?
    requires i < |s.timers| && s.timers[i].halfwayAlertTriggered
    ensures i < |Reduce(s, a).timers| && Reduce(s, a).timers[i].halfwayAlertTriggered
  {
    if a.TickTimer? {
      TickKeepsTriggered(s, a.id, i);
    }
  }

  /** A tick replaces only timers with the ticked one's id; with unique ids
      that is the ticked timer itself, whose flag a tick never clears. */
  lemma TickKeepsTriggered(s: TimerState, id: string, i: nat)
    requires UniqueIds(s.timers)
    requires i < |s.timers| && s.timers[i].halfwayAlertTriggered
    ensures i < |Tick(s, id).timers| && Tick(s, id).timers[i].halfwayAlertTriggered
  {
    var k := FirstIndexOf(s.timers, id);
    if k < |s.timers| && s.timers[k].status == Running && s.timers[i].id == s.timers[k].id {
      assert i == k;
    }
  }

  /** A tick on a timer whose alert has already fired never opens the halfway notice. */
  lemma TriggeredNeverReopens(s: TimerState, id: string)
    requires Find(s.timers, id).Some? && Find(s.timers, id).value.halfwayAlertTriggered
    ensures Reduce(s, TickTimer(id)).showHalfwayAlert == s.showHalfwayAlert
    ensures Reduce(s, TickTimer(id)).halfwayAlertTimer == s.halfwayAlertTimer
  {
  }

  // ---------------------------------------------------------------------
  // Per-timer actions

  /** `START_TIMER` runs every timer with the id whatever its status, a
      completed one included; `PAUSE_TIMER` pauses them whatever their
      status; `RESET_TIMER` makes them idle with the full duration left and
      the halfway flag cleared. Other timers, the history and the notices are
      untouched. */
  lemma PerTimerActions(s: TimerState, id: string)
    ensures var r := Reduce(s, StartTimer(id));
            |r.timers| == |s.timers| && r.logs == s.logs && r.(timers := s.timers) == s &&
            forall i :: 0 <= i < |s.timers| ==>
              r.timers[i] == if s.timers[i].id == id then s.timers[i].(status := Running) else s.timers[i]
    ensures var r := Reduce(s, PauseTimer(id));
            |r.timers| == |s.timers| && r.logs == s.logs && r.(timers := s.timers) == s &&
            forall i :: 0 <= i < |s.timers| ==>
              r.timers[i] == if s.timers[i].id == id then s.timers[i].(status := Paused) else s.timers[i]
    ensures var r := Reduce(s, ResetTimer(id));
            |r.timers| == |s.timers| && r.logs == s.logs && r.(timers := s.timers) == s &&
            forall i :: 0 <= i < |s.timers| ==>
              if s.timers[i].id == id then
                && r.timers[i].status == Idle
                && r.timers[i].remainingTime == s.timers[i].duration
                && !r.timers[i].halfwayAlertTriggered
                && r.timers[i] == s.timers[i].(status := Idle, remainingTime := s.timers[i].duration,
                                               halfwayAlertTriggered := false)
              else r.timers[i] == s.timers[i]
  {
  }

  // ---------------------------------------------------------------------
  // Category actions

  /** `START_CATEGORY` runs the timers of the category that are not completed;
      `PAUSE_CATEGORY` pauses those of the category that are running;
      `RESET_CATEGORY` resets every timer of the category whatever its status.
      Timers of other categories, the history and the notices are unchanged. */
  lemma CategoryActions(s: TimerState, c: string)
    ensures var r := Reduce(s, StartCategory(c));
            |r.timers| == |s.timers| && r.logs == s.logs && r.(timers := s.timers) == s &&
            forall i :: 0 <= i < |s.timers| ==>
              r.timers[i] == if s.timers[i].category == c && s.timers[i].status != Completed
                             then s.timers[i].(status := Running) else s.timers[i]
    ensures var r := Reduce(s, PauseCategory(c));
            |r.timers| == |s.timers| && r.logs == s.logs && r.(timers := s.timers) == s &&
            forall i :: 0 <= i < |s.timers| ==>
              r.timers[i] == if s.timers[i].category == c && s.timers[i].status == Running
                             then s.timers[i].(status := Paused) else s.timers[i]
    ensures var r := Reduce(s, ResetCategory(c));
            |r.timers| == |s.timers| && r.logs == s.logs && r.(timers := s.timers) == s &&
            forall i :: 0 <= i < |s.timers| ==>
              if s.timers[i].category == c then
                && r.timers[i].status == Idle
                && r.timers[i].remainingTime == s.timers[i].duration
                && !r.timers[i].halfwayAlertTriggered
                && r.timers[i] == s.timers[i].(status := Idle, remainingTime := s.timers[i].duration,
                                               halfwayAlertTriggered := false)
              else r.timers[i] == s.timers[i]
  {
  }

  // ---------------------------------------------------------------------
  // Adding, deleting, logging

  /** `ADD_TIMER` appends the timer at the end and changes nothing else. */
  lemma AddAppends(s: TimerState, t: Timer)
    ensures var r := Reduce(s, AddTimer(t));
            |r.timers| == |s.timers| + 1 && r.timers[..|s.timers|] == s.timers && r.timers[|s.timers|] == t
            && r.(timers := s.timers) == s
  {
    var r := Reduce(s, AddTimer(t));
    assert r.timers[..|s.timers|] == s.timers;
  }

  lemma {:induction false} WithoutIdKeeps(ts: seq<Timer>, id: string)
    ensures forall t :: t in WithoutId(ts, id) <==> t in ts && t.id != id
    ensures (forall i :: 0 <= i < |ts| ==> ts[i].id != id) ==> WithoutId(ts, id) == ts
  {
    if ts != [] {
      WithoutIdKeeps(ts[1..], id);
      assert ts == [ts[0]] + ts[1..];
    }
  }

  /** Filtering a concatenation filters each part, so the kept timers stay
      in their order. */
  lemma {:induction false} WithoutIdAppend(a: seq<Timer>, b: seq<Timer>, id: string)
    ensures WithoutId(a + b, id) == WithoutId(a, id) + WithoutId(b, id)
  {
    if a == [] {
      assert a + b == b;
    } else {
      var c := a + b;
      assert c[0] == a[0] && c[1..] == a[1..] + b;
      WithoutIdAppend(a[1..], b, id);
    }
  }

  /** The filter keeps each timer without the id as often as it occurs
      and drops every one with it. */
  lemma {:induction false} WithoutIdCount(ts: seq<Timer>, id: string)
    ensures forall t :: multiset(WithoutId(ts, id))[t] == if t.id != id then multiset(ts)[t] else 0
  {
    if ts != [] {
      WithoutIdCount(ts[1..], id);
      assert ts == [ts[0]] + ts[1..];
    }
  }

  /** Deleting the id of the one timer between two runs without it leaves
      the two runs. */
  lemma DeleteMiddle(a: seq<Timer>, x: Timer, b: seq<Timer>, id: string)
    requires x.id == id
    requires forall i :: 0 <= i < |a| ==> a[i].id != id
    requires forall i :: 0 <= i < |b| ==> b[i].id != id
    ensures WithoutId(a + [x] + b, id) == a + b
  {
    WithoutIdAppend(a + [x], b, id);
    WithoutIdAppend(a, [x], id);
    WithoutIdNone(a, id);
    WithoutIdNone(b, id);
    assert WithoutId([x], id) == [] by {
      assert [x][1..] == [];
    }
    assert a + [] == a;
  }

  /** A list without the id is kept whole. */
  lemma {:induction false} WithoutIdNone(ts: seq<Timer>, id: string)
    requires forall i :: 0 <= i < |ts| ==> ts[i].id != id
    ensures WithoutId(ts, id) == ts
  {
    if ts != [] {
      assert forall i :: 0 <= i < |ts[1..]| ==> ts[1..][i] == ts[i + 1];
      WithoutIdNone(ts[1..], id);
      assert ts == [ts[0]] + ts[1..];
    }
  }

  /** With unique ids, deleting a present id removes exactly the one timer
      that has it and keeps the others in order. */
  lemma WithoutIdUnique(ts: seq<Timer>, id: string)
    requires UniqueIds(ts) && FirstIndexOf(ts, id) < |ts|
    ensures var k := FirstIndexOf(ts, id);
            WithoutId(ts, id) == ts[..k] + ts[k + 1..]
  {
    var k := FirstIndexOf(ts, id);
    var a, b := ts[..k], ts[k + 1..];
    forall i | 0 <= i < |b| ensures b[i].id != id {
      assert b[i] == ts[k + 1 + i];
    }
    assert ts == a + [ts[k]] + b;
    DeleteMiddle(a, ts[k], b, id);
  }

  /** `DELETE_TIMER` removes every timer with the id and keeps every other
      one as often as it was there. It is a no-op when no timer has the
      id, and it touches nothing but the list, so the logs of a deleted
      timer stay. */
  lemma DeleteRemoves(s: TimerState, id: string)
    ensures var r := Reduce(s, DeleteTimer(id));
            && (forall t :: t in r.timers <==> t in s.timers && t.id != id)
            && (forall t :: multiset(r.timers)[t] == if t.id != id then multiset(s.timers)[t] else 0)
            && r.(timers := s.timers) == s
            && ((forall i :: 0 <= i < |s.timers| ==> s.timers[i].id != id) ==> r == s)
  {
    WithoutIdKeeps(s.timers, id);
    WithoutIdCount(s.timers, id);
  }

  /** With unique ids, deleting a present timer takes exactly it out of the
      list and keeps the others in their order. */
  lemma DeleteUnique(s: TimerState, id: string)
    requires UniqueIds(s.timers) && FirstIndexOf(s.timers, id) < |s.timers|
    ensures var k := FirstIndexOf(s.timers, id);
            Reduce(s, DeleteTimer(id)).timers == s.timers[..k] + s.timers[k + 1..]
  {
    WithoutIdUnique(s.timers, id);
  }

  /** `COMPLETE_TIMER` appends exactly one log copying the timer's id, name,
      category and duration, and changes nothing else. */
  lemma CompleteAppendsLog(s: TimerState, t: Timer, logId: string, at: int)
    ensures var r := Reduce(s, CompleteTimer(t, logId, at));
            && |r.logs| == |s.logs| + 1 && r.logs[..|s.logs|] == s.logs
            && r.logs[|s.logs|].timerId == t.id && r.logs[|s.logs|].name == t.name
            && r.logs[|s.logs|].category == t.category && r.logs[|s.logs|].duration == t.duration
            && r.logs[|s.logs|].id == logId && r.logs[|s.logs|].completedAt == at
            && r.(logs := s.logs) == s
  {
    var r := Reduce(s, CompleteTimer(t, logId, at));
    assert r.logs[..|s.logs|] == s.logs;
  }

  // ---------------------------------------------------------------------
  // Notices

  /** Closing a notice clears its slot, leaves the other slot and the lists
      alone, and closing twice is the same as closing once. */
  lemma CloseNotices(s: TimerState)
    ensures var r := Reduce(s, CloseCompletionModal);
            !r.showCompletionModal && r.completedTimer.None? && Reduce(r, CloseCompletionModal) == r
            && r.(showCompletionModal := s.showCompletionModal, completedTimer := s.completedTimer) == s
    ensures var r := Reduce(s, CloseHalfwayAlert);
            !r.showHalfwayAlert && r.halfwayAlertTimer.None? && Reduce(r, CloseHalfwayAlert) == r
            && r.(showHalfwayAlert := s.showHalfwayAlert, halfwayAlertTimer := s.halfwayAlertTimer) == s
  {
  }

  /** Opening the halfway notice directly overwrites whatever it showed and
      changes nothing else. */
  lemma ShowHalfwayOverwrites(s: TimerState, t: Timer)
    ensures Reduce(s, ShowHalfwayAlert(t)).halfwayAlertTimer == Some(t)
    ensures Reduce(s, ShowHalfwayAlert(t)).showHalfwayAlert
    ensures Reduce(s, ShowHalfwayAlert(t)).(showHalfwayAlert := s.showHalfwayAlert, halfwayAlertTimer := s.halfwayAlertTimer) == s
  {
  }

  // ---------------------------------------------------------------------
  // The completion hook

  /** The compound step logs exactly once on a completing tick, copying the
      completed timer, and never on any other tick; everything but the logs
      is as the tick left it. */
  lemma TickThenLogLogs(s: TimerState, id: string, logId: string, at: int)
    ensures var r := TickThenLog(s, id, logId, at);
            var s1 := Reduce(s, TickTimer(id));
            && r.(logs := s1.logs) == s1
            && (IsCompletingTick(s, id) ==>
                  var t := Find(s.timers, id).value;
                  r.logs == s.logs + [TimerLog(logId, t.id, t.name, t.category, t.duration, at)]
                  && r.completedTimer == Some(Ticked(t)) && Ticked(t).status == Completed)
            && (!IsCompletingTick(s, id) ==> r == s1 && r.logs == s.logs)
  {
  }

}
