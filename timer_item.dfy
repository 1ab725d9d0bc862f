/**
 * One timer's card, src/components/TimerItem.tsx: the controls it offers for
 * each status, the intent each control dispatches, and the halfway badge.
 */
module TimerItem {
  import opened TimerTypes
  import opened TimerContext

  datatype Control = Start | Pause | Reset | Delete

  /** The buttons shown: Pause while running, Start while idle or paused,
      neither once completed; Reset and Delete always. */
  function Controls(t: Timer): (cs: set<Control>)
    ensures Reset in cs && Delete in cs
    ensures !(Start in cs && Pause in cs)
  {
    (if t.status == Running then {Pause} else if t.status != Completed then {Start} else {})
      + {Reset, Delete}
  }

  /** The intent a control dispatches, with the card's timer id. */
  function Intent(t: Timer, c: Control): (a: TimerAction)
  {
    match c
    case Start => StartTimer(t.id)
    case Pause => PauseTimer(t.id)
    case Reset => ResetTimer(t.id)
    case Delete => DeleteTimer(t.id)
  }

  /** The "Alert at 50%" badge. */
  predicate ShowsHalfwayBadge(t: Timer)
  {
    t.halfwayAlert && !t.halfwayAlertTriggered
  }

  /** Which controls each status offers. */
  lemma ControlsByStatus(t: Timer)
    ensures t.status == Running ==> Pause in Controls(t) && Start !in Controls(t)
    ensures t.status == Idle || t.status == Paused ==> Start in Controls(t) && Pause !in Controls(t)
    ensures t.status == Completed ==> Controls(t) == {Reset, Delete}
    ensures Start in Controls(t) <==> t.status == Idle || t.status == Paused
    ensures Pause in Controls(t) <==> t.status == Running
  {
  }

  /** No control on a card dispatches `START_TIMER` for a completed timer,
      nor `PAUSE_TIMER` for one that is not running. */
  lemma NoStartWhenCompleted(t: Timer, c: Control)
    requires c in Controls(t)
    ensures Intent(t, c) == StartTimer(t.id) ==> t.status != Completed
    ensures Intent(t, c) == PauseTimer(t.id) ==> t.status == Running
  {
  }

  /** Every offered control dispatches an intent about this timer only, which
      keeps the state invariant and the history; Start runs the timers with
      this id and Pause pauses them, leaving every other timer alone. */
  lemma ControlIntents(s: TimerState, t: Timer, c: Control)
    requires StateInv(s) && c in Controls(t)
    ensures StateInv(Reduce(s, Intent(t, c)))
    ensures Reduce(s, Intent(t, c)).logs == s.logs
    ensures c == Start || c == Pause ==>
              var r := Reduce(s, Intent(t, c));
              |r.timers| == |s.timers| &&
              forall i :: 0 <= i < |s.timers| ==>
                r.timers[i] == if s.timers[i].id == t.id
                               then s.timers[i].(status := if c == Start then Running else Paused)
                               else s.timers[i]
  {
    ReducePreservesInv(s, Intent(t, c));
    PerTimerActions(s, t.id);
  }

  /** The badge is shown while an alert is asked for and the halfway point
      has not been passed in this run; once a tick sets the flag, the badge
      is gone until the timer is reset, when it returns. */
  lemma BadgeLifecycle(t: Timer)
    ensures ShowsHalfwayBadge(t) <==> t.halfwayAlert && !t.halfwayAlertTriggered
    ensures IsHalfway(t) ==> ShowsHalfwayBadge(t) && !ShowsHalfwayBadge(Ticked(t))
    ensures t.halfwayAlertTriggered ==> !ShowsHalfwayBadge(Ticked(t))
    ensures ShowsHalfwayBadge(ResetOne(t)) <==> t.halfwayAlert
  {
  }
}
