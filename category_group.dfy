/**
 * One category's panel, src/components/CategoryGroup.tsx: its two counters
 * and its three bulk buttons. The panel is handed the group of its category,
 * `InCategory(timers, category)`, and each button issues a single intent.
 */
module CategoryGroup {
  import opened TimerTypes
  import opened TimerContext
  import opened TimerUtils

  /** `timers.filter(t => t.status === st)`. */
  function WithStatus(ts: seq<Timer>, st: Status): (r: seq<Timer>)
    ensures |r| <= |ts|
  {
    if ts == [] then [] else (if ts[0].status == st then [ts[0]] else []) + WithStatus(ts[1..], st)
  }

  /** The filtered timers are exactly the members with the status. */
  lemma {:induction false} WithStatusMembers(ts: seq<Timer>, st: Status)
    ensures forall t :: t in WithStatus(ts, st) <==> t in ts && t.status == st
  {
    if ts != [] {
      WithStatusMembers(ts[1..], st);
      assert ts == [ts[0]] + ts[1..];
    }
  }

  /** The filter keeps each timer with the status as often as it occurs and
      drops every other one, so a badge counts the entries, repeated ones
      included. */
  lemma {:induction false} WithStatusCount(ts: seq<Timer>, st: Status)
    ensures forall t :: multiset(WithStatus(ts, st))[t] == if t.status == st then multiset(ts)[t] else 0
  {
    if ts != [] {
      WithStatusCount(ts[1..], st);
      assert ts == [ts[0]] + ts[1..];
    }
  }

  /** Filtering a concatenation filters each part, in order. */
  lemma {:induction false} WithStatusAppend(a: seq<Timer>, b: seq<Timer>, st: Status)
    ensures WithStatus(a + b, st) == WithStatus(a, st) + WithStatus(b, st)
  {
    if a == [] {
      assert a + b == b;
    } else {
      var c := a + b;
      assert c[0] == a[0] && c[1..] == a[1..] + b;
      WithStatusAppend(a[1..], b, st);
    }
  }

  /** The "Running" badge. */
  function RunningCount(ts: seq<Timer>): nat
  {
    |WithStatus(ts, Running)|
  }

  /** The "Completed" badge. */
  function CompletedCount(ts: seq<Timer>): nat
  {
    |WithStatus(ts, Completed)|
  }

  /** No timer is counted by both badges. */
  lemma {:induction false} CountsBounded(ts: seq<Timer>)
    ensures RunningCount(ts) + CompletedCount(ts) <= |ts|
  {
    if ts != [] {
      CountsBounded(ts[1..]);
    }
  }

  /** Each badge counts exactly the members with its status: zero when none
      has it and the whole length when all have it. */
  lemma {:induction false} CountExtremes(ts: seq<Timer>, st: Status)
    ensures (forall i :: 0 <= i < |ts| ==> ts[i].status != st) ==> |WithStatus(ts, st)| == 0
    ensures (forall i :: 0 <= i < |ts| ==> ts[i].status == st) ==> |WithStatus(ts, st)| == |ts|
  {
    if ts != [] {
      CountExtremes(ts[1..], st);
      assert forall i :: 0 <= i < |ts[1..]| ==> ts[1..][i] == ts[i + 1];
    }
  }

  // ---------------------------------------------------------------------
  // Bulk buttons

  datatype BulkControl = StartAll | PauseAll | ResetAll

  /** The one intent each button dispatches, carrying the panel's category. */
  function BulkIntent(category: string, b: BulkControl): (a: TimerAction)
    ensures a == StartCategory(category) || a == PauseCategory(category) || a == ResetCategory(category)
  {
    match b
    case StartAll => StartCategory(category)
    case PauseAll => PauseCategory(category)
    case ResetAll => ResetCategory(category)
  }

  /** The group of a list whose timers are changed pointwise by `f`, which
      keeps each timer's category, is the old group changed by `f`. */
  lemma {:induction false} InCategoryPointwise(ts: seq<Timer>, us: seq<Timer>, c: string, f: Timer -> Timer)
    requires |us| == |ts|
    requires forall i :: 0 <= i < |ts| ==> us[i] == f(ts[i])
    requires forall i :: 0 <= i < |ts| ==> f(ts[i]).category == ts[i].category
    ensures InCategory(us, c) == MapTimers(InCategory(ts, c), f)
    decreases |ts|
  {
    if ts != [] {
      var n := |ts| - 1;
      InCategoryPointwise(ts[..n], us[..n], c, f);
      var g := InCategory(ts[..n], c);
      if ts[n].category == c {
        assert InCategory(ts, c) == g + [ts[n]];
        assert MapTimers(g + [ts[n]], f) == MapTimers(g, f) + [f(ts[n])];
      }
    }
  }

  function StartIn(c: string, t: Timer): Timer
  {
    if t.category == c && t.status != Completed then t.(status := Running) else t
  }

  function PauseIn(c: string, t: Timer): Timer
  {
    if t.category == c && t.status == Running then t.(status := Paused) else t
  }

  function ResetIn(c: string, t: Timer): Timer
  {
    if t.category == c then t.(status := Idle, remainingTime := t.duration, halfwayAlertTriggered := false) else t
  }

  /** Starting a group runs every member but the completed ones. */
  lemma {:induction false} StartedCounts(g: seq<Timer>, c: string)
    requires forall i :: 0 <= i < |g| ==> g[i].category == c
    ensures var h := MapTimers(g, (t: Timer) => StartIn(c, t));
            && CompletedCount(h) == CompletedCount(g)
            && RunningCount(h) == |g| - CompletedCount(g)
  {
    if g != [] {
      StartedCounts(g[1..], c);
      var f := (t: Timer) => StartIn(c, t);
      assert MapTimers(g, f) == [f(g[0])] + MapTimers(g[1..], f);
    }
  }

  /** Pausing a group leaves none of it running and keeps the completed ones. */
  lemma {:induction false} PausedCounts(g: seq<Timer>, c: string)
    requires forall i :: 0 <= i < |g| ==> g[i].category == c
    ensures var h := MapTimers(g, (t: Timer) => PauseIn(c, t));
            && RunningCount(h) == 0
            && CompletedCount(h) == CompletedCount(g)
  {
    if g != [] {
      PausedCounts(g[1..], c);
      var f := (t: Timer) => PauseIn(c, t);
      assert MapTimers(g, f) == [f(g[0])] + MapTimers(g[1..], f);
    }
  }

  /** Resetting a group leaves every member idle. */
  lemma ResetCounts(g: seq<Timer>, c: string)
    requires forall i :: 0 <= i < |g| ==> g[i].category == c
    ensures var h := MapTimers(g, (t: Timer) => ResetIn(c, t));
            RunningCount(h) == 0 && CompletedCount(h) == 0
  {
    var h := MapTimers(g, (t: Timer) => ResetIn(c, t));
    CountExtremes(h, Running);
    CountExtremes(h, Completed);
  }

  lemma GroupMembers(ts: seq<Timer>, c: string)
    ensures forall i :: 0 <= i < |InCategory(ts, c)| ==> InCategory(ts, c)[i].category == c
  {
    InCategoryMembers(ts, c);
    forall i | 0 <= i < |InCategory(ts, c)| ensures InCategory(ts, c)[i].category == c {
      assert InCategory(ts, c)[i] in InCategory(ts, c);
    }
  }

  /** After "Start All" the panel shows every member running except the
      completed ones: `runningCount == length - completedCount`, with the
      group's length and completed count as before. */
  lemma StartAllCounts(s: TimerState, c: string)
    ensures var g, h := InCategory(s.timers, c), InCategory(Reduce(s, BulkIntent(c, StartAll)).timers, c);
            && |h| == |g| && CompletedCount(h) == CompletedCount(g)
            && RunningCount(h) == |h| - CompletedCount(h)
  {
    var f := (t: Timer) => StartIn(c, t);
    CategoryActions(s, c);
    InCategoryPointwise(s.timers, Reduce(s, StartCategory(c)).timers, c, f);
    GroupMembers(s.timers, c);
    StartedCounts(InCategory(s.timers, c), c);
  }

  /** After "Pause All" no member is running; completed members stay. */
  lemma PauseAllCounts(s: TimerState, c: string)
    ensures var g, h := InCategory(s.timers, c), InCategory(Reduce(s, BulkIntent(c, PauseAll)).timers, c);
            && |h| == |g| && RunningCount(h) == 0 && CompletedCount(h) == CompletedCount(g)
  {
    var f := (t: Timer) => PauseIn(c, t);
    CategoryActions(s, c);
    InCategoryPointwise(s.timers, Reduce(s, PauseCategory(c)).timers, c, f);
    GroupMembers(s.timers, c);
    PausedCounts(InCategory(s.timers, c), c);
  }

  /** After "Reset All" both badges read zero. */
  lemma ResetAllCounts(s: TimerState, c: string)
    ensures var g, h := InCategory(s.timers, c), InCategory(Reduce(s, BulkIntent(c, ResetAll)).timers, c);
            && |h| == |g| && RunningCount(h) == 0 && CompletedCount(h) == 0
  {
    var f := (t: Timer) => ResetIn(c, t);
    CategoryActions(s, c);
    InCategoryPointwise(s.timers, Reduce(s, ResetCategory(c)).timers, c, f);
    GroupMembers(s.timers, c);
    ResetCounts(InCategory(s.timers, c), c);
  }
}
