/**
 * The timer-creation form of src/components/TimerForm.tsx: the clamped
 * number inputs, the duration they add up to, the validation run on submit,
 * the timer it builds and the one `ADD_TIMER` intent it issues, and the
 * category suggestions offered beside the category field.
 */
module TimerForm {
  import opened Wrappers
  import opened TimerTypes
  import opened JsBuiltins
  import opened TimerContext
  import opened TimerUtils

  /** What the form holds when it is submitted. */
  datatype FormInput = FormInput(
    name: string,
    hours: int,
    minutes: int,
    seconds: int,
    category: string,
    halfwayAlert: bool)

  /** The three validation failures, in the order they are checked. */
  datatype FormError = NameRequired | DurationNotPositive | CategoryRequired

  /** The message the form shows for each failure. */
  function Message(e: FormError): (m: string)
    ensures m != []
  {
    match e
    case NameRequired => "Timer name is required"
    case DurationNotPositive => "Timer duration must be greater than 0"
    case CategoryRequired => "Category is required"
  }

  /** The total duration in seconds. */
  function Duration(f: FormInput): int
  {
    f.hours * 3600 + f.minutes * 60 + f.seconds
  }

  // ---------------------------------------------------------------------
  // Submitting

  /** `handleSubmit`: the first failing check, in the order name, duration,
      category; otherwise the new timer, built from the trimmed name and
      category, idle, with its full duration left and its alert not yet
      fired. `id` and `now` stand for `generateId()` and `Date.now()`. */
  function Submit(f: FormInput, id: string, now: int): (r: Result<Timer, FormError>)
    ensures r.Success? ==>
              && ValidTimer(r.value) && r.value.status == Idle
              && r.value.duration > 0 && r.value.remainingTime == r.value.duration
              && !r.value.halfwayAlertTriggered
              && r.value.name != [] && r.value.category != []
  {
    var name, d, category := Trim(f.name), Duration(f), Trim(f.category);
    if name == [] then Failure(NameRequired)
    else if d <= 0 then Failure(DurationNotPositive)
    else if category == [] then Failure(CategoryRequired)
    else Success(Timer(id, name, d, category, Idle, d, f.halfwayAlert, false, now))
  }

  /** The validation order: a name of nothing but white space is reported
      first, whatever else is wrong; a non-positive duration next; a blank
      category last. */
  lemma ValidationOrder(f: FormInput, id: string, now: int)
    ensures (forall k :: 0 <= k < |f.name| ==> IsWhiteSpace(f.name[k]))
              ==> Submit(f, id, now) == Failure(NameRequired)
    ensures Trim(f.name) != [] && Duration(f) <= 0 ==> Submit(f, id, now) == Failure(DurationNotPositive)
    ensures (Trim(f.name) != [] && Duration(f) > 0 && forall k :: 0 <= k < |f.category| ==> IsWhiteSpace(f.category[k]))
              ==> Submit(f, id, now) == Failure(CategoryRequired)
  {
    TrimEmptyIff(f.name);
    TrimEmptyIff(f.category);
  }

  /** A form that passes all three checks is accepted, with a timer that
      copies the duration, the alert choice, the id and the time, and whose
      name and category have no white space at either end. */
  lemma SubmitAccepts(f: FormInput, id: string, now: int)
    ensures Submit(f, id, now).Success? <==> Trim(f.name) != [] && Duration(f) > 0 && Trim(f.category) != []
    ensures Submit(f, id, now).Success? ==>
              var t := Submit(f, id, now).value;
              && t.id == id && t.createdAt == now && t.halfwayAlert == f.halfwayAlert
              && t.duration == f.hours * 3600 + f.minutes * 60 + f.seconds
              && t.name == Trim(f.name) && t.category == Trim(f.category)
  {
  }

  lemma SubmittedTrimmed(f: FormInput, id: string, now: int)
    requires Submit(f, id, now).Success?
    ensures var t := Submit(f, id, now).value;
            && !IsWhiteSpace(t.name[0]) && !IsWhiteSpace(t.name[|t.name| - 1])
            && !IsWhiteSpace(t.category[0]) && !IsWhiteSpace(t.category[|t.category| - 1])
  {
    SubmitAccepts(f, id, now);
  }

  /** The intent the submit issues: `ADD_TIMER` with the new timer, or none. */
  function SubmitIntent(f: FormInput, id: string, now: int): Option<TimerAction>
  {
    match Submit(f, id, now)
    case Success(t) => Some(AddTimer(t))
    case Failure(_) => None
  }

  /** The provider state after a submit. */
  function AfterSubmit(s: TimerState, f: FormInput, id: string, now: int): TimerState
  {
    match SubmitIntent(f, id, now)
    case Some(a) => Reduce(s, a)
    case None => s
  }

  /** A rejected form leaves the state as it was; an accepted one appends its
      timer at the end and touches nothing else. Either way the state
      invariant is kept. */
  lemma SubmitEffect(s: TimerState, f: FormInput, id: string, now: int)
    requires StateInv(s)
    ensures StateInv(AfterSubmit(s, f, id, now))
    ensures Submit(f, id, now).Failure? ==> AfterSubmit(s, f, id, now) == s
    ensures Submit(f, id, now).Success? ==>
              AfterSubmit(s, f, id, now) == s.(timers := s.timers + [Submit(f, id, now).value])
  {
    if Submit(f, id, now).Success? {
      ReducePreservesInv(s, AddTimer(Submit(f, id, now).value));
    }
  }

  // ---------------------------------------------------------------------
  // The number inputs

  /** `Math.max(0, parseInt(v) || 0)` for the hours field. `p` is what
      `parseInt` returns, `None` for `NaN`. */
  function ClampHours(p: Option<int>): (r: int)
    ensures r >= 0
    ensures p.Some? && p.value >= 0 ==> r == p.value
    ensures p.None? || p.value <= 0 ==> r == 0
  {
    var v := if p.None? || p.value == 0 then 0 else p.value;
    if v < 0 then 0 else v
  }

  /** `Math.max(0, Math.min(59, parseInt(v) || 0))` for minutes and seconds. */
  function ClampMinSec(p: Option<int>): (r: int)
    ensures 0 <= r <= 59
    ensures p.Some? && 0 <= p.value <= 59 ==> r == p.value
    ensures p.Some? && p.value > 59 ==> r == 59
    ensures p.None? || p.value <= 0 ==> r == 0
  {
    var v := if p.None? || p.value == 0 then 0 else p.value;
    var w := if v < 59 then v else 59;
    if w < 0 then 0 else w
  }

  /** The form as the inputs leave it: hours from the hours field, minutes
      and seconds from theirs, name, category and alert choice as typed. */
  function Entered(name: string, ph: Option<int>, pm: Option<int>, ps: Option<int>,
                   category: string, alert: bool): (f: FormInput)
    ensures f.hours >= 0 && 0 <= f.minutes <= 59 && 0 <= f.seconds <= 59
  {
    FormInput(name, ClampHours(ph), ClampMinSec(pm), ClampMinSec(ps), category, alert)
  }

  /** With clamped inputs the duration is never negative, is positive exactly
      when some field is, and splits back on the clock into the three fields
      it was made of. */
  lemma ClampedDuration(f: FormInput)
    requires f.hours >= 0 && 0 <= f.minutes <= 59 && 0 <= f.seconds <= 59
    ensures Duration(f) >= 0
    ensures Duration(f) > 0 <==> f.hours > 0 || f.minutes > 0 || f.seconds > 0
    ensures Duration(f) / 3600 == f.hours && (Duration(f) % 3600) / 60 == f.minutes && Duration(f) % 60 == f.seconds
  {
    var d := Duration(f);
    var q := f.minutes * 60 + f.seconds;
    assert 0 <= q < 3600;
    assert d == 3600 * f.hours + q;
    assert d % 3600 == q && d / 3600 == f.hours by {
      DivMod3600(d, f.hours, q);
    }
    Mod60Unique(q, f.minutes, f.seconds);
    assert q / 60 == f.minutes;
    Mod60Unique(d, 60 * f.hours + f.minutes, f.seconds);
  }

  lemma DivMod3600(d: int, h: int, q: int)
    requires d == 3600 * h + q && 0 <= q < 3600
    ensures d / 3600 == h && d % 3600 == q
  {
    var h', q' := d / 3600, d % 3600;
    assert d == 3600 * h' + q';
    assert 3600 * (h - h') == q' - q;
  }

  /** A form filled through its inputs is refused for its duration exactly
      when all three number fields are zero (and the name is not blank). */
  lemma ZeroDurationRefused(name: string, ph: Option<int>, pm: Option<int>, ps: Option<int>,
                            category: string, alert: bool, id: string, now: int)
    requires Trim(name) != []
    ensures var f := Entered(name, ph, pm, ps, category, alert);
            Submit(f, id, now) == Failure(DurationNotPositive) <==> f.hours == 0 && f.minutes == 0 && f.seconds == 0
  {
    ClampedDuration(Entered(name, ph, pm, ps, category, alert));
  }

  // ---------------------------------------------------------------------
  // Category suggestions

  /** `[...new Set(timers.map(t => t.category))]`: every category in the
      order of its first appearance. */
  function Suggestions(ts: seq<Timer>): (r: seq<string>)
    ensures NoDuplicates(r)
    ensures forall c :: c in r <==> c in CategoriesOf(ts)
  {
    if ts == [] then []
    else
      var p, t := Suggestions(ts[..|ts| - 1]), ts[|ts| - 1];
      assert CategoriesOf(ts) == CategoriesOf(ts[..|ts| - 1]) + {t.category} by {
        forall c | c in CategoriesOf(ts) ensures c in CategoriesOf(ts[..|ts| - 1]) + {t.category} {
          var i :| 0 <= i < |ts| && ts[i].category == c;
          if i < |ts| - 1 {
            assert ts[..|ts| - 1][i] == ts[i];
          }
        }
      }
      if t.category in p then p else p + [t.category]
  }

  /** The suggestions name each category once, so their groups together hold
      every timer exactly once. */
  lemma SuggestionsCoverTimers(ts: seq<Timer>)
    ensures SumSizes(ts, Suggestions(ts)) == |ts|
  {
    forall i | 0 <= i < |ts| ensures ts[i].category in Suggestions(ts) {
      assert ts[i].category in CategoriesOf(ts);
    }
    GroupSizesSum(ts, Suggestions(ts));
  }

  /** The first suggestion is the first timer's category. */
  lemma {:induction false} SuggestionsFirst(ts: seq<Timer>)
    requires ts != []
    ensures Suggestions(ts)[0] == ts[0].category
  {
    if |ts| > 1 {
      SuggestionsFirst(ts[..|ts| - 1]);
      assert ts[..|ts| - 1][0] == ts[0];
    }
  }
}
