/**
 * The pure helpers of src/utils/timerUtils.ts: the clock-face rendering of
 * a number of seconds and the grouping of timers by category.
 */
module TimerUtils {
  import opened Wrappers
  import opened TimerTypes
  import opened JsBuiltins

  // ---------------------------------------------------------------------
  // formatTime

  /** `n.toString().padStart(2, '0')`. */
  function Pad2(n: nat): (r: string)
    ensures |r| >= 2 && AllDigits(r)
    ensures n < 100 ==> |r| == 2
    ensures |r| == if |NatToString(n)| >= 2 then |NatToString(n)| else 2
  {
    var d := NatToString(n);
    var r := PadStart(d, 2, '0');
    assert r == Repeat('0', |r| - |d|) + d;
    r
  }

  lemma ParsePad2(n: nat)
    ensures ParseDigits(Pad2(n)) == n
  {
    var d := NatToString(n);
    ParseNatToString(n);
    ParseLeadingZeros(|Pad2(n)| - |d|, d);
    assert Pad2(n) == Repeat('0', |Pad2(n)| - |d|) + d;
  }

  /** The clock face of hours, minutes and seconds: the hours field only
      when it is positive, every field padded to two digits. */
  function ClockFace(h: nat, m: nat, x: nat): (r: string)
    requires m < 60 && x < 60
    ensures h == 0 ==> |r| == 5 && r[2] == ':'
    ensures h > 0 ==> |r| >= 8 && r[|r| - 6] == ':' && r[|r| - 3] == ':'
  {
    if h > 0 then Pad2(h) + ":" + Pad2(m) + ":" + Pad2(x)
    else Pad2(m) + ":" + Pad2(x)
  }

  /** `formatTime(seconds)` on whole seconds: `"00:00"` for a negative
      value, `MM:SS` below an hour and `HH:MM:SS` from an hour on. */
  function FormatTime(seconds: int): (r: string)
    ensures seconds < 0 ==> r == "00:00"
    ensures 0 <= seconds < 3600 ==> |r| == 5 && r[2] == ':'
    ensures seconds >= 3600 ==> |r| >= 8 && r[|r| - 6] == ':' && r[|r| - 3] == ':'
  {
    if seconds < 0 then "00:00"
    else
      ClockBounds(seconds);
      ClockFace(seconds / 3600, (seconds % 3600) / 60, seconds % 60)
  }

  /** Reads a clock face back into hours, minutes and seconds: the two
      fields after the last two colons are minutes and seconds, and what
      precedes them (nothing in the short form) is the hours. */
  function ParseTime(r: string): Option<(int, int, int)>
  {
    if |r| == 5 && r[2] == ':' && AllDigits(r[..2]) && AllDigits(r[3..]) then
      Some((0, ParseDigits(r[..2]), ParseDigits(r[3..])))
    else if |r| >= 8 && r[|r| - 6] == ':' && r[|r| - 3] == ':'
         && AllDigits(r[..|r| - 6]) && AllDigits(r[|r| - 5..|r| - 3]) && AllDigits(r[|r| - 2..]) then
      Some((ParseDigits(r[..|r| - 6]), ParseDigits(r[|r| - 5..|r| - 3]), ParseDigits(r[|r| - 2..])))
    else None
  }

  lemma Mod60Unique(s: int, q: int, x: int)
    requires s == 60 * q + x && 0 <= x < 60
    ensures s % 60 == x
  {
    var r := s % 60;
    assert s == 60 * (s / 60) + r;
    assert 60 * (q - s / 60) == r - x;
  }

  /** The fields of the clock decomposition are in range, and the hours
      field is zero exactly below an hour. */
  lemma ClockBounds(s: nat)
    ensures (s % 3600) / 60 < 60 && s % 60 < 60
    ensures s >= 3600 <==> s / 3600 > 0
  {
  }

  lemma ClockArithmetic(s: nat)
    ensures (s % 3600) / 60 < 60 && s % 60 < 60
    ensures (s / 3600) * 3600 + ((s % 3600) / 60) * 60 + s % 60 == s
    ensures s >= 3600 <==> s / 3600 > 0
    ensures s < 3600 ==> s / 3600 == 0 && s % 3600 == s
  {
    var h, q := s / 3600, s % 3600;
    var m, x := q / 60, q % 60;
    assert s == 3600 * h + q;
    assert q == 60 * m + x;
    Mod60Unique(s, 60 * h + m, x);
  }

  /** Where the pieces of `hh:mm:ss` sit, for two-character `mm` and `ss`. */
  lemma LongSlices(hh: string, mm: string, xx: string)
    requires |mm| == 2 && |xx| == 2
    ensures var r := hh + ":" + mm + ":" + xx;
            && |r| == |hh| + 6 && r[|r| - 6] == ':' && r[|r| - 3] == ':'
            && r[..|r| - 6] == hh && r[|r| - 5..|r| - 3] == mm && r[|r| - 2..] == xx
  {
    var r := hh + ":" + mm + ":" + xx;
    assert r == hh + (":" + mm + ":" + xx);
  }

  /** Where the pieces of `mm:ss` sit, for two-character `mm` and `ss`. */
  lemma ShortSlices(mm: string, xx: string)
    requires |mm| == 2 && |xx| == 2
    ensures var r := mm + ":" + xx;
            && |r| == 5 && r[2] == ':' && r[..2] == mm && r[3..] == xx
  {
  }

  /** A long face whose three fields are digit strings reads back as their values. */
  lemma ParseLongFields(r: string, hh: string, mm: string, xx: string)
    requires |r| >= 8 && r[|r| - 6] == ':' && r[|r| - 3] == ':'
    requires r[..|r| - 6] == hh && r[|r| - 5..|r| - 3] == mm && r[|r| - 2..] == xx
    requires AllDigits(hh) && AllDigits(mm) && AllDigits(xx)
    ensures ParseTime(r) == Some((ParseDigits(hh), ParseDigits(mm), ParseDigits(xx)))
  {
  }

  lemma ParseLongDigits(hh: string, mm: string, xx: string)
    requires |hh| >= 2 && |mm| == 2 && |xx| == 2
    requires AllDigits(hh) && AllDigits(mm) && AllDigits(xx)
    ensures ParseTime(hh + ":" + mm + ":" + xx) == Some((ParseDigits(hh), ParseDigits(mm), ParseDigits(xx)))
  {
    LongSlices(hh, mm, xx);
    ParseLongFields(hh + ":" + mm + ":" + xx, hh, mm, xx);
  }

  lemma ParseLongFace(h: nat, m: nat, x: nat)
    requires h > 0 && m < 60 && x < 60
    ensures var r := ClockFace(h, m, x);
            ParseTime(r) == Some((h, m, x)) && r[..|r| - 6] == Pad2(h)
  {
    var hh, mm, xx := Pad2(h), Pad2(m), Pad2(x);
    assert ClockFace(h, m, x) == hh + ":" + mm + ":" + xx;
    ParsePad2(h);
    ParsePad2(m);
    ParsePad2(x);
    ParseLongDigits(hh, mm, xx);
    LongSlices(hh, mm, xx);
  }

  lemma ParseShortFace(m: nat, x: nat)
    requires m < 60 && x < 60
    ensures ParseTime(ClockFace(0, m, x)) == Some((0 as int, m as int, x as int))
  {
    var mm, xx := Pad2(m), Pad2(x);
    assert ClockFace(0, m, x) == mm + ":" + xx;
    ParsePad2(m);
    ParsePad2(x);
    ShortSlices(mm, xx);
  }

  /** A clock face reads back as the fields it was made of; with hours, the
      text before the last six characters is the padded hours. */
  lemma ParseClockFace(h: nat, m: nat, x: nat)
    requires m < 60 && x < 60
    ensures ParseTime(ClockFace(h, m, x)) == Some((h, m, x))
    ensures h > 0 ==> ClockFace(h, m, x)[..|ClockFace(h, m, x)| - 6] == Pad2(h)
  {
    if h > 0 {
      ParseLongFace(h, m, x);
    } else {
      ParseShortFace(m, x);
    }
  }

  /** The fields of `formatTime(s)` read back as `s`: hours, minutes and
      seconds with minutes and seconds in `[0, 59]` and
      `h * 3600 + m * 60 + sec == s`. */
  lemma FormatTimeRoundTrip(s: nat)
    ensures var p := ParseTime(FormatTime(s));
            && p.Some?
            && p.value == (s / 3600, (s % 3600) / 60, s % 60)
            && p.value.1 <= 59 && p.value.2 <= 59
            && p.value.0 * 3600 + p.value.1 * 60 + p.value.2 == s
  {
    ClockArithmetic(s);
    FormatTimeParses(s);
  }

  /** `formatTime(s)` parses back to the clock decomposition of `s`. */
  lemma FormatTimeParses(s: nat)
    ensures ParseTime(FormatTime(s)) == Some((s / 3600, (s % 3600) / 60, s % 60))
  {
    FormatTimeIsFace(s);
    ParseClockFace(s / 3600, (s % 3600) / 60, s % 60);
  }

  /** On a non-negative input `formatTime` is the clock face of its fields. */
  lemma FormatTimeIsFace(s: nat)
    ensures (s % 3600) / 60 < 60 && s % 60 < 60
    ensures FormatTime(s) == ClockFace(s / 3600, (s % 3600) / 60, s % 60)
  {
    ClockBounds(s);
  }

  // ---------------------------------------------------------------------
  // groupTimersByCategory

  /** A category name mapped to its timers: `CategoryTimers` in the source. */
  type CategoryTimers = map<string, seq<Timer>>

  /** The timers of category `c`, in list order. */
  function InCategory(ts: seq<Timer>, c: string): seq<Timer>
  {
    if ts == [] then []
    else InCategory(ts[..|ts| - 1], c) + (if ts[|ts| - 1].category == c then [ts[|ts| - 1]] else [])
  }

  /** The categories that occur in a list of timers. */
  function CategoriesOf(ts: seq<Timer>): set<string>
  {
    set i | 0 <= i < |ts| :: ts[i].category
  }

  /** `groupTimersByCategory(timers)`: one pass over the list that opens a
      group on the first timer of each category and appends every timer to
      its category's group. The accumulator is a map from category name to
      group (own keys only; see `GroupAsWritten` for the plain object). */
  method GroupTimersByCategory(timers: seq<Timer>) returns (groups: CategoryTimers)
    ensures groups.Keys == CategoriesOf(timers)
    ensures forall c :: c in groups ==> groups[c] == InCategory(timers, c)
  {
    groups := map[];
    var i := 0;
    while i < |timers|
      invariant 0 <= i <= |timers|
      invariant Grouped(timers[..i], groups)
    {
      var t := timers[i];
      ghost var before := groups;
      if t.category !in groups {
        groups := groups[t.category := []];
      }
      groups := groups[t.category := groups[t.category] + [t]];
      assert timers[..i + 1] == timers[..i] + [t];
      GroupsStep(timers[..i], t, before, groups);
      i := i + 1;
    }
    assert timers[..i] == timers;
  }

  /** `g` groups `ts`: its keys are the categories present, each maps to
      that category's timers, and every other category has none. */
  ghost predicate Grouped(ts: seq<Timer>, g: CategoryTimers)
  {
    && g.Keys == CategoriesOf(ts)
    && (forall c :: c in g ==> g[c] == InCategory(ts, c))
    && (forall c :: c !in g ==> InCategory(ts, c) == [])
  }

  /** Appending one timer to its category's group (opened if need be) keeps
      the map equal to the grouping of the list with that timer added. */
  lemma GroupsStep(ts: seq<Timer>, t: Timer, g: CategoryTimers, g': CategoryTimers)
    requires Grouped(ts, g)
    requires g' == g[t.category := (if t.category in g then g[t.category] else []) + [t]]
    ensures Grouped(ts + [t], g')
  {
    CategoriesSnoc(ts, t);
    forall c ensures InCategory(ts + [t], c) == InCategory(ts, c) + (if t.category == c then [t] else []) {
      InCategorySnoc(ts, t, c);
    }
  }

  lemma InCategorySnoc(ts: seq<Timer>, t: Timer, c: string)
    ensures InCategory(ts + [t], c) == InCategory(ts, c) + (if t.category == c then [t] else [])
  {
    assert (ts + [t])[..|ts|] == ts;
  }

  /** The categories of a list with one timer added. */
  lemma CategoriesSnoc(ts: seq<Timer>, t: Timer)
    ensures CategoriesOf(ts + [t]) == CategoriesOf(ts) + {t.category}
  {
    var ts' := ts + [t];
    forall c | c in CategoriesOf(ts') ensures c in CategoriesOf(ts) + {t.category} {
      var k :| 0 <= k < |ts'| && ts'[k].category == c;
      if k < |ts| {
        assert ts'[k] == ts[k];
      }
    }
    forall c | c in CategoriesOf(ts) ensures c in CategoriesOf(ts') {
      var k :| 0 <= k < |ts| && ts[k].category == c;
      assert ts'[k] == ts[k];
    }
    assert ts'[|ts|] == t;
  }

  lemma {:induction false} InCategoryAppend(a: seq<Timer>, b: seq<Timer>, c: string)
    ensures InCategory(a + b, c) == InCategory(a, c) + InCategory(b, c)
    decreases |b|
  {
    if b == [] {
      assert a + b == a;
    } else {
      var b', x := b[..|b| - 1], b[|b| - 1];
      var last := if x.category == c then [x] else [];
      assert (a + b)[..|a + b| - 1] == a + b';
      assert (a + b)[|a + b| - 1] == x;
      InCategoryAppend(a, b', c);
      calc {
        InCategory(a + b, c);
        InCategory(a + b', c) + last;
        InCategory(a, c) + InCategory(b', c) + last;
        InCategory(a, c) + (InCategory(b', c) + last);
        InCategory(a, c) + InCategory(b, c);
      }
    }
  }

  lemma {:induction false} InCategoryAbsent(ts: seq<Timer>, c: string)
    requires c !in CategoriesOf(ts)
    ensures InCategory(ts, c) == []
  {
    if ts != [] {
      var ts' := ts[..|ts| - 1];
      assert CategoriesOf(ts') <= CategoriesOf(ts) by {
        forall x | x in CategoriesOf(ts') ensures x in CategoriesOf(ts) {
          var j :| 0 <= j < |ts'| && ts'[j].category == x;
          assert ts[j].category == x;
        }
      }
      InCategoryAbsent(ts', c);
    }
  }

  /** A group holds exactly the timers of its category: every timer lands in
      the group of its own category and in no other. */
  lemma {:induction false} InCategoryMembers(ts: seq<Timer>, c: string)
    ensures forall x :: x in InCategory(ts, c) <==> x in ts && x.category == c
    ensures |InCategory(ts, c)| <= |ts|
  {
    if ts != [] {
      var ts' := ts[..|ts| - 1];
      InCategoryMembers(ts', c);
      assert ts == ts' + [ts[|ts| - 1]];
    }
  }

  /** A group keeps list order: the i-th timer, when of category `c`, sits in
      the group right after the timers of `c` that precede it. */
  lemma InCategoryOrder(ts: seq<Timer>, i: nat, c: string)
    requires i < |ts| && ts[i].category == c
    ensures |InCategory(ts[..i], c)| < |InCategory(ts, c)|
    ensures InCategory(ts, c)[|InCategory(ts[..i], c)|] == ts[i]
  {
    assert ts == ts[..i] + ([ts[i]] + ts[i + 1..]);
    InCategoryAppend(ts[..i], [ts[i]] + ts[i + 1..], c);
    InCategoryAppend([ts[i]], ts[i + 1..], c);
    assert InCategory([ts[i]], c) == [ts[i]] by {
      assert [ts[i]][..0] == [];
    }
  }

  /** No group is empty: each category present has at least one timer. */
  lemma GroupsNonEmpty(ts: seq<Timer>, c: string)
    requires c in CategoriesOf(ts)
    ensures |InCategory(ts, c)| > 0
  {
    InCategoryMembers(ts, c);
    var i :| 0 <= i < |ts| && ts[i].category == c;
    assert ts[i] in ts;
  }

  predicate NoDuplicates<T(==)>(s: seq<T>)
  {
    forall i, j :: 0 <= i < j < |s| ==> s[i] != s[j]
  }

  /** The sizes of the groups of the categories `cs`, added up. */
  function SumSizes(ts: seq<Timer>, cs: seq<string>): nat
  {
    if cs == [] then 0 else |InCategory(ts, cs[0])| + SumSizes(ts, cs[1..])
  }

  function Occurrences(cs: seq<string>, c: string): nat
  {
    if cs == [] then 0 else (if cs[0] == c then 1 else 0) + Occurrences(cs[1..], c)
  }

  lemma {:induction false} SumSizesEmpty(cs: seq<string>)
    ensures SumSizes([], cs) == 0
  {
    if cs != [] {
      SumSizesEmpty(cs[1..]);
    }
  }

  lemma {:induction false} SumSizesSnoc(ts: seq<Timer>, t: Timer, cs: seq<string>)
    ensures SumSizes(ts + [t], cs) == SumSizes(ts, cs) + Occurrences(cs, t.category)
  {
    assert (ts + [t])[..|ts + [t]| - 1] == ts;
    if cs != [] {
      SumSizesSnoc(ts, t, cs[1..]);
    }
  }

  lemma {:induction false} OccurrencesOnce(cs: seq<string>, c: string)
    requires NoDuplicates(cs) && c in cs
    ensures Occurrences(cs, c) == 1
  {
    if cs[0] == c {
      OccurrencesNone(cs[1..], c);
    } else {
      OccurrencesOnce(cs[1..], c);
    }
  }

  lemma {:induction false} OccurrencesNone(cs: seq<string>, c: string)
    requires c !in cs
    ensures Occurrences(cs, c) == 0
  {
    if cs != [] {
      OccurrencesNone(cs[1..], c);
    }
  }

  /** The group sizes add up to the number of timers, whatever order the
      categories are listed in, as long as each is listed once. */
  lemma {:induction false} GroupSizesSum(ts: seq<Timer>, cs: seq<string>)
    requires NoDuplicates(cs)
    requires forall i :: 0 <= i < |ts| ==> ts[i].category in cs
    ensures SumSizes(ts, cs) == |ts|
  {
    if ts == [] {
      SumSizesEmpty(cs);
    } else {
      var ts', t := ts[..|ts| - 1], ts[|ts| - 1];
      assert ts == ts' + [t];
      GroupSizesSum(ts', cs);
      SumSizesSnoc(ts', t, cs);
      OccurrencesOnce(cs, t.category);
    }
  }

  // ---------------------------------------------------------------------
  // The grouping as written, with a plain object as accumulator

  /** The property names a plain object literal `{}` inherits from
      `Object.prototype`. */
  const ObjectPrototypeNames: set<string> := {
    "constructor", "hasOwnProperty", "isPrototypeOf", "propertyIsEnumerable",
    "toLocaleString", "toString", "valueOf", "__proto__",
    "__defineGetter__", "__defineSetter__", "__lookupGetter__", "__lookupSetter__"
  }

  datatype GroupError = TypeError(category: string)

  /** `groupTimersByCategory` as written: `acc[c]` on the object literal
      finds an inherited member for a category named like one of
      `Object.prototype`'s properties; that member is truthy, so no array is
      created, and `acc[c].push(timer)` then throws a `TypeError`. */
  function GroupAsWritten(ts: seq<Timer>): Result<CategoryTimers, GroupError>
  {
    if ts == [] then Success(map[])
    else
      match GroupAsWritten(ts[..|ts| - 1])
      case Failure(e) => Failure(e)
      case Success(acc) =>
        var t := ts[|ts| - 1];
        if t.category in acc then Success(acc[t.category := acc[t.category] + [t]])
        else if t.category in ObjectPrototypeNames then Failure(TypeError(t.category))
        else Success(acc[t.category := [t]])
  }

  /** One timer whose category is `"toString"` makes the grouping throw, so
      the list of timers cannot be shown. */
  lemma GroupAsWrittenThrows(t: Timer)
    requires t.category == "toString"
    ensures GroupAsWritten([t]) == Failure(TypeError("toString"))
  {
    assert [t][..0] == [];
  }

  /** When no category is named like an inherited property, the grouping as
      written gives exactly the groups `GroupTimersByCategory` promises. */
  lemma {:induction false} GroupAsWrittenAgrees(ts: seq<Timer>)
    requires forall i :: 0 <= i < |ts| ==> ts[i].category !in ObjectPrototypeNames
    ensures GroupAsWritten(ts).Success?
    ensures GroupAsWritten(ts).value.Keys == CategoriesOf(ts)
    ensures forall c :: c in GroupAsWritten(ts).value ==> GroupAsWritten(ts).value[c] == InCategory(ts, c)
  {
    if ts != [] {
      var ts', t := ts[..|ts| - 1], ts[|ts| - 1];
      GroupAsWrittenAgrees(ts');
      var acc := GroupAsWritten(ts').value;
      forall c | c !in acc ensures InCategory(ts', c) == [] {
        InCategoryAbsent(ts', c);
      }
      assert ts == ts' + [t];
      assert t.category !in ObjectPrototypeNames;
      if t.category !in acc {
        assert [] + [t] == [t];
      }
      GroupsStep(ts', t, acc, GroupAsWritten(ts).value);
    }
  }
}
