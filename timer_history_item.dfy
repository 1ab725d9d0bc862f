/**
 * The duration shown on a history entry, `formattedDuration` in
 * src/components/TimerHistoryItem.tsx: whole hours, minutes and seconds as
 * "1h 1m 1s", leaving out zero hours and zero minutes, and showing the
 * seconds when they are positive or nothing else was shown.
 */
module TimerHistoryItem {
  import opened JsBuiltins

  /** `Math.floor(seconds / 3600)`; Dafny's division by a positive number
      rounds down, as `Math.floor` does. */
  function Hours(seconds: int): int { seconds / 3600 }

  /** `Math.floor((seconds % 3600) / 60)`, with JavaScript's `%`. */
  function Minutes(seconds: int): int { JsRem(seconds, 3600) / 60 }

  /** `seconds % 60`, with JavaScript's `%`. */
  function Secs(seconds: int): int { JsRem(seconds, 60) }

  /** The pieces that are shown, in the order hours, minutes, seconds: a
      piece for the hours when there are any, one for the minutes when
      there are any, and one for the seconds when there are any or when
      neither of the other two is shown. */
  function DurationParts(seconds: int): (ps: seq<string>)
    ensures 1 <= |ps| <= 3
  {
    Pieces(Hours(seconds), Minutes(seconds), Secs(seconds))
  }

  /** The pieces due for `h` hours, `m` minutes and `x` seconds. */
  function Pieces(h: int, m: int, x: int): seq<string>
  {
    OptionalPart(h > 0, h, 'h') + OptionalPart(m > 0, m, 'm') + OptionalPart(x > 0 || (h <= 0 && m <= 0), x, 's')
  }

  /** `formattedDuration(seconds)`: collects the pieces in a list, pushing
      each one that is due, and joins them with single spaces. */
  method FormattedDuration(seconds: int) returns (r: string)
    ensures r == Join(DurationParts(seconds), " ")
    ensures r != []
  {
    var hours := seconds / 3600;
    var minutes := JsRem(seconds, 3600) / 60;
    var secs := JsRem(seconds, 60);
    var parts: seq<string> := [];
    if hours > 0 {
      parts := parts + [IntToString(hours) + "h"];
    }
    if minutes > 0 {
      parts := parts + [IntToString(minutes) + "m"];
    }
    if secs > 0 || |parts| == 0 {
      parts := parts + [IntToString(secs) + "s"];
    }
    assert parts == DurationParts(seconds);
    JoinNonEmpty(parts, " ");
    r := Join(parts, " ");
  }

  // ---------------------------------------------------------------------
  // What the pieces mean

  /** On a non-negative number of seconds the three fields are the clock
      decomposition: minutes and seconds below 60, adding up to the total. */
  lemma Decomposition(seconds: int)
    requires seconds >= 0
    ensures 0 <= Minutes(seconds) < 60 && 0 <= Secs(seconds) < 60 && Hours(seconds) >= 0
    ensures Hours(seconds) * 3600 + Minutes(seconds) * 60 + Secs(seconds) == seconds
  {
    var h, q := seconds / 3600, seconds % 3600;
    var m, x := q / 60, q % 60;
    assert seconds == 3600 * h + q;
    assert q == 60 * m + x;
    var r := seconds % 60;
    assert seconds == 60 * (seconds / 60) + r;
    assert 60 * (60 * h + m - seconds / 60) == r - x;
  }

  /** A piece ends with its unit letter. */
  lemma PieceUnit(n: int, u: char)
    ensures var p := IntToString(n) + [u]; |p| >= 2 && p[|p| - 1] == u
  {
  }

  /** The hours piece is shown exactly when there are hours. */
  lemma HoursShown(seconds: int)
    ensures IntToString(Hours(seconds)) + "h" in DurationParts(seconds) <==> Hours(seconds) > 0
  {
    HoursPiece(Hours(seconds), Minutes(seconds), Secs(seconds));
  }

  /** The minutes piece is shown exactly when there are minutes. */
  lemma MinutesShown(seconds: int)
    ensures IntToString(Minutes(seconds)) + "m" in DurationParts(seconds) <==> Minutes(seconds) > 0
  {
    MinutesPiece(Hours(seconds), Minutes(seconds), Secs(seconds));
  }

  /** The seconds piece is shown exactly when there are seconds or when no
      other piece is shown. */
  lemma SecondsShown(seconds: int)
    ensures (IntToString(Secs(seconds)) + "s" in DurationParts(seconds))
              <==> Secs(seconds) > 0 || (Hours(seconds) <= 0 && Minutes(seconds) <= 0)
  {
    SecondsPiece(Hours(seconds), Minutes(seconds), Secs(seconds));
  }

  /** Each piece is among the pieces exactly when it is due: the pieces end
      in different unit letters, so none stands in for another. */
  lemma HoursPiece(h: int, m: int, x: int)
    ensures IntToString(h) + "h" in Pieces(h, m, x) <==> h > 0
  {
    OtherUnit(h, 'h', m > 0, m, 'm');
    OtherUnit(h, 'h', x > 0 || (h <= 0 && m <= 0), x, 's');
  }

  lemma MinutesPiece(h: int, m: int, x: int)
    ensures IntToString(m) + "m" in Pieces(h, m, x) <==> m > 0
  {
    OtherUnit(m, 'm', h > 0, h, 'h');
    OtherUnit(m, 'm', x > 0 || (h <= 0 && m <= 0), x, 's');
  }

  lemma SecondsPiece(h: int, m: int, x: int)
    ensures IntToString(x) + "s" in Pieces(h, m, x) <==> x > 0 || (h <= 0 && m <= 0)
  {
    OtherUnit(x, 's', h > 0, h, 'h');
    OtherUnit(x, 's', m > 0, m, 'm');
  }

  /** A piece is never among the pieces of another unit. */
  lemma OtherUnit(n: int, u: char, c: bool, k: int, v: char)
    requires u != v
    ensures IntToString(n) + [u] !in OptionalPart(c, k, v)
  {
    PieceUnit(n, u);
    PieceUnit(k, v);
  }

  /** The unit letter a piece ends with, ranked in display order. */
  function UnitRank(u: char): int
  {
    if u == 'h' then 0 else if u == 'm' then 1 else 2
  }

  function UnitSeconds(u: char): int
  {
    if u == 'h' then 3600 else if u == 'm' then 60 else 1
  }

  /** A piece as this function writes it on a non-negative input: decimal
      digits followed by one of `h`, `m`, `s`, and no space. */
  predicate WellFormedPart(p: string)
  {
    |p| >= 2 && AllDigits(p[..|p| - 1]) && (p[|p| - 1] == 'h' || p[|p| - 1] == 'm' || p[|p| - 1] == 's')
  }

  /** The number of seconds a piece stands for. */
  function PartValue(p: string): int
    requires WellFormedPart(p)
  {
    ParseDigits(p[..|p| - 1]) * UnitSeconds(p[|p| - 1])
  }

  function SumParts(ps: seq<string>): int
    requires forall i :: 0 <= i < |ps| ==> WellFormedPart(ps[i])
  {
    if ps == [] then 0 else PartValue(ps[0]) + SumParts(ps[1..])
  }

  lemma NumberPart(n: nat, u: char)
    requires u == 'h' || u == 'm' || u == 's'
    ensures WellFormedPart(IntToString(n) + [u])
    ensures PartValue(IntToString(n) + [u]) == n * UnitSeconds(u)
    ensures (IntToString(n) + [u])[|IntToString(n) + [u]| - 1] == u
  {
    var p := IntToString(n) + [u];
    assert p[..|p| - 1] == NatToString(n);
    ParseNatToString(n);
  }

  lemma {:induction false} SumPartsAppend(a: seq<string>, b: seq<string>)
    requires forall i :: 0 <= i < |a| ==> WellFormedPart(a[i])
    requires forall i :: 0 <= i < |b| ==> WellFormedPart(b[i])
    ensures forall i :: 0 <= i < |a + b| ==> WellFormedPart((a + b)[i])
    ensures SumParts(a + b) == SumParts(a) + SumParts(b)
  {
    if a != [] {
      SumPartsAppend(a[1..], b);
      assert (a + b)[1..] == a[1..] + b;
    } else {
      assert a + b == b;
    }
  }

  /** Read back, the pieces of a non-negative duration give that duration:
      each is a number with a unit, and their values add up to the input. */
  lemma PartsReadBack(seconds: int)
    requires seconds >= 0
    ensures forall i :: 0 <= i < |DurationParts(seconds)| ==> WellFormedPart(DurationParts(seconds)[i])
    ensures SumParts(DurationParts(seconds)) == seconds
  {
    Decomposition(seconds);
    PartsSum(Hours(seconds), Minutes(seconds), Secs(seconds));
  }

  /** The pieces chosen for given field values add up to those values. */
  lemma PartsSum(h: nat, m: nat, x: nat)
    ensures var ps := OptionalPart(h > 0, h, 'h') + OptionalPart(m > 0, m, 'm') + OptionalPart(x > 0 || (h <= 0 && m <= 0), x, 's');
            && (forall i :: 0 <= i < |ps| ==> WellFormedPart(ps[i]))
            && SumParts(ps) == h * 3600 + m * 60 + x
  {
    var hc, mc, xc := h > 0, m > 0, x > 0 || (h <= 0 && m <= 0);
    OptionalPartValue(hc, h, 'h', 3600);
    OptionalPartValue(mc, m, 'm', 60);
    OptionalPartValue(xc, x, 's', 1);
    SumThree(OptionalPart(hc, h, 'h'), OptionalPart(mc, m, 'm'), OptionalPart(xc, x, 's'));
  }

  /** The value of three lists of pieces put together. */
  lemma SumThree(a: seq<string>, b: seq<string>, c: seq<string>)
    requires forall i :: 0 <= i < |a| ==> WellFormedPart(a[i])
    requires forall i :: 0 <= i < |b| ==> WellFormedPart(b[i])
    requires forall i :: 0 <= i < |c| ==> WellFormedPart(c[i])
    ensures forall i :: 0 <= i < |a + b + c| ==> WellFormedPart((a + b + c)[i])
    ensures SumParts(a + b + c) == SumParts(a) + SumParts(b) + SumParts(c)
  {
    SumPartsAppend(a, b);
    SumPartsAppend(a + b, c);
  }

  /** A piece that is shown only when `c` holds. */
  function OptionalPart(c: bool, n: int, u: char): seq<string>
  {
    if c then [IntToString(n) + [u]] else []
  }

  /** A shown piece of a natural number is well formed and worth that many
      units, and so is a piece of 0 that is not shown. */
  lemma OptionalPartValue(c: bool, n: nat, u: char, w: int)
    requires u == 'h' || u == 'm' || u == 's'
    requires w == UnitSeconds(u)
    requires c || n == 0
    ensures forall i :: 0 <= i < |OptionalPart(c, n, u)| ==> WellFormedPart(OptionalPart(c, n, u)[i])
    ensures SumParts(OptionalPart(c, n, u)) == n * w
  {
    NumberPart(n, u);
    if c {
      var p := IntToString(n) + [u];
      assert SumParts([p]) == PartValue(p) + SumParts([]);
    }
  }

  /** The rank of the unit a piece ends with. */
  function PieceRank(p: string): int
  {
    if p == [] then 3 else UnitRank(p[|p| - 1])
  }

  /** Each piece's unit ranks strictly below those of the pieces after it. */
  predicate UnitsIncreasing(ps: seq<string>)
  {
    forall i, j :: 0 <= i < j < |ps| ==> PieceRank(ps[i]) < PieceRank(ps[j])
  }

  /** The units come in the order h, m, s, none of them twice. */
  lemma PartsOrdered(seconds: int)
    ensures UnitsIncreasing(DurationParts(seconds))
  {
    PiecesOrdered(Hours(seconds), Minutes(seconds), Secs(seconds));
  }

  lemma PiecesOrdered(h: int, m: int, x: int)
    ensures UnitsIncreasing(Pieces(h, m, x))
  {
    var hs, ms, xs := OptionalPart(h > 0, h, 'h'), OptionalPart(m > 0, m, 'm'), OptionalPart(x > 0 || (h <= 0 && m <= 0), x, 's');
    PartRanks(h > 0, h, 'h', -1);
    PartRanks(m > 0, m, 'm', 0);
    PartRanks(x > 0 || (h <= 0 && m <= 0), x, 's', 1);
    RanksAppend(hs, ms, 0, 1);
    RanksAppend(hs + ms, xs, 1, 2);
  }

  /** Every piece of `ps` ranks above `r`. */
  predicate RanksAbove(ps: seq<string>, r: int)
  {
    forall k :: 0 <= k < |ps| ==> PieceRank(ps[k]) > r
  }

  /** Every piece of `ps` ranks at most `r`. */
  predicate RanksAtMost(ps: seq<string>, r: int)
  {
    forall k :: 0 <= k < |ps| ==> PieceRank(ps[k]) <= r
  }

  /** A due piece is ranked by its unit. */
  lemma PartRanks(c: bool, n: int, u: char, r: int)
    requires r < UnitRank(u)
    ensures UnitsIncreasing(OptionalPart(c, n, u))
    ensures RanksAtMost(OptionalPart(c, n, u), UnitRank(u))
    ensures RanksAbove(OptionalPart(c, n, u), r)
  {
    PieceUnit(n, u);
  }

  /** Two runs of increasing units, the first ranked at most `r` and the
      second above `r` and at most `t`, make one run ranked at most `t`. */
  lemma RanksAppend(a: seq<string>, b: seq<string>, r: int, t: int)
    requires UnitsIncreasing(a) && UnitsIncreasing(b)
    requires r <= t && RanksAtMost(a, r) && RanksAbove(b, r) && RanksAtMost(b, t)
    ensures UnitsIncreasing(a + b) && RanksAtMost(a + b, t)
  {
  }

  // ---------------------------------------------------------------------
  // Examples

  /** No time at all reads "0s". */
  lemma ZeroSeconds()
    ensures Join(DurationParts(0), " ") == "0s"
  {
    assert Hours(0) == 0 && Minutes(0) == 0 && Secs(0) == 0;
    assert IntToString(0) + "s" == "0s";
    assert DurationParts(0) == ["0s"];
  }

  /** An hour, a minute and a second read "1h 1m 1s". */
  lemma HourMinuteSecond()
    ensures Join(DurationParts(3661), " ") == "1h 1m 1s"
  {
    assert Hours(3661) == 1 && Minutes(3661) == 1 && Secs(3661) == 1;
    assert IntToString(1) == "1";
    assert IntToString(1) + "h" == "1h" && IntToString(1) + "m" == "1m" && IntToString(1) + "s" == "1s";
    assert DurationParts(3661) == ["1h", "1m", "1s"];
  }

  /** A whole hour reads "1h": no zero minutes and no zero seconds. */
  lemma WholeHour()
    ensures Join(DurationParts(3600), " ") == "1h"
  {
    assert Hours(3600) == 1 && Minutes(3600) == 0 && Secs(3600) == 0;
    assert IntToString(1) + "h" == "1h";
    assert DurationParts(3600) == ["1h"];
  }

  /** An hour and a second read "1h 1s": zero minutes are skipped. */
  lemma HourAndSecond()
    ensures Join(DurationParts(3601), " ") == "1h 1s"
  {
    assert Hours(3601) == 1 && Minutes(3601) == 0 && Secs(3601) == 1;
    assert IntToString(1) + "h" == "1h" && IntToString(1) + "s" == "1s";
    assert DurationParts(3601) == ["1h", "1s"];
  }

  /** A negative duration has negative fields, so only the seconds show,
      with their sign. */
  lemma NegativeSeconds()
    ensures Join(DurationParts(-5), " ") == "-5s"
  {
    assert Hours(-5) == -1 && Minutes(-5) == -1 && Secs(-5) == -5;
    assert IntToString(-5) == "-5";
    assert IntToString(-5) + "s" == "-5s";
    assert DurationParts(-5) == ["-5s"];
  }
}
