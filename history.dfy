/**
 * The history page, src/pages/History.tsx: the logs shown newest first,
 * sorted on a copy with a stable sort, and the empty page when there are
 * no logs.
 */
module History {
  import opened TimerTypes

  /** Newest first: completion times never increase along the list. */
  predicate NewestFirst(s: seq<TimerLog>)
  {
    forall i, j :: 0 <= i < j < |s| ==> s[i].completedAt >= s[j].completedAt
  }

  /** The logs completed at time `k`, in list order. */
  function CompletedAt(s: seq<TimerLog>, k: int): seq<TimerLog>
  {
    if s == [] then [] else (if s[0].completedAt == k then [s[0]] else []) + CompletedAt(s[1..], k)
  }

  /** `x` placed after every log at least as recent, that is behind the logs
      of its own time that are already there. */
  function Insert(ys: seq<TimerLog>, x: TimerLog): (r: seq<TimerLog>)
    ensures |r| == |ys| + 1
  {
    if ys == [] then [x]
    else if ys[0].completedAt >= x.completedAt then [ys[0]] + Insert(ys[1..], x)
    else [x] + ys
  }

  /** The order `[...logs].sort((a, b) => b.completedAt - a.completedAt)`
      produces, stated as a stable insertion of each log in turn. */
  function SortByNewest(s: seq<TimerLog>): (r: seq<TimerLog>)
    ensures |r| == |s|
  {
    if s == [] then [] else Insert(SortByNewest(s[..|s| - 1]), s[|s| - 1])
  }

  // ---------------------------------------------------------------------
  // Properties of the order

  /** No log more recent than `v`. */
  predicate NotAfter(s: seq<TimerLog>, v: int)
  {
    forall k :: 0 <= k < |s| ==> s[k].completedAt <= v
  }

  lemma {:induction false} InsertNotAfter(ys: seq<TimerLog>, x: TimerLog, v: int)
    requires NotAfter(ys, v) && x.completedAt <= v
    ensures NotAfter(Insert(ys, x), v)
  {
    if ys != [] && ys[0].completedAt >= x.completedAt {
      InsertNotAfter(ys[1..], x, v);
    }
  }

  lemma {:induction false} InsertNewestFirst(ys: seq<TimerLog>, x: TimerLog)
    requires NewestFirst(ys)
    ensures NewestFirst(Insert(ys, x))
  {
    if ys != [] && ys[0].completedAt >= x.completedAt {
      InsertNewestFirst(ys[1..], x);
      InsertNotAfter(ys[1..], x, ys[0].completedAt);
    }
  }

  lemma {:induction false} InsertPermutation(ys: seq<TimerLog>, x: TimerLog)
    ensures multiset(Insert(ys, x)) == multiset(ys) + multiset{x}
  {
    if ys != [] && ys[0].completedAt >= x.completedAt {
      InsertPermutation(ys[1..], x);
      assert ys == [ys[0]] + ys[1..];
      assert Insert(ys, x) == [ys[0]] + Insert(ys[1..], x);
      assert multiset(ys) == multiset{ys[0]} + multiset(ys[1..]);
      assert multiset(Insert(ys, x)) == multiset{ys[0]} + multiset(Insert(ys[1..], x));
    } else if ys != [] {
      assert Insert(ys, x) == [x] + ys;
    }
  }

  /** The sorted list is newest first. */
  lemma {:induction false} SortedNewestFirst(s: seq<TimerLog>)
    ensures NewestFirst(SortByNewest(s))
  {
    if s != [] {
      SortedNewestFirst(s[..|s| - 1]);
      InsertNewestFirst(SortByNewest(s[..|s| - 1]), s[|s| - 1]);
    }
  }

  /** The sorted list holds the same logs, each as often. */
  lemma {:induction false} SortedPermutation(s: seq<TimerLog>)
    ensures multiset(SortByNewest(s)) == multiset(s)
  {
    if s != [] {
      var p, x := s[..|s| - 1], s[|s| - 1];
      SortedPermutation(p);
      SortLast(s);
      InsertPermutation(SortByNewest(p), x);
      PermutationStep(s, x, SortByNewest(p), SortByNewest(s));
    }
  }

  lemma SortLast(s: seq<TimerLog>)
    requires s != []
    ensures SortByNewest(s) == Insert(SortByNewest(s[..|s| - 1]), s[|s| - 1])
  {
  }

  /** Sorting the rest and inserting the last log keeps the multiset. */
  lemma PermutationStep(s: seq<TimerLog>, x: TimerLog, sp: seq<TimerLog>, r: seq<TimerLog>)
    requires s != [] && x == s[|s| - 1]
    requires multiset(sp) == multiset(s[..|s| - 1])
    requires multiset(r) == multiset(sp) + multiset{x}
    ensures multiset(r) == multiset(s)
  {
    assert s == s[..|s| - 1] + [x];
  }

  lemma {:induction false} CompletedAtAppend(a: seq<TimerLog>, b: seq<TimerLog>, k: int)
    ensures CompletedAt(a + b, k) == CompletedAt(a, k) + CompletedAt(b, k)
  {
    if a == [] {
      assert a + b == b;
    } else {
      var c := a + b;
      assert c != [] && c[0] == a[0] && c[1..] == a[1..] + b;
      CompletedAtAppend(a[1..], b, k);
      var h := if a[0].completedAt == k then [a[0]] else [];
      assert CompletedAt(c, k) == h + CompletedAt(a[1..] + b, k);
      assert CompletedAt(a, k) == h + CompletedAt(a[1..], k);
    }
  }

  lemma {:induction false} CompletedAtNone(ys: seq<TimerLog>, k: int)
    requires forall i :: 0 <= i < |ys| ==> ys[i].completedAt < k
    ensures CompletedAt(ys, k) == []
  {
    if ys != [] {
      CompletedAtNone(ys[1..], k);
    }
  }

  /** Inserting a log puts it behind the logs of its own time. */
  lemma {:induction false} InsertStable(ys: seq<TimerLog>, x: TimerLog, k: int)
    requires NewestFirst(ys)
    ensures CompletedAt(Insert(ys, x), k) == CompletedAt(ys, k) + (if x.completedAt == k then [x] else [])
  {
    if ys == [] {
    } else if ys[0].completedAt >= x.completedAt {
      var tl, head := ys[1..], if ys[0].completedAt == k then [ys[0]] else [];
      TailNewestFirst(ys);
      InsertStable(tl, x, k);
      var r := Insert(ys, x);
      assert r[0] == ys[0] && r[1..] == Insert(tl, x);
      assert CompletedAt(r, k) == head + CompletedAt(Insert(tl, x), k);
      assert CompletedAt(ys, k) == head + CompletedAt(tl, k);
    } else {
      assert Insert(ys, x)[1..] == ys;
      if x.completedAt == k {
        CompletedAtNone(ys, k);
      }
    }
  }

  /** The sort is stable: the logs of any one completion time keep the order
      they were appended in. */
  lemma {:induction false} SortedStable(s: seq<TimerLog>, k: int)
    ensures CompletedAt(SortByNewest(s), k) == CompletedAt(s, k)
  {
    if s != [] {
      var p, x := s[..|s| - 1], s[|s| - 1];
      assert SortByNewest(s) == Insert(SortByNewest(p), x);
      SortedStable(p, k);
      SortedNewestFirst(p);
      InsertStable(SortByNewest(p), x, k);
      CompletedAtSnoc(s, k);
    }
  }

  /** The logs of a time in a list are those of all but its last log, then
      the last log when it is of that time. */
  lemma CompletedAtSnoc(s: seq<TimerLog>, k: int)
    requires s != []
    ensures CompletedAt(s, k) == CompletedAt(s[..|s| - 1], k) + (if s[|s| - 1].completedAt == k then [s[|s| - 1]] else [])
  {
    var p, x := s[..|s| - 1], s[|s| - 1];
    assert s == p + [x];
    CompletedAtAppend(p, [x], k);
    assert [x][1..] == [];
  }

  // ---------------------------------------------------------------------
  // Any stable newest-first order is this one

  lemma {:induction false} CompletedAtMembers(s: seq<TimerLog>, k: int)
    ensures forall x :: x in CompletedAt(s, k) <==> x in s && x.completedAt == k
  {
    if s != [] {
      CompletedAtMembers(s[1..], k);
      assert s == [s[0]] + s[1..];
    }
  }

  lemma {:induction false} CompletedAtHead(s: seq<TimerLog>)
    requires s != [] && NewestFirst(s)
    ensures CompletedAt(s, s[0].completedAt) != [] && CompletedAt(s, s[0].completedAt)[0] == s[0]
    ensures forall k :: k != s[0].completedAt ==> CompletedAt(s, k) == CompletedAt(s[1..], k)
    ensures CompletedAt(s, s[0].completedAt)[1..] == CompletedAt(s[1..], s[0].completedAt)
  {
  }

  /** The head of a newest-first list is at least as recent as any member. */
  lemma HeadIsNewest(s: seq<TimerLog>, x: TimerLog)
    requires NewestFirst(s) && x in s
    ensures s[0].completedAt >= x.completedAt
  {
    var i :| 0 <= i < |s| && s[i] == x;
    if i > 0 {
      assert s[0].completedAt >= s[i].completedAt;
    }
  }

  /** A log of the first list, at its time, is a log of the second. */
  lemma SharedMember(a: seq<TimerLog>, b: seq<TimerLog>, x: TimerLog)
    requires forall k :: CompletedAt(a, k) == CompletedAt(b, k)
    requires x in a
    ensures x in b
  {
    CompletedAtMembers(a, x.completedAt);
    CompletedAtMembers(b, x.completedAt);
    assert x in CompletedAt(a, x.completedAt);
  }

  /** Two such lists start with the same log. */
  lemma SameHead(a: seq<TimerLog>, b: seq<TimerLog>)
    requires NewestFirst(a) && NewestFirst(b) && a != []
    requires forall k :: CompletedAt(a, k) == CompletedAt(b, k)
    ensures b != [] && a[0] == b[0]
  {
    assert a[0] in a;
    SharedMember(a, b, a[0]);
    HeadIsNewest(b, a[0]);
    assert b[0] in b;
    SharedMember(b, a, b[0]);
    HeadIsNewest(a, b[0]);
    CompletedAtHead(a);
    CompletedAtHead(b);
    assert CompletedAt(a, a[0].completedAt) == CompletedAt(b, a[0].completedAt);
  }

  /** Dropping a common head keeps the logs at each time equal. */
  lemma SameTails(a: seq<TimerLog>, b: seq<TimerLog>)
    requires NewestFirst(a) && NewestFirst(b) && a != [] && b != [] && a[0] == b[0]
    requires forall k :: CompletedAt(a, k) == CompletedAt(b, k)
    ensures forall k :: CompletedAt(a[1..], k) == CompletedAt(b[1..], k)
  {
    CompletedAtHead(a);
    CompletedAtHead(b);
    forall k ensures CompletedAt(a[1..], k) == CompletedAt(b[1..], k) {
      if k == a[0].completedAt {
        assert CompletedAt(a, k)[1..] == CompletedAt(b, k)[1..];
      }
    }
  }

  /** Two newest-first lists with the same logs at each completion time, in
      the same order, are the same list. */
  lemma {:induction false} StableOrderUnique(a: seq<TimerLog>, b: seq<TimerLog>)
    requires NewestFirst(a) && NewestFirst(b)
    requires forall k :: CompletedAt(a, k) == CompletedAt(b, k)
    ensures a == b
    decreases |a|
  {
    if a != [] {
      SameHead(a, b);
      SameTails(a, b);
      StableOrderUnique(a[1..], b[1..]);
      assert a == [a[0]] + a[1..] && b == [b[0]] + b[1..];
    } else if b != [] {
      SameHead(b, a);
    }
  }

  /** The sorted list is the only newest-first order that keeps equal times
      in append order, whichever stable sorting algorithm produced it. */
  lemma SortUnique(s: seq<TimerLog>, t: seq<TimerLog>)
    requires NewestFirst(t)
    requires forall k :: CompletedAt(t, k) == CompletedAt(s, k)
    ensures t == SortByNewest(s)
  {
    SortedNewestFirst(s);
    forall k ensures CompletedAt(t, k) == CompletedAt(SortByNewest(s), k) {
      SortedStable(s, k);
    }
    StableOrderUnique(t, SortByNewest(s));
  }

  // ---------------------------------------------------------------------
  // The sort on a copy

  /** `x` inserted at position `j` of a newest-first list, behind every log
      at least as recent and ahead of every older one, is `Insert(ys, x)`. */
  lemma {:induction false} InsertAt(ys: seq<TimerLog>, x: TimerLog, j: nat)
    requires j <= |ys| && NewestFirst(ys)
    requires j > 0 ==> ys[j - 1].completedAt >= x.completedAt
    requires forall k :: j <= k < |ys| ==> ys[k].completedAt < x.completedAt
    ensures Insert(ys, x) == ys[..j] + [x] + ys[j..]
  {
    if j > 0 {
      var tl := ys[1..];
      assert ys[0].completedAt >= ys[j - 1].completedAt;
      assert Insert(ys, x) == [ys[0]] + Insert(tl, x);
      TailNewestFirst(ys);
      forall k | j - 1 <= k < |tl| ensures tl[k].completedAt < x.completedAt {
        assert tl[k] == ys[k + 1];
      }
      InsertAt(tl, x, j - 1);
      ConsSlices(ys, x, j);
    } else if ys != [] {
      assert ys[0].completedAt < x.completedAt;
    }
  }

  /** Splitting the tail at `j - 1` is splitting the list at `j`. */
  lemma ConsSlices(ys: seq<TimerLog>, x: TimerLog, j: nat)
    requires 0 < j <= |ys|
    ensures [ys[0]] + (ys[1..][..j - 1] + [x] + ys[1..][j - 1..]) == ys[..j] + [x] + ys[j..]
  {
    assert ys[1..][..j - 1] == ys[1..j] && ys[1..][j - 1..] == ys[j..];
    assert ys[..j] == [ys[0]] + ys[1..j];
  }

  /** A newest-first list stays newest-first without its head. */
  lemma TailNewestFirst(ys: seq<TimerLog>)
    requires ys != [] && NewestFirst(ys)
    ensures NewestFirst(ys[1..])
  {
    forall i, k | 0 <= i < k < |ys| - 1 ensures ys[1..][i].completedAt >= ys[1..][k].completedAt {
      assert ys[1..][i] == ys[i + 1] && ys[1..][k] == ys[k + 1];
    }
  }

  /** The cells of an insertion pass that has carried `x` down to `j`:
      the logs of `p` before `j` in place, `x` at `j`, the rest of `p`
      shifted one cell right, and every log passed older than `x`. */
  ghost predicate Passing(r: seq<TimerLog>, p: seq<TimerLog>, x: TimerLog, j: nat)
  {
    && |r| == |p| + 1 && j <= |p|
    && (forall k :: 0 <= k < j ==> r[k] == p[k])
    && r[j] == x
    && (forall k :: j < k < |r| ==> r[k] == p[k - 1])
    && (forall k :: j <= k < |p| ==> p[k].completedAt < x.completedAt)
  }

  /** Swapping `x` with an older log before it carries it one cell left. */
  lemma PassingStep(r: seq<TimerLog>, p: seq<TimerLog>, x: TimerLog, j: nat)
    requires Passing(r, p, x, j) && j > 0 && r[j - 1].completedAt < x.completedAt
    ensures Passing(r[j - 1 := x][j := r[j - 1]], p, x, j - 1)
  {
  }

  /** The cells left by an insertion pass that stopped at `j` spell
      `Insert(p, x)`. */
  lemma PassResult(r: seq<TimerLog>, p: seq<TimerLog>, x: TimerLog, j: nat)
    requires NewestFirst(p) && Passing(r, p, x, j)
    requires j > 0 ==> p[j - 1].completedAt >= x.completedAt
    ensures r == Insert(p, x)
  {
    InsertAt(p, x, j);
    assert r == p[..j] + [x] + p[j..];
  }

  /** One pass of the sort: the log at `i` moves left past the older logs
      before it, leaving the first `i + 1` cells as `Insert` of it into the
      first `i`, and the cells after `i` alone. */
  method InsertStep(a: array<TimerLog>, i: nat)
    requires i < a.Length && NewestFirst(a[..i])
    modifies a
    ensures a[..i + 1] == Insert(old(a[..i]), old(a[i]))
    ensures a[i + 1..] == old(a[i + 1..])
  {
    ghost var p := a[..i];
    var x := a[i];
    var j := i;
    while j > 0 && a[j - 1].completedAt < x.completedAt
      invariant 0 <= j <= i
      invariant Passing(a[..i + 1], p, x, j)
      invariant a[i + 1..] == old(a[i + 1..])
    {
      ghost var r := a[..i + 1];
      a[j - 1], a[j] := a[j], a[j - 1];
      assert a[..i + 1] == r[j - 1 := x][j := r[j - 1]];
      PassingStep(r, p, x, j);
      j := j - 1;
    }
    PassResult(a[..i + 1], p, x, j);
  }

  /** Sorting one more log of a prefix inserts it into the sorted prefix. */
  lemma SortPrefixStep(logs: seq<TimerLog>, i: nat)
    requires i < |logs|
    ensures SortByNewest(logs[..i + 1]) == Insert(SortByNewest(logs[..i]), logs[i])
  {
    assert logs[..i + 1][..i] == logs[..i];
  }

  /** `sortedLogs`: copies the logs into a fresh array and sorts the copy in
      place, one insertion pass per log. The logs passed in are a value and
      are not reordered. */
  method SortedLogs(logs: seq<TimerLog>) returns (sorted: seq<TimerLog>)
    ensures sorted == SortByNewest(logs)
    ensures NewestFirst(sorted) && multiset(sorted) == multiset(logs)
  {
    var a := new TimerLog[|logs|](k requires 0 <= k < |logs| => logs[k]);
    var i := 0;
    while i < a.Length
      invariant 0 <= i <= a.Length
      invariant a[..i] == SortByNewest(logs[..i])
      invariant a[i..] == logs[i..]
    {
      SortedNewestFirst(logs[..i]);
      assert a[i] == logs[i] && a[i + 1..] == logs[i + 1..];
      InsertStep(a, i);
      SortPrefixStep(logs, i);
      i := i + 1;
    }
    assert logs[..i] == logs;
    sorted := a[..];
    SortedNewestFirst(logs);
    SortedPermutation(logs);
  }

  // ---------------------------------------------------------------------
  // The page

  datatype Page = EmptyHistory | Listing(items: seq<TimerLog>)

  /** The page for a list of logs: the empty-history notice when there are
      none, otherwise every log, newest first. */
  method HistoryPage(logs: seq<TimerLog>) returns (page: Page)
    ensures logs == [] <==> page == EmptyHistory
    ensures page.Listing? ==> page.items == SortByNewest(logs) && |page.items| == |logs|
  {
    var sortedLogs := SortedLogs(logs);
    SortedPermutation(logs);
    if |logs| == 0 {
      page := EmptyHistory;
    } else {
      page := Listing(sortedLogs);
    }
  }
}
