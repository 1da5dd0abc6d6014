/**
 * Longest streak of consecutive active days.
 *
 * The active days of a user are distinct day ordinals in any order. They are
 * sorted ascending and walked pair by pair: a pair one day apart extends the
 * current streak, any larger gap restarts it at 1, and the longest streak
 * seen is the result (0 when there are no active days).
 *
 * The specification is given twice: `LongestStreak` follows the sorted walk
 * as a function (the rest of the model uses it), and `IsStreak` says what a
 * streak is in terms of the set of days alone. The method
 * `LongestStreakDays` is the loop itself, proved against both.
 */
module Streak {

  predicate Distinct(s: seq<int>) {
    forall i, j :: 0 <= i < j < |s| ==> s[i] != s[j]
  }

  predicate StrictlyIncreasing(s: seq<int>) {
    forall i, j :: 0 <= i < j < |s| ==> s[i] < s[j]
  }

  /** Inserts `x` into an ascending sequence before the first element above it. */
  function InsertAscending(x: int, s: seq<int>): (r: seq<int>)
    ensures multiset(r) == multiset(s) + multiset{x}
    ensures StrictlyIncreasing(s) && x !in s ==> StrictlyIncreasing(r)
  {
    if s == [] || x < s[0] then [x] + s
    else
      assert s == [s[0]] + s[1..];
      assert x !in s ==> x !in s[1..] && s[0] < x;
      TailAboveHead(s);
      var tail := InsertAscending(x, s[1..]);
      BoundedByMembers(s[0], tail, s[1..], x);
      PrependIncreasing(s[0], tail);
      [s[0]] + tail
  }

  /** Above the head of ascending days, the rest is ascending and every day of it is later. */
  lemma TailAboveHead(s: seq<int>)
    requires s != []
    ensures StrictlyIncreasing(s) ==> StrictlyIncreasing(s[1..])
    ensures StrictlyIncreasing(s) ==> forall y :: y in s[1..] ==> s[0] < y
  {
    if StrictlyIncreasing(s) {
      forall i, j | 0 <= i < j < |s[1..]| ensures s[1..][i] < s[1..][j] {
        assert s[1..][i] == s[i + 1] && s[1..][j] == s[j + 1];
      }
      forall y | y in s[1..] ensures s[0] < y {
        var k :| 0 <= k < |s[1..]| && s[1..][k] == y;
        assert s[k + 1] == y;
      }
    }
  }

  lemma PrependIncreasing(low: int, t: seq<int>)
    ensures StrictlyIncreasing(t) && (forall k :: 0 <= k < |t| ==> low < t[k]) ==> StrictlyIncreasing([low] + t)
  {
    if StrictlyIncreasing(t) && (forall k :: 0 <= k < |t| ==> low < t[k]) {
      var r := [low] + t;
      forall i, j | 0 <= i < j < |r| ensures r[i] < r[j] {
        assert r[j] == t[j - 1];
        if i > 0 {
          assert r[i] == t[i - 1];
        }
      }
    }
  }

  /**
   * If every member of s[1..] and x lies above `low`, so does every element of a
   * sequence with those members.
   */
  lemma BoundedByMembers(low: int, t: seq<int>, rest: seq<int>, x: int)
    requires multiset(t) == multiset(rest) + multiset{x}
    ensures low < x && (forall y :: y in rest ==> low < y) ==> forall k :: 0 <= k < |t| ==> low < t[k]
  {
    if low < x && (forall y :: y in rest ==> low < y) {
      forall k | 0 <= k < |t| ensures low < t[k] {
        assert t[k] in multiset(t);
        assert t[k] == x || t[k] in multiset(rest);
        assert t[k] == x || t[k] in rest;
      }
    }
  }

  /** Ascending sort of the active days (the collection's `sort()`). */
  function SortAscending(s: seq<int>): (r: seq<int>)
    ensures multiset(r) == multiset(s)
    ensures |r| == |s|
    ensures Distinct(s) ==> StrictlyIncreasing(r)
  {
    if s == [] then []
    else
      var rest := SortAscending(s[1..]);
      assert s == [s[0]] + s[1..];
      DistinctTail(s);
      assert s[0] in rest <==> s[0] in multiset(s[1..]);
      InsertAscending(s[0], rest)
  }

  lemma DistinctTail(s: seq<int>)
    requires s != []
    ensures Distinct(s) ==> Distinct(s[1..]) && s[0] !in s[1..]
  {
    if Distinct(s) {
      forall i, j | 0 <= i < j < |s[1..]| ensures s[1..][i] != s[1..][j] {
        assert s[1..][i] == s[i + 1] && s[1..][j] == s[j + 1];
      }
      forall k | 0 <= k < |s[1..]| ensures s[1..][k] != s[0] {
        assert s[1..][k] == s[k + 1];
      }
    }
  }

  /** Length of the streak that ends at position `i` of the sorted days. */
  function StreakEndingAt(s: seq<int>, i: nat): (n: nat)
    requires i < |s|
    ensures 1 <= n <= i + 1
  {
    if i == 0 || s[i] - s[i - 1] != 1 then 1 else StreakEndingAt(s, i - 1) + 1
  }

  /** Longest streak ending at one of the first `n` positions. */
  function LongestStreakUpTo(s: seq<int>, n: nat): (m: nat)
    requires n <= |s|
    ensures n == 0 ==> m == 0
    ensures n > 0 ==> 1 <= m <= n
    ensures forall i :: 0 <= i < n ==> StreakEndingAt(s, i) <= m
    ensures n > 0 ==> exists i :: 0 <= i < n && StreakEndingAt(s, i) == m
  {
    if n == 0 then 0
    else
      var before := LongestStreakUpTo(s, n - 1);
      var here := StreakEndingAt(s, n - 1);
      if before < here then here else before
  }

  /** The streak length over the user's active days, as the sorted walk computes it. */
  function LongestStreak(activeDays: seq<int>): (r: nat)
    ensures r == 0 <==> |activeDays| == 0
    ensures r <= |activeDays|
  {
    var s := SortAscending(activeDays);
    LongestStreakUpTo(s, |s|)
  }

  /** The days a sequence holds, as a set. */
  function DaySet(s: seq<int>): set<int> {
    set x | x in s
  }

  /** Every day from `first` to `first + len - 1` is an active day. */
  ghost predicate IsStreak(days: set<int>, first: int, len: nat) {
    forall d :: first <= d < first + len ==> d in days
  }

  /** The streak ending at position `i` is made of the days s[i] - j for j below its length. */
  lemma {:induction false} StreakEndingAtDays(s: seq<int>, i: nat, j: nat)
    requires i < |s| && j < StreakEndingAt(s, i)
    ensures s[i - j] == s[i] - j
  {
    if j > 0 {
      StreakEndingAtDays(s, i - 1, j - 1);
    }
  }

  lemma StreakEndingAtIsStreak(s: seq<int>, i: nat)
    requires i < |s|
    ensures IsStreak(DaySet(s), s[i] - StreakEndingAt(s, i) + 1, StreakEndingAt(s, i))
  {
    var n := StreakEndingAt(s, i);
    forall d | s[i] - n + 1 <= d < s[i] + 1
      ensures d in s
    {
      StreakEndingAtDays(s, i, s[i] - d);
    }
  }

  /**
   * In strictly increasing days, a block of `len` consecutive active days ending
   * at s[i] means the walk has counted a streak of at least `len` at position i.
   */
  lemma {:induction false} BlockCounted(s: seq<int>, first: int, len: nat, i: nat)
    requires StrictlyIncreasing(s)
    requires len >= 1 && i < |s| && s[i] == first + len - 1
    requires IsStreak(DaySet(s), first, len)
    ensures StreakEndingAt(s, i) >= len
    decreases len
  {
    if len > 1 {
      var prev := first + len - 2;
      assert prev in DaySet(s);
      var k :| 0 <= k < |s| && s[k] == prev;
      assert k < i;
      assert s[k] <= s[i - 1] < s[i];
      assert IsStreak(DaySet(s), first, len - 1);
      BlockCounted(s, first, len - 1, i - 1);
    }
  }

  /**
   * `LongestStreak` is the longest block of consecutive calendar days that are all
   * active: it is 0 exactly when there are no active days, at most the number of
   * active days, there is a block of that length, and there is none longer.
   */
  lemma {:induction false} LongestStreakIsLongestBlock(activeDays: seq<int>)
    requires Distinct(activeDays)
    ensures var r := LongestStreak(activeDays);
      && (r == 0 <==> |activeDays| == 0)
      && r <= |activeDays|
      && (exists first :: IsStreak(DaySet(activeDays), first, r))
      && (forall first, len: nat :: IsStreak(DaySet(activeDays), first, len) ==> len <= r)
  {
    var s := SortAscending(activeDays);
    var r := LongestStreak(activeDays);
    assert (DaySet(activeDays)) == (DaySet(s)) by {
      forall x ensures x in activeDays <==> x in s {
        assert x in activeDays <==> x in multiset(activeDays);
        assert x in s <==> x in multiset(s);
      }
    }
    if |s| == 0 {
      assert IsStreak(DaySet(activeDays), 0, 0);
    } else {
      var i :| 0 <= i < |s| && StreakEndingAt(s, i) == r;
      StreakEndingAtIsStreak(s, i);
    }
    forall first, len: nat | IsStreak(DaySet(activeDays), first, len)
      ensures len <= r
    {
      if len >= 1 {
        var last := first + len - 1;
        assert last in DaySet(s);
        var i :| 0 <= i < |s| && s[i] == last;
        BlockCounted(s, first, len, i);
      }
    }
  }

  /**
   * The loop of the streak computation. The day difference of a sorted pair is
   * compared with 1 as a number; see `LongestStreakAsWritten` for the strict
   * comparison the code makes.
   */
  method LongestStreakDays(activeDays: seq<int>) returns (longest: nat)
    requires Distinct(activeDays)
    ensures longest == LongestStreak(activeDays)
    ensures longest == 0 <==> |activeDays| == 0
    ensures longest <= |activeDays|
    ensures exists first :: IsStreak(DaySet(activeDays), first, longest)
    ensures forall first, len: nat :: IsStreak(DaySet(activeDays), first, len) ==> len <= longest
  {
    if |activeDays| == 0 {
      LongestStreakIsLongestBlock(activeDays);
      return 0;
    }
    var dates := SortAscending(activeDays);
    longest := 1;
    var current: nat := 1;
    for i := 1 to |dates|
      invariant current == StreakEndingAt(dates, i - 1)
      invariant longest == LongestStreakUpTo(dates, i)
    {
      var diff := dates[i] - dates[i - 1];
      if diff == 1 {
        current := current + 1;
        longest := if longest < current then current else longest;
      } else {
        current := 1;
      }
    }
    LongestStreakIsLongestBlock(activeDays);
  }

  // ---------------------------------------------------------------------
  // The comparison as written. With Carbon 3, `diffInDays` returns a float,
  // and `$diff === 1` compares a float with an int by identity, which is
  // false whatever the value. The pair step below never extends a streak.

  datatype PhpNumber = PhpInt(i: int) | PhpFloat(f: real)

  /** PHP's `===` on numbers: same type and same value. */
  function Identical(a: PhpNumber, b: PhpNumber): (r: bool)
    ensures r <==> a == b
    ensures a.PhpFloat? && b.PhpInt? ==> !r
  {
    match (a, b)
    case (PhpInt(x), PhpInt(y)) => x == y
    case (PhpFloat(x), PhpFloat(y)) => x == y
    case _ => false
  }

  /**
   * Carbon 3 `$a->diffInDays($b)` for two midnights: a float number of days.
   * The contract fixes that library behaviour, a signed float, as an assumption of the model.
   */
  function DiffInDays(a: int, b: int): (d: PhpNumber)
    ensures d.PhpFloat? && d.f == (b - a) as real
  {
    PhpFloat((b - a) as real)
  }

  /** The walk as written, over the first `n` sorted days: (current, longest). */
  function WalkAsWritten(s: seq<int>, n: nat): (cl: (int, int))
    requires 1 <= n <= |s|
    ensures 1 <= cl.0 <= cl.1 <= n
  {
    if n == 1 then (1, 1)
    else
      var (current, longest) := WalkAsWritten(s, n - 1);
      if Identical(DiffInDays(s[n - 2], s[n - 1]), PhpInt(1)) then
        (current + 1, if longest < current + 1 then current + 1 else longest)
      else (1, longest)
  }

  /** The streak as the source computes it, with the identity test of the day difference. */
  function LongestStreakAsWritten(activeDays: seq<int>): (r: int)
    ensures r == 0 <==> |activeDays| == 0
    ensures 0 <= r <= |activeDays|
  {
    var s := SortAscending(activeDays);
    if |s| == 0 then 0 else WalkAsWritten(s, |s|).1
  }

  lemma {:induction false} WalkAsWrittenStaysAtOne(s: seq<int>, n: nat)
    requires 1 <= n <= |s|
    ensures WalkAsWritten(s, n) == (1, 1)
  {
    if n > 1 {
      WalkAsWrittenStaysAtOne(s, n - 1);
    }
  }

  /** As written, any non-empty set of active days has a longest streak of 1. */
  lemma AsWrittenStreakIsOne(activeDays: seq<int>)
    requires |activeDays| > 0
    ensures LongestStreakAsWritten(activeDays) == 1
  {
    WalkAsWrittenStaysAtOne(SortAscending(activeDays), |activeDays|);
  }

  /** Three consecutive days: the intended streak is 3, the code as written reports 1. */
  lemma {:induction false} AsWrittenMissesConsecutiveDays(d: int)
    ensures LongestStreakAsWritten([d, d + 1, d + 2]) == 1
    ensures LongestStreak([d, d + 1, d + 2]) == 3
  {
    AsWrittenStreakIsOne([d, d + 1, d + 2]);
    ConsecutiveSorted(d);
    var s := [d, d + 1, d + 2];
    assert StreakEndingAt(s, 1) == 2;
    assert StreakEndingAt(s, 2) == 3;
  }

  lemma ConsecutiveSorted(d: int)
    ensures SortAscending([d, d + 1, d + 2]) == [d, d + 1, d + 2]
  {
    SortPrepend(d + 2, []);
    assert [d + 2] + [] == [d + 2];
    SortPrepend(d + 1, [d + 2]);
    assert [d + 1] + [d + 2] == [d + 1, d + 2];
    SortPrepend(d, [d + 1, d + 2]);
    assert [d] + [d + 1, d + 2] == [d, d + 1, d + 2];
  }

  /** A day below the head of days already in order goes in front when sorting. */
  lemma SortPrepend(x: int, t: seq<int>)
    requires SortAscending(t) == t
    requires t == [] || x < t[0]
    ensures SortAscending([x] + t) == [x] + t
  {
    var s := [x] + t;
    assert s[1..] == t;
    SortUnfold(s);
    InsertBelowHead(x, t);
  }

  lemma SortUnfold(s: seq<int>)
    requires s != []
    ensures SortAscending(s) == InsertAscending(s[0], SortAscending(s[1..]))
  { }

  lemma InsertBelowHead(x: int, s: seq<int>)
    requires s == [] || x < s[0]
    ensures InsertAscending(x, s) == [x] + s
  { }
}
