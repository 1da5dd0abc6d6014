/**
 * Per-user season statistics: the raw figures computed for one user from the
 * runs that fall in the season and from the user's goal.
 *
 * Distances are kept as natural numbers of hundredths of a km, as the
 * two-decimal columns hold them; figures that are divided become reals and
 * are rounded to two decimals as the code does.
 */
module UserStats {
  import opened Calendar
  import opened Seasons
  import opened Streak
  import opened Rounding

  datatype Option<T> = None | Some(value: T)

  /** A run: the day it was run on and its distance in hundredths of a km. */
  datatype Run = Run(date: int, distance: nat)

  /** A user's goal: one target per season, in hundredths of a km. */
  datatype Goal = Goal(openSeasonTarget: nat, closedSeasonTarget: nat)

  /** A user with an optional goal and the runs loaded for the season. */
  datatype User = User(id: int, name: string, goal: Option<Goal>, runs: seq<Run>)

  datatype RawStats = RawStats(
    id: int,
    name: string,
    totalKm: real,
    targetKm: real,
    completionPercentage: real,
    runsCount: nat,
    activeDays: nat,
    avgDistance: real,
    longestRun: real,
    longestStreakDays: nat,
    activeWeeks: nat,
    activitySpreadScore: real)

  /** Hundredths of a km as km. */
  function Km(hundredths: int): real {
    hundredths as real / 100.0
  }

  /** Sum of the run distances. */
  function TotalDistance(runs: seq<Run>): (t: nat)
    ensures runs == [] ==> t == 0
  {
    if runs == [] then 0 else TotalDistance(runs[..|runs| - 1]) + runs[|runs| - 1].distance
  }

  /** Longest single run, 0 when there is none. */
  function LongestDistance(runs: seq<Run>): (m: nat)
    ensures forall i :: 0 <= i < |runs| ==> runs[i].distance <= m
    ensures runs == [] ==> m == 0
    ensures runs != [] ==> exists i :: 0 <= i < |runs| && runs[i].distance == m
  {
    if runs == [] then 0
    else
      var before := LongestDistance(runs[..|runs| - 1]);
      var last := runs[|runs| - 1].distance;
      if |runs| == 1 || before < last then last else before
  }

  /** The dates of the runs, in run order. */
  function RunDates(runs: seq<Run>): (ds: seq<int>)
    ensures |ds| == |runs|
    ensures forall i :: 0 <= i < |runs| ==> ds[i] == runs[i].date
  {
    seq(|runs|, i requires 0 <= i < |runs| => runs[i].date)
  }

  /** The collection's `unique()`: first occurrences, in order. */
  function Unique(xs: seq<int>): (u: seq<int>)
    ensures Distinct(u)
    ensures DaySet(u) == DaySet(xs)
    ensures |u| <= |xs|
  {
    if xs == [] then []
    else
      var before := Unique(xs[..|xs| - 1]);
      var last := xs[|xs| - 1];
      assert xs == xs[..|xs| - 1] + [last];
      assert DaySet(xs) == DaySet(xs[..|xs| - 1]) + {last};
      assert DaySet(before + [last]) == DaySet(before) + {last};
      if last in before then before else before + [last]
  }

  /** A sequence without repetitions has as many elements as its set. */
  lemma {:induction false} DistinctCardinality(u: seq<int>)
    requires Distinct(u)
    ensures |DaySet(u)| == |u|
  {
    if u != [] {
      var init := u[..|u| - 1];
      assert DaySet(u) == DaySet(init) + {u[|u| - 1]};
      assert u[|u| - 1] !in DaySet(init);
      DistinctCardinality(init);
    }
  }

  /** The distinct days with at least one run. */
  function ActiveDays(runs: seq<Run>): (days: seq<int>)
    ensures Distinct(days)
    ensures DaySet(days) == DaySet(RunDates(runs))
    ensures |days| <= |runs|
  {
    Unique(RunDates(runs))
  }

  /** The Monday of the week of each run. */
  function RunWeekStarts(runs: seq<Run>): (ws: seq<int>)
    ensures |ws| == |runs|
    ensures forall i :: 0 <= i < |runs| ==> ws[i] == WeekStart(runs[i].date)
  {
    seq(|runs|, i requires 0 <= i < |runs| => WeekStart(runs[i].date))
  }

  /** Number of distinct weeks with at least one run. */
  function ActiveWeeksCount(runs: seq<Run>): (n: nat)
    ensures n == |DaySet(RunWeekStarts(runs))|
    ensures n <= |runs|
  {
    DistinctCardinality(Unique(RunWeekStarts(runs)));
    |Unique(RunWeekStarts(runs))|
  }

  /** Calendar weeks the season touches: from the week of its first day to the week of its last. */
  function TotalWeeks(season: Season, year: int): (n: int)
    ensures n >= 1
  {
    var range := SeasonRange(season, year);
    WeeksBetween(range.start, range.end)
  }

  /** Weeks from the week of `lo` to the week of `hi`, both included. */
  function WeeksBetween(lo: int, hi: int): (n: int)
    requires lo <= hi
    ensures n >= 1
    ensures 7 * n == WeekStart(hi) - WeekStart(lo) + 7
  {
    WeekStartMonotone(lo, hi);
    (WeekStart(hi) - WeekStart(lo)) / 7 + 1
  }

  /** Share of the season's weeks that have a run, as a percentage (not rounded here). */
  function ActivitySpreadScore(activeWeeks: nat, season: Season, year: int): (r: real)
    ensures r >= 0.0
  {
    PercentOf(activeWeeks, TotalWeeks(season, year))
  }

  /** `part` as a percentage of `whole`, guarded against a whole that is not positive. */
  function PercentOf(part: nat, whole: int): (r: real)
    ensures r >= 0.0
  {
    if whole <= 0 then 0.0 else (part as real / whole as real) * 100.0
  }

  /** A percentage of a positive whole, times the whole, is 100 times the part; it is 0 exactly for no part. */
  lemma PercentTimesWhole(part: nat, whole: int)
    requires whole > 0
    ensures PercentOf(part, whole) * whole as real == part as real * 100.0
    ensures part == 0 <==> PercentOf(part, whole) == 0.0
  {
    var q := part as real / whole as real;
    assert q * whole as real == part as real;
    assert (q * 100.0) * whole as real == (q * whole as real) * 100.0;
  }

  /**
   * The spread is the active weeks as a percentage of the season's weeks, whose
   * number is positive (so, by `PercentTimesWhole`, the spread times the season's
   * weeks is 100 times the active weeks); it is 0 exactly when no week has a run.
   */
  lemma SpreadIsShare(activeWeeks: nat, season: Season, year: int)
    ensures TotalWeeks(season, year) > 0
    ensures ActivitySpreadScore(activeWeeks, season, year) == PercentOf(activeWeeks, TotalWeeks(season, year))
    ensures activeWeeks == 0 <==> ActivitySpreadScore(activeWeeks, season, year) == 0.0
  {
    PercentTimesWhole(activeWeeks, TotalWeeks(season, year));
  }

  /** Reads a goal attribute by name; an attribute the goal does not have reads as null. */
  function GoalAttribute(g: Goal, field: string): (v: Option<nat>)
    ensures v.Some? <==> field == "open_season_target_km" || field == "closed_season_target_km"
    ensures field == "open_season_target_km" ==> v == Some(g.openSeasonTarget)
    ensures field == "closed_season_target_km" ==> v == Some(g.closedSeasonTarget)
  {
    if field == "open_season_target_km" then Some(g.openSeasonTarget)
    else if field == "closed_season_target_km" then Some(g.closedSeasonTarget)
    else None
  }

  /** The season's target of a user; no goal counts as 0. */
  function Target(user: User, season: Season): (t: nat)
    ensures user.goal.None? ==> t == 0
    ensures user.goal.Some? ==> GoalAttribute(user.goal.value, season.TargetField()) == Some(t)
  {
    TargetFieldsDistinct();
    match user.goal
    case None => 0
    case Some(g) => if season.OpenSeason? then g.openSeasonTarget else g.closedSeasonTarget
  }

  /** Completion, as a fraction of the target; 0 when the target is not positive. */
  function Completion(total: nat, target: nat): (c: real)
    ensures c >= 0.0
    ensures target == 0 ==> c == 0.0
  {
    if target > 0 then Km(total) / Km(target) else 0.0
  }

  /** Average run in km; 0 without runs. */
  function Mean(total: nat, count: nat): (avg: real)
    ensures avg >= 0.0
    ensures count == 0 ==> avg == 0.0
  {
    if count > 0 then Km(total) / count as real else 0.0
  }

  /** A positive target: completion is the share of the target the total covers. */
  lemma CompletionIsShare(total: nat, target: nat)
    requires target > 0
    ensures Completion(total, target) * Km(target) == Km(total)
  {
  }

  /** With runs, the mean times the number of runs is the total. */
  lemma MeanIsShare(total: nat, count: nat)
    requires count > 0
    ensures Mean(total, count) * count as real == Km(total)
  {
  }

  /** Completion as a percentage, rounded to two decimals. */
  function CompletionPercent(total: nat, target: nat): (p: real)
    ensures p >= 0.0
    ensures target == 0 ==> p == 0.0
    ensures (p * 100.0).Floor as real == p * 100.0
  {
    Round2(Completion(total, target) * 100.0)
  }

  function RawStatsForUser(user: User, season: Season, year: int): (s: RawStats)
    ensures s.id == user.id && s.name == user.name
    ensures s.runsCount == |user.runs|
  {
    var runs := user.runs;
    var total := TotalDistance(runs);
    var count := |runs|;
    var avg := Mean(total, count);
    var longest := LongestDistance(runs);
    var activeDays := ActiveDays(runs);
    var streak := LongestStreak(activeDays);
    var activeWeeks := ActiveWeeksCount(runs);
    var spread := ActivitySpreadScore(activeWeeks, season, year);
    var target := Target(user, season);
    RawStats(
      user.id, user.name,
      Round2(Km(total)), Round2(Km(target)), CompletionPercent(total, target),
      count, |activeDays|,
      Round2(avg), Round2(Km(longest)),
      streak, activeWeeks, Round2(spread))
  }

  // ---------------------------------------------------------------------
  // Properties of the per-user figures

  /** The season's target is read from the goal field of that season; no goal reads as 0. */
  lemma TargetOfSeason(user: User)
    ensures user.goal.None? ==> Target(user, OpenSeason) == 0 && Target(user, ClosedSeason) == 0
    ensures user.goal.Some? ==> Target(user, OpenSeason) == user.goal.value.openSeasonTarget
    ensures user.goal.Some? ==> Target(user, ClosedSeason) == user.goal.value.closedSeasonTarget
  {
  }

  /**
   * A user's completion is the completion percentage of their season total
   * against their season target; it is never negative, and 0 without a target.
   */
  lemma CompletionPercentage(user: User, season: Season, year: int)
    ensures var s := RawStatsForUser(user, season, year);
      var total, target := TotalDistance(user.runs), Target(user, season);
      && s.completionPercentage == CompletionPercent(total, target)
      && s.completionPercentage >= 0.0
      && (target == 0 ==> s.completionPercentage == 0.0)
  {
    CompletionField(user, season, year);
    RoundedCompletion(TotalDistance(user.runs), Target(user, season));
  }

  lemma CompletionField(user: User, season: Season, year: int)
    ensures RawStatsForUser(user, season, year).completionPercentage
      == CompletionPercent(TotalDistance(user.runs), Target(user, season))
  {
  }

  /**
   * The completion percentage is 0 without a positive target, and otherwise
   * the total as a percentage of the target, rounded to two decimals.
   */
  lemma RoundedCompletion(total: nat, target: nat)
    ensures CompletionPercent(total, target) == Round2(Completion(total, target) * 100.0)
    ensures CompletionPercent(total, target) >= 0.0
    ensures target == 0 ==> CompletionPercent(total, target) == 0.0
    ensures target > 0 ==> var exact := Km(total) / Km(target) * 100.0;
      exact - 0.005 <= CompletionPercent(total, target) <= exact + 0.005
  {
    if target == 0 {
      assert Completion(total, target) * 100.0 == 0 as real / 100.0;
      Round2Exact(0);
    }
  }

  /** The total and the target are reported in km, exactly: they already have two decimals. */
  lemma DistancesInKm(user: User, season: Season, year: int)
    ensures var s := RawStatsForUser(user, season, year);
      s.totalKm == Km(TotalDistance(user.runs)) && s.targetKm == Km(Target(user, season))
  {
    KmFields(user, season, year);
    KmIsRounded(TotalDistance(user.runs));
    KmIsRounded(Target(user, season));
  }

  /**
   * The remaining figures: the longest run is reported in km exactly, and the
   * average and the spread are their exact values rounded to two decimals.
   */
  lemma RoundedFigures(user: User, season: Season, year: int)
    ensures var s := RawStatsForUser(user, season, year);
      var runs := user.runs;
      var avg := Mean(TotalDistance(runs), |runs|);
      var spread := ActivitySpreadScore(ActiveWeeksCount(runs), season, year);
      && s.longestRun == Km(LongestDistance(runs))
      && s.avgDistance == Round2(avg) && avg - 0.005 <= s.avgDistance <= avg + 0.005
      && s.activitySpreadScore == Round2(spread) && spread - 0.005 <= s.activitySpreadScore <= spread + 0.005
  {
    FigureFields(user, season, year);
    KmIsRounded(LongestDistance(user.runs));
  }

  lemma FigureFields(user: User, season: Season, year: int)
    ensures RawStatsForUser(user, season, year).longestRun == Round2(Km(LongestDistance(user.runs)))
    ensures RawStatsForUser(user, season, year).avgDistance == Round2(Mean(TotalDistance(user.runs), |user.runs|))
    ensures RawStatsForUser(user, season, year).activitySpreadScore ==
      Round2(ActivitySpreadScore(ActiveWeeksCount(user.runs), season, year))
  {
  }

  lemma CountFields(user: User, season: Season, year: int)
    ensures RawStatsForUser(user, season, year).activeDays == |ActiveDays(user.runs)|
    ensures RawStatsForUser(user, season, year).longestStreakDays == LongestStreak(ActiveDays(user.runs))
    ensures RawStatsForUser(user, season, year).activeWeeks == ActiveWeeksCount(user.runs)
  {
  }

  /** A distance in hundredths is already rounded to two decimals in km. */
  lemma KmIsRounded(n: int)
    ensures Round2(Km(n)) == Km(n)
  {
    Round2Exact(n);
  }

  lemma KmFields(user: User, season: Season, year: int)
    ensures RawStatsForUser(user, season, year).totalKm == Round2(Km(TotalDistance(user.runs)))
    ensures RawStatsForUser(user, season, year).targetKm == Round2(Km(Target(user, season)))
  {
  }

  /** A user without runs appears with every figure at 0. */
  lemma {:induction false} NoRunsAllZero(user: User, season: Season, year: int)
    requires user.runs == []
    ensures var s := RawStatsForUser(user, season, year);
      && s.totalKm == 0.0 && s.runsCount == 0 && s.avgDistance == 0.0 && s.longestRun == 0.0
      && s.activeDays == 0 && s.longestStreakDays == 0 && s.activeWeeks == 0
      && s.activitySpreadScore == 0.0 && s.completionPercentage == 0.0
  {
    KmFields(user, season, year);
    FigureFields(user, season, year);
    CountFields(user, season, year);
    CompletionPercentage(user, season, year);
    NoRunsZeroFigures(user.runs, season, year);
  }

  lemma NoRunsZeroFigures(runs: seq<Run>, season: Season, year: int)
    requires runs == []
    ensures Round2(Km(TotalDistance(runs))) == 0.0 && Round2(Km(LongestDistance(runs))) == 0.0
    ensures Round2(Mean(TotalDistance(runs), |runs|)) == 0.0
    ensures |ActiveDays(runs)| == 0 && LongestStreak(ActiveDays(runs)) == 0 && ActiveWeeksCount(runs) == 0
    ensures Round2(ActivitySpreadScore(ActiveWeeksCount(runs), season, year)) == 0.0
    ensures forall target :: CompletionPercent(TotalDistance(runs), target) == 0.0
  {
    Round2Exact(0);
    SpreadIsShare(0, season, year);
    forall target ensures CompletionPercent(TotalDistance(runs), target) == 0.0 {
      assert Completion(0, target) * 100.0 == 0 as real / 100.0;
    }
  }

  /** A total of runs that are each at most `bound` is at most `bound` times their number. */
  lemma {:induction false} TotalAtMostCountTimes(runs: seq<Run>, bound: nat)
    requires forall i :: 0 <= i < |runs| ==> runs[i].distance <= bound
    ensures TotalDistance(runs) <= |runs| * bound
  {
    if runs != [] {
      var init := runs[..|runs| - 1];
      TotalAtMostCountTimes(init, bound);
      assert TotalDistance(runs) == TotalDistance(init) + runs[|init|].distance;
      assert |runs| * bound == |init| * bound + bound;
    }
  }

  /** A mean of at most `longest` per run is at most `longest`. */
  lemma MeanAtMost(total: nat, count: nat, longest: nat)
    requires count > 0 && total <= count * longest
    ensures Mean(total, count) <= Km(longest)
  {
    var c := count as real;
    var avg := Km(total) / c;
    assert (count * longest) as real == c * longest as real;
    assert avg * c == Km(total);
    if avg > Km(longest) {
      assert avg * c > Km(longest) * c;
    }
  }

  /** The average run is never longer than the longest run; both are 0 without runs. */
  lemma AverageAtMostLongest(user: User, season: Season, year: int)
    ensures var s := RawStatsForUser(user, season, year);
      && 0.0 <= s.avgDistance <= s.longestRun
      && (user.runs == [] ==> s.avgDistance == 0.0 && s.longestRun == 0.0)
  {
    var runs := user.runs;
    var total, longest := TotalDistance(runs), LongestDistance(runs);
    Round2Exact(longest);
    Round2Exact(0);
    if runs != [] {
      TotalAtMostCountTimes(runs, longest);
      MeanAtMost(total, |runs|, longest);
      Round2Monotone(Mean(total, |runs|), Km(longest));
    }
  }

  /** Active days are the distinct run dates: their number never exceeds the number of runs. */
  lemma ActiveDaysAreDistinctDates(user: User, season: Season, year: int)
    ensures var s := RawStatsForUser(user, season, year);
      && s.activeDays == |DaySet(RunDates(user.runs))|
      && s.activeDays <= s.runsCount
  {
    DistinctCardinality(ActiveDays(user.runs));
  }

  /** Another run on a day that already has one leaves the active days, and with them the streak, as they were. */
  lemma SameDayRunKeepsActiveDays(runs: seq<Run>, r: Run)
    requires r.date in RunDates(runs)
    ensures ActiveDays(runs + [r]) == ActiveDays(runs)
    ensures LongestStreak(ActiveDays(runs + [r])) == LongestStreak(ActiveDays(runs))
  {
    var ds := RunDates(runs + [r]);
    assert ds[..|ds| - 1] == RunDates(runs);
    assert r.date in DaySet(Unique(RunDates(runs)));
  }

  /** Distinct week starts are no more than the distinct days they come from. */
  lemma {:induction false} WeekImageSmaller(days: seq<int>)
    ensures |set d | d in DaySet(days) :: WeekStart(d)| <= |DaySet(days)|
  {
    if days != [] {
      var init, last := days[..|days| - 1], days[|days| - 1];
      WeekImageSmaller(init);
      assert days == init + [last];
      assert DaySet(days) == DaySet(init) + {last};
      var before := set d | d in DaySet(init) :: WeekStart(d);
      var after := set d | d in DaySet(days) :: WeekStart(d);
      assert after == before + {WeekStart(last)};
      if last in DaySet(init) {
        assert DaySet(days) == DaySet(init);
        assert after == before;
      } else {
        assert |DaySet(days)| == |DaySet(init)| + 1;
        assert |after| <= |before| + 1;
      }
    }
  }

  lemma WeekStartsOfDates(runs: seq<Run>)
    ensures DaySet(RunWeekStarts(runs)) == set d | d in DaySet(RunDates(runs)) :: WeekStart(d)
  {
    var ws, ds := RunWeekStarts(runs), RunDates(runs);
    forall w | w in DaySet(ws) ensures w in set d | d in DaySet(ds) :: WeekStart(d) {
      var i :| 0 <= i < |ws| && ws[i] == w;
      assert ds[i] in DaySet(ds);
    }
    forall w | w in (set d | d in DaySet(ds) :: WeekStart(d)) ensures w in DaySet(ws) {
      var d :| d in DaySet(ds) && WeekStart(d) == w;
      var i :| 0 <= i < |ds| && ds[i] == d;
      assert ws[i] == w;
    }
  }

  /** Active weeks are the distinct week starts of the runs, never more than the active days. */
  lemma ActiveWeeksAtMostActiveDays(user: User, season: Season, year: int)
    ensures var s := RawStatsForUser(user, season, year);
      && s.activeWeeks == |DaySet(RunWeekStarts(user.runs))|
      && s.activeWeeks <= s.activeDays
  {
    var runs := user.runs;
    DistinctCardinality(ActiveDays(runs));
    DistinctCardinality(Unique(RunWeekStarts(runs)));
    WeekStartsOfDates(runs);
    WeekImageSmaller(RunDates(runs));
  }

  /**
   * The streak is 0 exactly without active days, at most the number of active
   * days, and the length of the longest block of consecutive run days.
   */
  lemma StreakIsLongestBlock(user: User, season: Season, year: int)
    ensures var s := RawStatsForUser(user, season, year);
      && (s.longestStreakDays == 0 <==> s.activeDays == 0)
      && s.longestStreakDays <= s.activeDays
      && (exists first :: IsStreak(DaySet(RunDates(user.runs)), first, s.longestStreakDays))
      && (forall first, len: nat :: IsStreak(DaySet(RunDates(user.runs)), first, len) ==> len <= s.longestStreakDays)
  {
    LongestStreakIsLongestBlock(ActiveDays(user.runs));
  }

  /** Adding a run never shortens the longest streak. */
  lemma StreakMonotone(runs: seq<Run>, r: Run)
    ensures LongestStreak(ActiveDays(runs)) <= LongestStreak(ActiveDays(runs + [r]))
  {
    var before, after := ActiveDays(runs), ActiveDays(runs + [r]);
    LongestStreakIsLongestBlock(before);
    LongestStreakIsLongestBlock(after);
    var ds := RunDates(runs + [r]);
    assert ds[..|ds| - 1] == RunDates(runs);
    assert DaySet(before) <= DaySet(after);
    var n := LongestStreak(before);
    var first :| IsStreak(DaySet(before), first, n);
    assert IsStreak(DaySet(after), first, n);
  }

  /** The week starts first + 7k for k below n. */
  function Weeks(first: int, n: nat): (ws: set<int>)
    ensures |ws| == n
    ensures forall w :: w in ws <==> first <= w < first + 7 * n && (w - first) % 7 == 0
  {
    if n == 0 then {}
    else
      var before := Weeks(first, n - 1);
      var last := first + 7 * (n - 1);
      assert last !in before;
      before + {last}
  }

  /** Runs between days `lo` and `hi` fall in at most WeeksBetween(lo, hi) distinct weeks. */
  lemma {:induction false} ActiveWeeksWithin(runs: seq<Run>, lo: int, hi: int)
    requires lo <= hi
    requires forall r :: r in runs ==> lo <= r.date <= hi
    ensures ActiveWeeksCount(runs) <= WeeksBetween(lo, hi)
  {
    var a, n := WeekStart(lo), WeeksBetween(lo, hi);
    var ws := RunWeekStarts(runs);
    forall w | w in DaySet(ws) ensures w in Weeks(a, n) {
      var i :| 0 <= i < |ws| && ws[i] == w;
      assert runs[i] in runs;
      WeekOfDateInRange(runs[i].date, lo, hi);
    }
    AtMostWeeks(DaySet(ws), a, n);
    DistinctCardinality(Unique(ws));
  }

  /** The week of a day between lo and hi is one of the weeks from lo's week to hi's. */
  lemma WeekOfDateInRange(d: int, lo: int, hi: int)
    requires lo <= d <= hi
    ensures WeekStart(d) in Weeks(WeekStart(lo), WeeksBetween(lo, hi))
  {
    WeekStartMonotone(lo, d);
    WeekStartMonotone(d, hi);
    assert (WeekStart(d) - WeekStart(lo)) % 7 == 0;
  }

  /** A set of week starts among the n weeks from `first` has at most n elements. */
  lemma {:induction false} AtMostWeeks(ws: set<int>, first: int, n: nat)
    requires ws <= Weeks(first, n)
    ensures |ws| <= n
  {
    if n > 0 {
      var last := first + 7 * (n - 1);
      assert ws - {last} <= Weeks(first, n - 1);
      AtMostWeeks(ws - {last}, first, n - 1);
    }
  }

  /** Within the season's range, the spread is a percentage in [0, 100]. */
  lemma SpreadIsPercentage(user: User, season: Season, year: int)
    requires forall r :: r in user.runs ==> InRange(r.date, SeasonRange(season, year))
    ensures var s := RawStatsForUser(user, season, year);
      && s.activeWeeks <= TotalWeeks(season, year)
      && 0.0 <= s.activitySpreadScore <= 100.0
  {
    ActiveWeeksWithin(user.runs, SeasonRange(season, year).start, SeasonRange(season, year).end);
    var aw, n := ActiveWeeksCount(user.runs), TotalWeeks(season, year);
    SpreadAtMostHundred(aw, n);
    Round2Percentage(ActivitySpreadScore(aw, season, year));
  }

  lemma SpreadAtMostHundred(activeWeeks: nat, totalWeeks: int)
    requires 0 < totalWeeks && activeWeeks <= totalWeeks
    ensures (activeWeeks as real / totalWeeks as real) * 100.0 <= 100.0
  {
    var q, t := activeWeeks as real / totalWeeks as real, totalWeeks as real;
    assert q * t == activeWeeks as real;
    assert (1.0 - q) * t == t - activeWeeks as real;
    assert t - activeWeeks as real >= 0.0;
  }
}
