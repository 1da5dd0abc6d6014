/**
 * Concrete cohorts worked through the model: the leaderboard and season
 * boundary cases of the feature tests, a streak with a gap, and the week
 * convention on known dates.
 */
module Scenarios {
  import opened Calendar
  import opened Seasons
  import opened Rounding
  import opened Streak
  import opened UserStats
  import opened SeasonStats

  /** 2026-02-09 is a Monday: it starts its own week and that of 2026-02-10. */
  lemma MondayWeeks()
    ensures WeekStart(Ordinal(Date(2026, 2, 10))) == Ordinal(Date(2026, 2, 9))
    ensures WeekStart(Ordinal(Date(2026, 2, 9))) == Ordinal(Date(2026, 2, 9))
  {
    assert DaysBeforeYear(2026) == 739616;
    assert DaysBeforeMonth(2026, 2) == 31;
    assert Ordinal(Date(2026, 2, 9)) == 739655 == 7 * 105665;
  }

  /** The open season of 2026 touches 27 weeks: Monday 2025-12-29 up to Monday 2026-06-29. */
  lemma OpenSeasonWeeks2026()
    ensures TotalWeeks(OpenSeason, 2026) == 27
  {
    var range := SeasonRange(OpenSeason, 2026);
    assert range.start == Ordinal(Date(2026, 1, 1));
    assert range.end == Ordinal(Date(2026, 6, 30));
    assert WeekStart(range.start) == Ordinal(Date(2026, 1, 1)) - 3;
    assert WeekStart(range.end) == Ordinal(Date(2026, 6, 30)) - 1;
  }

  function RunnerA(day: int): User {
    User(1, "Runner A", Some(Goal(10000, 10000)), [Run(day, 5000)])
  }

  function RunnerB(day: int): User {
    User(2, "Runner B", Some(Goal(20000, 20000)), [Run(day, 5000)])
  }

  /** One run of 50 km is 50% of a 100 km target. */
  lemma CompletionOfHalf()
    ensures CompletionPercent(5000, 10000) == 50.0
    ensures CompletionPercent(5000, 20000) == 25.0
  {
    assert Completion(5000, 10000) * 100.0 == 5000 as real / 100.0;
    Round2Exact(5000);
    assert Completion(5000, 20000) * 100.0 == 2500 as real / 100.0;
    Round2Exact(2500);
  }

  /**
   * Two runners each run 50 km on 2026-02-10, against targets of 100 km and 200 km:
   * the open season of 2026 ranks the first at 50% ahead of the second at 25%.
   */
  lemma LeaderboardByCompletion()
    ensures var day := Ordinal(Date(2026, 2, 10));
      var players := SeasonStatsOf(OpenSeason, 2026, [RunnerA(day), RunnerB(day)]).players;
      && |players| == 2
      && players[0].stats.raw.name == "Runner A" && players[0].stats.raw.completionPercentage == 50.0
      && players[0].rank == 1
      && players[1].stats.raw.name == "Runner B" && players[1].stats.raw.completionPercentage == 25.0
      && players[1].rank == 2
  {
    var day := Ordinal(Date(2026, 2, 10));
    var users := [RunnerA(day), RunnerB(day)];
    RunnersLoaded(day, SeasonRange(OpenSeason, 2026));
    RunnersRaw(day);
    CohortOfTwo(OpenSeason, 2026, users);
  }

  /** In a cohort of two, the runner with the higher completion is ranked first. */
  lemma CohortOfTwo(season: Season, year: int, users: seq<User>)
    requires |users| == 2
    ensures var raw := RawCohort(LoadCohort(users, SeasonRange(season, year)), season, year);
      var players := SeasonStatsOf(season, year, users).players;
      raw[0].completionPercentage >= raw[1].completionPercentage ==>
        players == [Player(ScoreOf(raw[0], raw), 1), Player(ScoreOf(raw[1], raw), 2)]
  {
    var raw := RawCohort(LoadCohort(users, SeasonRange(season, year)), season, year);
    if raw[0].completionPercentage >= raw[1].completionPercentage {
      ScoreTwo(raw);
    }
  }

  lemma ScoreTwo(raw: seq<RawStats>)
    requires |raw| == 2 && raw[0].completionPercentage >= raw[1].completionPercentage
    ensures Rank(SortByCompletion(Score(raw))) == [Player(ScoreOf(raw[0], raw), 1), Player(ScoreOf(raw[1], raw), 2)]
  {
    var scored := Score(raw);
    Pair(scored);
    RankTwo(scored[0], scored[1]);
  }

  lemma Pair<T>(s: seq<T>)
    requires |s| == 2
    ensures s == [s[0], s[1]]
  {
  }

  /** A cohort of two in descending order of completion is ranked 1 and 2 as it stands. */
  lemma RankTwo(a: ScoredStats, b: ScoredStats)
    requires PlayerCompletion(a) >= PlayerCompletion(b)
    ensures Rank(SortByCompletion([a, b])) == [Player(a, 1), Player(b, 2)]
  {
    SortTwo(a, b);
  }

  /** Runner A completes 50% of the target and runner B 25%. */
  lemma RunnersRaw(day: int)
    ensures var raw := RawCohort([RunnerA(day), RunnerB(day)], OpenSeason, 2026);
      && raw[0].name == "Runner A" && raw[0].completionPercentage == 50.0
      && raw[1].name == "Runner B" && raw[1].completionPercentage == 25.0
  {
    CompletionOfHalf();
    CompletionPercentage(RunnerA(day), OpenSeason, 2026);
    CompletionPercentage(RunnerB(day), OpenSeason, 2026);
  }

  /** Both runs of 2026-02-10 fall in the open season of 2026 and are kept by the load. */
  lemma RunnersLoaded(day: int, range: Range)
    requires day == Ordinal(Date(2026, 2, 10)) && range == SeasonRange(OpenSeason, 2026)
    ensures LoadCohort([RunnerA(day), RunnerB(day)], range) == [RunnerA(day), RunnerB(day)]
  {
    CurrentSeasonContainsDate(Date(2026, 2, 10), OpenSeason);
    assert InRange(day, range);
    assert RunsBetween([Run(day, 5000)], range) == [Run(day, 5000)] by {
      assert [Run(day, 5000)][..0] == [];
    }
  }

  /** Two entries already in descending order of completion are left in place. */
  lemma SortTwo(a: ScoredStats, b: ScoredStats)
    requires PlayerCompletion(a) >= PlayerCompletion(b)
    ensures SortByCompletion([a, b]) == [a, b]
  {
    assert [a, b][1..] == [b];
    assert [b][1..] == [];
    assert SortByCompletion([b]) == [b];
  }

  function Boundary(june30: int, july1: int): User {
    User(1, "Runner", Some(Goal(10000, 10000)), [Run(june30, 1000), Run(july1, 1200)])
  }

  /** A run on June 30 counts for the open season, a run on July 1 for the closed one. */
  lemma SeasonBoundaries(june30: int, july1: int)
    requires june30 == Ordinal(Date(2026, 6, 30)) && july1 == Ordinal(Date(2026, 7, 1))
    ensures SeasonStatsOf(OpenSeason, 2026, [Boundary(june30, july1)]).players[0].stats.raw.totalKm == 10.0
    ensures SeasonStatsOf(ClosedSeason, 2026, [Boundary(june30, july1)]).players[0].stats.raw.totalKm == 12.0
  {
    BoundaryRuns(june30, july1);
    SoleRun(OpenSeason, 2026, Boundary(june30, july1), Run(june30, 1000));
    SoleRun(ClosedSeason, 2026, Boundary(june30, july1), Run(july1, 1200));
  }

  lemma BoundaryRuns(june30: int, july1: int)
    requires june30 == Ordinal(Date(2026, 6, 30)) && july1 == Ordinal(Date(2026, 7, 1))
    ensures RunsBetween(Boundary(june30, july1).runs, SeasonRange(OpenSeason, 2026)) == [Run(june30, 1000)]
    ensures RunsBetween(Boundary(june30, july1).runs, SeasonRange(ClosedSeason, 2026)) == [Run(july1, 1200)]
  {
    var runs := Boundary(june30, july1).runs;
    CurrentSeasonContainsDate(Date(2026, 6, 30), OpenSeason);
    CurrentSeasonContainsDate(Date(2026, 6, 30), ClosedSeason);
    CurrentSeasonContainsDate(Date(2026, 7, 1), OpenSeason);
    CurrentSeasonContainsDate(Date(2026, 7, 1), ClosedSeason);
    assert runs[..1] == [Run(june30, 1000)] && runs[..1][..0] == [];
  }

  /** A cohort of one whose season holds a single run: the total is that run's distance. */
  lemma SoleRun(season: Season, year: int, u: User, run: Run)
    requires RunsBetween(u.runs, SeasonRange(season, year)) == [run]
    ensures SeasonStatsOf(season, year, [u]).players[0].stats.raw.totalKm == Km(run.distance)
  {
    OnlyPlayer(season, year, u);
    TotalOfOneRun(u.(runs := [run]), season, year);
  }

  lemma TotalOfOneRun(u: User, season: Season, year: int)
    requires |u.runs| == 1
    ensures RawStatsForUser(u, season, year).totalKm == Km(u.runs[0].distance)
  {
    assert u.runs[..0] == [];
    DistancesInKm(u, season, year);
  }

  /** A cohort of one: its only player is that user's scored figures. */
  lemma OnlyPlayer(season: Season, year: int, u: User)
    ensures var loaded := u.(runs := RunsBetween(u.runs, SeasonRange(season, year)));
      SeasonStatsOf(season, year, [u]).players[0].stats.raw == RawStatsForUser(loaded, season, year)
  {
    var scored := ScoredCohort(season, year, [u]);
    assert SortByCompletion(scored) == InsertByCompletion(scored[0], []) by {
      assert scored[1..] == [];
    }
  }

  /** Three consecutive days, a day off, then one more: a streak of 3 over 4 active days. */
  lemma StreakWithGap(d: int)
    ensures var runs := [Run(d, 500), Run(d + 1, 500), Run(d + 2, 500), Run(d + 4, 500)];
      && |ActiveDays(runs)| == 4
      && LongestStreak(ActiveDays(runs)) == 3
  {
    var runs := [Run(d, 500), Run(d + 1, 500), Run(d + 2, 500), Run(d + 4, 500)];
    var days := [d, d + 1, d + 2, d + 4];
    assert RunDates(runs) == days;
    assert Distinct(days);
    DistinctCardinality(days);
    var u := ActiveDays(runs);
    DistinctCardinality(u);
    assert DaySet(u) == DaySet(days);
    LongestStreakIsLongestBlock(u);
    assert IsStreak(DaySet(u), d, 3);
    NoBlockOfFour(DaySet(u), d);
  }

  /** In {d, d+1, d+2, d+4} no block of consecutive days is longer than 3. */
  lemma NoBlockOfFour(days: set<int>, d: int)
    requires days == {d, d + 1, d + 2, d + 4}
    ensures forall first, len: nat :: IsStreak(days, first, len) ==> len <= 3
  {
    forall first, len: nat | IsStreak(days, first, len) ensures len <= 3 {
      assert len > 0 ==> first in days;
      assert len > 1 ==> first + 1 in days;
      assert len > 2 ==> first + 2 in days;
      assert len > 3 ==> first + 3 in days;
    }
  }
}
