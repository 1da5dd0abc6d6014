# parkirun season statistics, modelled in Dafny

parkirun keeps each user's runs (a date and a distance in km) and a goal
with one target per season. The year has two seasons: the open season runs
from January 1 to June 30 and the closed season from July 1 to December 31.
The statistics engine loads a season's runs for every user and computes
each user's raw figures:

- total, average and longest distance;
- active days and the longest streak of consecutive run days;
- active weeks and the activity spread (the share of the season's weeks with a run);
- the target and the completion percentage.

It then normalises five of these figures against the cohort's maximum onto
0..100. It ranks the cohort by completion, highest first, with ties kept in
cohort order. Last, it builds a radar chart dataset per player.

The model is split by the source's own structure:

- `calendar.dfy` (module `Calendar`): dates as day ordinals. Day 0 is
  0001-01-01 in the proleptic Gregorian calendar, a Monday, so the Monday on
  or before day `d` is `d - d % 7`. The model takes that Monday as the start
  of the week that `startOfWeek` returns (see "## Left out").
- `season.dfy` (module `Seasons`): the `Season` enum, `currentSeason` and `seasonRange`.
- `streak.dfy` (module `Streak`): `longestStreakDays`. The method keeps the
  source's loop; the corrected function and its block characterisation sit
  beside it, with the walk as written.
- `rounding.dfy` (module `Rounding`): PHP's `round($x, 2)`.
- `user_stats.dfy` (module `UserStats`): runs, goals and `rawStatsForUser`
  with its helpers `activeWeeksCount` and `activitySpreadScore`.
- `season_stats.dfy` (module `SeasonStats`): `seasonStats`, that is the
  season filter of the load, the cohort maxima, `normalize`, the stable
  ranking and the radar.
- `scenarios.dfy` (module `Scenarios`): the two feature tests and a streak
  with a gap, worked through the model.

Distances and targets are whole hundredths of a km. This follows the
`decimal:2` casts of `app/Models/Run.php:30` and `app/Models/Goal.php:29-30`,
so a sum of distances is exact. Figures the source computes in floating
point are exact reals here, passed through `Round2` where the source rounds.
The reference date of `currentSeason` is a parameter rather than the clock.
The database query becomes a function: the cohort is a sequence of users in
query order, and each user keeps only the runs whose date lies in the
season's range.

The streak loop at `app/Services/SeasonStatsService.php:219-228` shows
what it is for: the branch at lines 222-224 increments `$current` and keeps
`max($longest, $current)`, so a date one day after the previous one is meant
to extend the streak. Its guard compares Carbon's `diffInDays` with the
integer `1` by identity (`===`). Under Carbon 3, `diffInDays` returns a
float, so that guard is never true and the streak stays 1 (see
"## Findings"). This model follows the code as written in
`Streak.LongestStreakAsWritten` and uses the intended streak everywhere else.

## Model

| member | source | states |
|---|---|---|
| `Seasons.Season.Label` | app/Enums/Season.php:12-18 | each season has a non-empty display label |
| `Seasons.LabelsDistinct` | app/Enums/Season.php:12-18 | the two seasons' labels differ |
| `Seasons.Season.StartDate` | app/Enums/Season.php:20-26 | a season starts on a valid first day of a month in the given year |
| `Seasons.Season.EndDate` | app/Enums/Season.php:28-34 | a season ends on the valid last day of a month in the given year |
| `Seasons.Season.TargetField` | app/Enums/Season.php:36-42 | each season names a non-empty goal attribute |
| `Seasons.TargetFieldsDistinct` | app/Enums/Season.php:36-42 | the two seasons read different goal attributes |
| `Seasons.CurrentSeason` | app/Services/SeasonStatsService.php:12-17 | a date is in the open season exactly when its month is at most 6, otherwise in the closed season |
| `Seasons.SeasonRange` | app/Services/SeasonStatsService.php:22-28 | a season's range is non-empty and lies inside its calendar year |
| `Seasons.SeasonBounds` | app/Enums/Season.php:20-34 | the open season is January 1 to June 30, the closed season July 1 to December 31, both inclusive |
| `Seasons.SeasonsAdjacent` | app/Enums/Season.php:20-34 | the open season starts on New Year's Day, the closed season starts the day after the open season ends, and the next open season starts the day after the closed season ends: no day belongs to no season |
| `Seasons.CurrentSeasonContainsDate` | app/Services/SeasonStatsService.php:12-28 | a valid date lies in a season's range of its own year exactly when that season is the date's current season |
| `Calendar.DaysInMonth` | app/Enums/Season.php:28-34 | months have 28 to 31 days, and February has 29 exactly in leap years |
| `Calendar.WeekStart` | app/Services/SeasonStatsService.php:241 | the week start of a day is the Monday on or before it, at most six days earlier |
| `Calendar.WeekStartMonotone` | app/Services/SeasonStatsService.php:249-251 | a later day never has an earlier week start |
| `Calendar.WeekStartOfMonday` | app/Services/SeasonStatsService.php:249-251 | a Monday is its own week start |
| `Calendar.NewYear` | app/Enums/Season.php:28-34 | December 31 and the following January 1 are consecutive days |
| `Calendar.OrdinalWithinMonths` | app/Services/SeasonStatsService.php:71 | a date's day number lies between the first day of any earlier month and the last day of any later month of its year |
| `Rounding.Round2` | app/Services/SeasonStatsService.php:180-189 | rounding to two decimals gives a whole number of hundredths, moves a value by at most half a hundredth and keeps it non-negative |
| `Rounding.Round2Exact` | app/Services/SeasonStatsService.php:180-186 | a value with at most two decimals, such as a `decimal:2` distance, is unchanged by rounding |
| `Rounding.Round2Monotone` | app/Services/SeasonStatsService.php:185-186 | rounding preserves order between non-negative values |
| `Rounding.Round2Percentage` | app/Services/SeasonStatsService.php:189-199 | rounding keeps a percentage within 0..100 |
| `Streak.SortAscending` | app/Services/SeasonStatsService.php:211-214 | the sorted dates are a permutation of the active days and, the days being distinct, strictly increasing |
| `Streak.LongestStreak` | app/Services/SeasonStatsService.php:205-231 | the intended streak is 0 exactly when there are no active days and never exceeds their number |
| `Streak.LongestStreakAsWritten` | app/Services/SeasonStatsService.php:205-231 | the streak as written is 0 exactly when there are no active days and lies between 0 and their number |
| `Streak.Identical` | app/Services/SeasonStatsService.php:222 | PHP's `===` on numbers holds exactly for the same type and value, so a float is never identical to an integer |
| `Streak.WalkAsWritten` | app/Services/SeasonStatsService.php:216-228 | through the walk as written, the current count is at least 1 and at most the longest, which is at most the number of dates seen |
| `Streak.LongestStreakUpTo` | app/Services/SeasonStatsService.php:216-228 | the longest streak over a prefix is the largest streak ending at any of its positions, 0 only for the empty prefix |
| `Streak.LongestStreakIsLongestBlock` | app/Services/SeasonStatsService.php:205-231 | the intended longest streak is 0 exactly for no active days, at most the number of days, the length of some block of consecutive active days, and at least the length of every such block |
| `Streak.LongestStreakDays` | app/Services/SeasonStatsService.php:205-231 | the loop returns the intended longest streak, which is the length of the longest block of consecutive active days and 0 exactly for none |
| `Streak.DiffInDays` | app/Services/SeasonStatsService.php:220 | Carbon's day difference is a float holding the signed number of days between the dates |
| `Streak.WalkAsWrittenStaysAtOne` | app/Services/SeasonStatsService.php:216-228 | with the identity comparison as written, both counters stay at 1 through the walk |
| `Streak.AsWrittenStreakIsOne` | app/Services/SeasonStatsService.php:205-231 | as written, the streak of any non-empty set of active days is 1 |
| `Streak.AsWrittenMissesConsecutiveDays` | app/Services/SeasonStatsService.php:219-224 | three consecutive days give a streak of 1 as written and 3 as intended |
| `UserStats.TotalDistance` | app/Services/SeasonStatsService.php:158 | the total distance of no runs is 0 |
| `UserStats.LongestDistance` | app/Services/SeasonStatsService.php:161 | the longest run is at least every run's distance and is one of them; with no runs it is 0 |
| `UserStats.ActiveDays` | app/Services/SeasonStatsService.php:163-167 | the active days hold no repeats, are exactly the dates the runs carry and are no more numerous than the runs |
| `UserStats.RunDates` | app/Services/SeasonStatsService.php:163 | the plucked dates are the runs' dates, in order |
| `UserStats.Unique` | app/Services/SeasonStatsService.php:163-167 | the unique dates hold no repeats, keep exactly the dates present and are no more numerous |
| `UserStats.DistinctCardinality` | app/Services/SeasonStatsService.php:184 | the count of a repeat-free sequence is the number of distinct dates in it |
| `UserStats.ActiveWeeksCount` | app/Services/SeasonStatsService.php:236-244 | the active weeks are the number of distinct week starts of the run dates and never exceed the number of runs |
| `UserStats.RunWeekStarts` | app/Services/SeasonStatsService.php:238-241 | each run is mapped to the Monday of its week |
| `UserStats.WeeksBetween` | app/Services/SeasonStatsService.php:249-251 | the number of weeks touched from one day to a later one is at least 1, and seven times it spans the first Monday up to the week after the last Monday |
| `UserStats.TotalWeeks` | app/Services/SeasonStatsService.php:246-255 | a season always touches at least one week, so the guard against zero weeks never fires |
| `UserStats.ActivitySpreadScore` | app/Services/SeasonStatsService.php:246-258 | the spread is not negative |
| `UserStats.SpreadIsShare` | app/Services/SeasonStatsService.php:246-258 | the season always has at least one week, the spread is the active weeks as a percentage of the season's weeks, and it is 0 exactly when there are no active weeks |
| `UserStats.PercentTimesWhole` | app/Services/SeasonStatsService.php:257 | a part as a percentage of a positive whole, times the whole, is 100 times the part, and the percentage is 0 exactly when the part is 0 |
| `UserStats.GoalAttribute` | app/Services/SeasonStatsService.php:174 | reading a goal attribute by name gives a value exactly for the two target attributes, each the matching target, and null for any other name |
| `UserStats.Target` | app/Services/SeasonStatsService.php:173-174 | the target is the goal attribute named by the season's target field, or 0 without a goal |
| `UserStats.TargetOfSeason` | app/Services/SeasonStatsService.php:173-174 | without a goal both targets are 0; with one, each season reads its own target |
| `UserStats.Completion` | app/Services/SeasonStatsService.php:175 | the completion ratio is not negative and is 0 when the target is 0 |
| `UserStats.CompletionIsShare` | app/Services/SeasonStatsService.php:175 | with a positive target, the completion ratio times the target is the total |
| `UserStats.Mean` | app/Services/SeasonStatsService.php:160 | the average is not negative and is 0 without runs |
| `UserStats.MeanIsShare` | app/Services/SeasonStatsService.php:160 | with runs, the average times the number of runs is the total |
| `UserStats.RawStatsForUser` | app/Services/SeasonStatsService.php:155-191 | the figures carry the user's id and name and count every loaded run |
| `UserStats.CompletionPercent` | app/Services/SeasonStatsService.php:175-182 | the completion percentage is a non-negative whole number of hundredths, and 0 when the target is 0 |
| `UserStats.CompletionPercentage` | app/Services/SeasonStatsService.php:173-182 | the completion percentage is the rounded share of the target's total, never negative, and 0 when the target is 0 |
| `UserStats.RoundedCompletion` | app/Services/SeasonStatsService.php:175-182 | the completion percentage is within half a hundredth of total / target * 100 when the target is positive, otherwise 0 |
| `UserStats.DistancesInKm` | app/Services/SeasonStatsService.php:158-181 | the total and the target figures are the exact km values; rounding changes nothing |
| `UserStats.KmIsRounded` | app/Models/Run.php:30 | a distance in hundredths of a km survives rounding unchanged |
| `UserStats.RoundedFigures` | app/Services/SeasonStatsService.php:160-189 | the longest-run figure is the longest distance in km; the average and the spread figures are the rounded mean distance and the rounded spread, each within half a hundredth of its exact value |
| `UserStats.CountFields` | app/Services/SeasonStatsService.php:163-188 | the active-days figure counts the distinct run dates, the streak figure is the longest streak of those dates and the active-weeks figure counts their distinct weeks |
| `UserStats.NoRunsAllZero` | app/Services/SeasonStatsService.php:155-191 | a user without runs in the season has every distance, count, streak, week and percentage figure at 0 |
| `UserStats.TotalAtMostCountTimes` | app/Services/SeasonStatsService.php:158-161 | the total never exceeds the number of runs times the longest run |
| `UserStats.MeanAtMost` | app/Services/SeasonStatsService.php:160-161 | the average never exceeds the longest run |
| `UserStats.AverageAtMostLongest` | app/Services/SeasonStatsService.php:160-186 | the average distance figure lies between 0 and the longest run figure, and both are 0 without runs |
| `UserStats.ActiveDaysAreDistinctDates` | app/Services/SeasonStatsService.php:163-184 | the active days are the number of distinct run dates and never exceed the number of runs |
| `UserStats.SameDayRunKeepsActiveDays` | app/Services/SeasonStatsService.php:163-169 | another run on a date that already has a run leaves the active days and the streak unchanged |
| `UserStats.WeekImageSmaller` | app/Services/SeasonStatsService.php:236-244 | there are never more distinct week starts than distinct days |
| `UserStats.WeekStartsOfDates` | app/Services/SeasonStatsService.php:236-244 | the distinct week starts of the runs are the week starts of their distinct dates |
| `UserStats.ActiveWeeksAtMostActiveDays` | app/Services/SeasonStatsService.php:236-244 | the active weeks are the distinct Mondays of the run dates and never exceed the active days |
| `UserStats.StreakIsLongestBlock` | app/Services/SeasonStatsService.php:169 | the streak figure is 0 exactly without active days, at most the active days, and the length of the longest block of consecutive run dates |
| `UserStats.StreakMonotone` | app/Services/SeasonStatsService.php:205-231 | adding a run never shortens the longest streak |
| `UserStats.Weeks` | app/Services/SeasonStatsService.php:249-251 | the Mondays of n consecutive weeks are n days, seven apart |
| `UserStats.WeekOfDateInRange` | app/Services/SeasonStatsService.php:241-251 | the week start of a day in a range is one of the weeks between the range's week starts |
| `UserStats.AtMostWeeks` | app/Services/SeasonStatsService.php:249-251 | a set of Mondays among n weeks has at most n members |
| `UserStats.ActiveWeeksWithin` | app/Services/SeasonStatsService.php:236-251 | runs inside a range touch no more weeks than the range spans |
| `UserStats.SpreadIsPercentage` | app/Services/SeasonStatsService.php:246-258 | for runs inside the season, the active weeks are at most the season's weeks and the spread figure lies in 0..100 |
| `UserStats.SpreadAtMostHundred` | app/Services/SeasonStatsService.php:257 | active weeks over total weeks times 100 is at most 100 |
| `SeasonStats.RunsBetween` | app/Services/SeasonStatsService.php:71 | a run is kept exactly when it is one of the user's runs and its date lies in the range, and it is kept as many times as it occurs; runs outside the range are dropped |
| `SeasonStats.LoadCohort` | app/Services/SeasonStatsService.php:68-73 | every user is loaded, in query order, with its id, name and goal, and with only its runs inside the range |
| `SeasonStats.LoadedRunsInSeason` | app/Services/SeasonStatsService.php:66-73 | a loaded user holds exactly those of its runs that fall in the season's range, each as many times as the user has it, and none outside the range |
| `SeasonStats.RawCohort` | app/Services/SeasonStatsService.php:75 | each user's raw figures are that user's own, in cohort order |
| `SeasonStats.MetricValue` | app/Services/SeasonStatsService.php:90-94 | the figures read for the two counts, active days and streak, are non-negative whole numbers |
| `SeasonStats.MetricsOfUser` | app/Services/SeasonStatsService.php:90-94 | the five figures read from a user's raw statistics are its distinct run dates counted, its total and longest distance in km, its rounded mean distance and its longest streak |
| `SeasonStats.Column` | app/Services/SeasonStatsService.php:77-81 | a column holds one figure per user, in cohort order |
| `SeasonStats.CohortMax` | app/Services/SeasonStatsService.php:77-81 | the maximum is at least every value of the column and is one of them; for an empty cohort it is 0 |
| `SeasonStats.Normalize` | app/Services/SeasonStatsService.php:193-200 | a non-positive maximum gives 0; against a positive maximum the score is within half a hundredth of value / max * 100, a value between 0 and the maximum scores in 0..100, and the maximum itself scores 100 |
| `SeasonStats.NormalizeBounds` | app/Services/SeasonStatsService.php:199 | the rounded ratio of a value to a positive maximum is in 0..100 and is 100 at the maximum |
| `SeasonStats.RatioAtMostOne` | app/Services/SeasonStatsService.php:199 | a value no greater than a positive maximum has a ratio to it in 0..1 |
| `SeasonStats.Maximum` | app/Services/SeasonStatsService.php:77-81 | the cohort maximum of a figure is 0 for an empty cohort |
| `SeasonStats.MaximumIsLargest` | app/Services/SeasonStatsService.php:77-81 | no user's figure is above the cohort maximum, and in a non-empty cohort some user's figure equals it |
| `SeasonStats.NormalizedMetric` | app/Services/SeasonStatsService.php:90-94 | a figure scores 0 against a non-positive cohort maximum, otherwise within half a hundredth of its share of the maximum times 100 |
| `SeasonStats.ScoreAtMaximum` | app/Services/SeasonStatsService.php:90-94 | a figure equal to a positive cohort maximum scores exactly 100 |
| `SeasonStats.ScoreOf` | app/Services/SeasonStatsService.php:83-97 | a player keeps its raw figures, and each of its five scores is its figure normalised against that figure's cohort maximum |
| `SeasonStats.Score` | app/Services/SeasonStatsService.php:83-97 | every user is scored, in cohort order, against the same cohort |
| `SeasonStats.MetricWithinMaximum` | app/Services/SeasonStatsService.php:77-94 | every non-negative figure lies between 0 and its cohort maximum |
| `SeasonStats.RawFiguresNonNegative` | app/Services/SeasonStatsService.php:158-186 | the total, average and longest-run figures are never negative |
| `SeasonStats.InsertByCompletion` | app/Services/SeasonStatsService.php:99 | inserting a player adds exactly that player and keeps a list ordered by completion, highest first |
| `SeasonStats.HeadAboveMembers` | app/Services/SeasonStatsService.php:99 | a player whose completion is at least that of all others can head the ordered list |
| `SeasonStats.SortByCompletion` | app/Services/SeasonStatsService.php:99 | the sorted cohort is a permutation of the cohort, ordered by completion, highest first |
| `SeasonStats.InsertKeepsTies` | app/Services/SeasonStatsService.php:99 | an inserted player goes ahead of every player of equal completion, and the order of those players is kept |
| `SeasonStats.SortKeepsTies` | app/Services/SeasonStatsService.php:99 | the sort is stable: players of equal completion keep their cohort order |
| `SeasonStats.Rank` | app/Services/SeasonStatsService.php:100-104 | the player at each position gets rank position + 1 |
| `SeasonStats.Stats` | app/Services/SeasonStatsService.php:131 | the players' figures, in leaderboard order |
| `SeasonStats.RankedCohort` | app/Services/SeasonStatsService.php:99-104 | the ranked cohort is a permutation of the scored cohort, ordered by completion percentage, highest first, ranked 1..N by position, with ties in cohort order |
| `SeasonStats.MetricIndex` | app/Services/SeasonStatsService.php:106-124 | each scored figure's position is below 5 and carries the label that names it: active days under Consistency, total km under Total Distance, average under Average Distance, longest run under Longest Run, streak under Streak |
| `SeasonStats.MetricIndexInjective` | app/Services/SeasonStatsService.php:106-124 | different figures sit at different positions of the radar |
| `SeasonStats.RadarLabelsDistinct` | app/Services/SeasonStatsService.php:106-113 | `RadarLabels` holds six labels, no two alike |
| `SeasonStats.RadarDataset` | app/Services/SeasonStatsService.php:115-124 | a player's series is labelled with the player's name, has one value per radar label and ends with the activity spread |
| `SeasonStats.RadarScoresInLabelOrder` | app/Services/SeasonStatsService.php:106-124 | each score sits in a player's series at its label's position |
| `SeasonStats.RadarOf` | app/Services/SeasonStatsService.php:106-125 | the radar has the six fixed labels and one dataset per player, in leaderboard order |
| `SeasonStats.RadarOfPlayers` | app/Services/SeasonStatsService.php:115-125 | each dataset is labelled with the player's name, and its data are the five scores and the activity spread in label order |
| `SeasonStats.SeasonStatsOf` | app/Services/SeasonStatsService.php:64-137 | the result carries the season, the year and the season's range, with one player per user |
| `SeasonStats.PlayersOf` | app/Services/SeasonStatsService.php:99-131 | the players are the scored cohort, sorted by completion and ranked |
| `SeasonStats.EmptyCohort` | app/Services/SeasonStatsService.php:77-136 | with no users there are no players and no datasets, and the radar still has its six labels |
| `SeasonStats.Leaderboard` | app/Services/SeasonStatsService.php:64-137 | there is one player per user, the players are a permutation of the scored cohort, ordered by completion, highest first, ranked 1..N by position, with ties in cohort order |
| `SeasonStats.PlayerIsScoredUser` | app/Services/SeasonStatsService.php:75-131 | every player is the scored figures of one of the users |
| `SeasonStats.RankedMember` | app/Services/SeasonStatsService.php:99-104 | every ranked player is one of the scored cohort |
| `SeasonStats.RankedStats` | app/Services/SeasonStatsService.php:100-104 | ranking only numbers the sorted players |
| `SeasonStats.RankedOfMember` | app/Services/SeasonStatsService.php:99-104 | every member of the scored cohort appears among the ranked players |
| `SeasonStats.MemberOfPermutation` | app/Services/SeasonStatsService.php:99 | an element of a sequence occurs in every permutation of it |
| `SeasonStats.ScoresArePercentages` | app/Services/SeasonStatsService.php:77-97 | every score of every player is in 0..100 and is 0 when that figure's cohort maximum is 0; the spread is in 0..100; the completion is not negative |
| `SeasonStats.BestOfScored` | app/Services/SeasonStatsService.php:77-104 | when a figure's maximum over a scored cohort is positive, some ranked player scores exactly 100 on it |
| `SeasonStats.BestScoresHundred` | app/Services/SeasonStatsService.php:77-97 | when a figure's cohort maximum is positive, some player scores exactly 100 on it |
| `SeasonStats.RadarFollowsLeaderboard` | app/Services/SeasonStatsService.php:106-136 | the radar labels are Consistency, Total Distance, Average Distance, Longest Run, Streak and Activity Spread, and each player's dataset, in leaderboard order, carries the name and the six values in that order |
| `Scenarios.MondayWeeks` | app/Services/SeasonStatsService.php:241 | 2026-02-09 is a Monday, the week start of itself and of 2026-02-10 |
| `Scenarios.OpenSeasonWeeks2026` | app/Services/SeasonStatsService.php:246-251 | the open season of 2026 touches 27 weeks |
| `Scenarios.CompletionOfHalf` | app/Services/SeasonStatsService.php:175-182 | 50 km of a 100 km target is 50%, and of a 200 km target 25% |
| `Scenarios.LeaderboardByCompletion` | tests/Feature/SeasonStatsTest.php:18-48 | two runners with 50 km each against 100 and 200 km give Runner A at 50% ranked 1st and Runner B at 25% ranked 2nd |
| `Scenarios.CohortOfTwo` | app/Services/SeasonStatsService.php:99-104 | in a cohort of two, the higher completion is ranked first and the other second |
| `Scenarios.ScoreTwo` | app/Services/SeasonStatsService.php:83-104 | two scored users already in order of completion are ranked 1 and 2 as they stand |
| `Scenarios.RankTwo` | app/Services/SeasonStatsService.php:99-104 | two players in order of completion get ranks 1 and 2 |
| `Scenarios.SortTwo` | app/Services/SeasonStatsService.php:99 | two players in order of completion are left in place by the sort |
| `Scenarios.RunnersRaw` | tests/Feature/SeasonStatsTest.php:20-39 | the two test runners complete 50% and 25% |
| `Scenarios.RunnersLoaded` | tests/Feature/SeasonStatsTest.php:32-42 | the runs of 2026-02-10 fall in the open season of 2026 and are loaded |
| `Scenarios.SeasonBoundaries` | tests/Feature/SeasonStatsTest.php:50-74 | a run on June 30 counts for the open season only, one on July 1 for the closed season only: totals 10 km and 12 km |
| `Scenarios.BoundaryRuns` | tests/Feature/SeasonStatsTest.php:58-70 | of the runs on June 30 and July 1, the open season keeps the first and the closed season the second |
| `Scenarios.SoleRun` | app/Services/SeasonStatsService.php:68-75 | a single user whose season holds a single run has that run's distance as total |
| `Scenarios.TotalOfOneRun` | app/Services/SeasonStatsService.php:158-180 | the total figure of one run is that run's distance |
| `Scenarios.OnlyPlayer` | app/Services/SeasonStatsService.php:64-131 | the only player of a single-user cohort has that user's raw figures over the season's runs |
| `Scenarios.StreakWithGap` | app/Services/SeasonStatsService.php:163-231 | runs on three consecutive days, a day off, then one more give 4 active days and a streak of 3 |
| `Scenarios.NoBlockOfFour` | app/Services/SeasonStatsService.php:205-231 | the days d, d+1, d+2 and d+4 hold no block of consecutive days longer than 3 |

## Left out

- The database, the eager load of `goal` and `runs` and the `User` query: the cohort is a parameter, in query order, and only the `whereBetween` filter on the run date is modelled (`SeasonStats.LoadCohort`).
- Records without a date (the `->filter()` calls at app/Services/SeasonStatsService.php:164 and 240): every run carries a date here. The migrations, which would say whether the column may be null, are not part of this model.
- Times of day and time zones: `startOfDay` and `endOfDay` make the range a whole number of days, so the model compares day numbers, inclusive at both ends.
- `CarbonImmutable::now()`: the reference date of `currentSeason` is a parameter.
- Floating point: sums, quotients and `round` work on exact reals. Bit-level agreement with IEEE doubles, for example `0.1 + 0.2`, is not modelled.
- `diffInWeeks`: under Carbon 3 it also returns a float. Between two Mondays it is a whole number, so the total weeks are the same integer, and the `+ 1` and the `<= 0` guard are modelled on integers.
- Weeks start on Monday: `startOfWeek` follows Carbon's configured first day of the week, which is Monday by default in Carbon 2 and 3 and can be changed by locale or configuration. The model fixes it at Monday; the Carbon version in use is not part of this model.
- `UserStats.Target`: defined by a match on the season. Its contract ties it to `GoalAttribute`, the model of the source's read of an attribute by name, which knows only the goal's two target attributes.
- `UserStats.RawStatsForUser`: its own contract states only id, name and run count. Each other figure is stated by its own lemma: `CompletionPercentage`, `DistancesInKm`, `RoundedFigures`, `CountFields`, `AverageAtMostLongest`, `ActiveDaysAreDistinctDates`, `ActiveWeeksAtMostActiveDays`, `StreakIsLongestBlock`, `SpreadIsPercentage`, `SpreadIsShare` and `NoRunsAllZero`.
- `UserStats.ActivitySpreadScore`: its own contract states only that the spread is not negative. Its value, the active weeks' share of the season's weeks, is stated by `SpreadIsShare`.
- `SeasonStats.Maximum`: its own contract states only the empty cohort; `MaximumIsLargest` states that it bounds and is reached by the figures.
- `SeasonStats.SeasonStatsOf`: its own contract states the season, year, range and number of players. The players and the radar are stated by `Leaderboard`, `ScoresArePercentages` and `RadarFollowsLeaderboard`.
- `UserStats.TotalDistance`: its own contract states only the empty case. The sum is exact in hundredths, and the bounds against the longest run are in `TotalAtMostCountTimes`.
- `UserStats.SpreadIsPercentage`: holds for runs inside the season's range, which is what the load guarantees (`SeasonStats.LoadedRunsInSeason`).
- The `id` of a user is an integer; its database type is not modelled.
- Negative distances and targets: `Run.distance`, `Goal.openSeasonTarget` and `Goal.closedSeasonTarget` are natural numbers here. The decimal columns behind them would accept negative values; only the `minValue(0)` rule of the forms (app/Filament/Resources/Runs/Schemas/RunForm.php:27, app/Filament/Resources/Goals/Schemas/GoalForm.php:25 and 30) keeps them out, and data written around the forms is not modelled.
- The Filament panels, forms, tables, views, routes, JavaScript chart rendering, factories and seeders: they display or produce data and compute nothing.
- The run policy and the feature test of it (tests/Feature/SeasonStatsTest.php:76-84): authorisation, not statistics.

## Findings

| source | as written | input that shows it | evidently intended | confidence | as-written member | corrected member |
|---|---|---|---|---|---|---|
| app/Services/SeasonStatsService.php:220-222 | the day difference from Carbon's `diffInDays` is compared with the integer `1` by identity (`===`). Under Carbon 3, which current Laravel ships, `diffInDays` returns a float, so the test never succeeds and the streak stays 1 | runs on 2026-02-09, 2026-02-10 and 2026-02-11: longest streak 1 | consecutive days extend the streak, giving 3 | medium (depends on the Carbon major version, which is not part of this model), not executed | `Streak.AsWrittenMissesConsecutiveDays` | `Streak.LongestStreakDays` |

`Streak.LongestStreakAsWritten` is the walk as written, with `Streak.DiffInDays`
returning a float and `Streak.Identical` comparing type and value. It
returns 1 for every non-empty input (`Streak.AsWrittenStreakIsOne`). The
rest of the model uses `Streak.LongestStreak`, which counts a date one day
after the previous one as extending the streak. `Streak.LongestStreakDays`
is the source's loop with that correction. `Streak.LongestStreakIsLongestBlock`
proves that its result is the length of the longest block of consecutive
active days.
