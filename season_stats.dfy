/**
 * Season statistics for a cohort: the raw figures of every user, five of them
 * scored against the cohort's maximum, the leaderboard by completion with
 * ranks 1..N, and the radar chart payload.
 *
 * The users come with all their runs; loading keeps the runs dated inside the
 * season's range, as the eager load of the database query does.
 */
module SeasonStats {
  import opened Seasons
  import opened Rounding
  import opened UserStats

  // ---------------------------------------------------------------------
  // Loading the cohort

  /** The runs dated inside `range`, in their original order. */
  function RunsBetween(runs: seq<Run>, range: Range): (kept: seq<Run>)
    ensures forall r :: r in kept <==> r in runs && InRange(r.date, range)
    ensures forall r :: multiset(kept)[r] == if InRange(r.date, range) then multiset(runs)[r] else 0
    ensures |kept| <= |runs|
  {
    if runs == [] then []
    else
      var init, last := runs[..|runs| - 1], runs[|runs| - 1];
      assert runs == init + [last];
      assert multiset(runs) == multiset(init) + multiset{last};
      if InRange(last.date, range) then RunsBetween(init, range) + [last] else RunsBetween(init, range)
  }

  /** Each user with only the runs of the range. */
  function LoadCohort(users: seq<User>, range: Range): (loaded: seq<User>)
    ensures |loaded| == |users|
    ensures forall i :: 0 <= i < |users| ==>
      loaded[i] == users[i].(runs := RunsBetween(users[i].runs, range))
  {
    seq(|users|, i requires 0 <= i < |users| => users[i].(runs := RunsBetween(users[i].runs, range)))
  }

  function RawCohort(loaded: seq<User>, season: Season, year: int): (raw: seq<RawStats>)
    ensures |raw| == |loaded|
    ensures forall i :: 0 <= i < |loaded| ==> raw[i] == RawStatsForUser(loaded[i], season, year)
  {
    seq(|loaded|, i requires 0 <= i < |loaded| => RawStatsForUser(loaded[i], season, year))
  }

  // ---------------------------------------------------------------------
  // Scores against the cohort maximum

  /** A value as a percentage of the cohort maximum, rounded; 0 when the maximum is not positive. */
  function Normalize(value: real, max: real): (r: real)
    ensures max <= 0.0 ==> r == 0.0
    ensures max > 0.0 && 0.0 <= value <= max ==> 0.0 <= r <= 100.0
    ensures max > 0.0 && value == max ==> r == 100.0
    ensures max > 0.0 ==> value / max * 100.0 - 0.005 <= r <= value / max * 100.0 + 0.005
  {
    if max <= 0.0 then 0.0
    else
      NormalizeBounds(value, max);
      Round2((value / max) * 100.0)
  }

  lemma NormalizeBounds(value: real, max: real)
    requires max > 0.0
    ensures 0.0 <= value <= max ==> 0.0 <= Round2((value / max) * 100.0) <= 100.0
    ensures value == max ==> Round2((value / max) * 100.0) == 100.0
  {
    if 0.0 <= value <= max {
      RatioAtMostOne(value, max);
      Round2Percentage(value / max * 100.0);
    }
    if value == max {
      assert value / max == 1.0;
      assert (value / max) * 100.0 == 10000 as real / 100.0;
      Round2Exact(10000);
    }
  }

  lemma RatioAtMostOne(a: real, b: real)
    requires 0.0 <= a <= b && b > 0.0
    ensures 0.0 <= a / b <= 1.0
  {
  }

  /** The five figures that are scored against the cohort. */
  datatype Metric = ActiveDaysMetric | TotalKmMetric | AvgDistanceMetric | LongestRunMetric | StreakMetric

  /** The figure of a user's raw statistics that a score is computed from. */
  function MetricValue(s: RawStats, m: Metric): (r: real)
    ensures m == ActiveDaysMetric || m == StreakMetric ==> r >= 0.0 && r.Floor as real == r
  {
    match m
    case ActiveDaysMetric => s.activeDays as real
    case TotalKmMetric => s.totalKm
    case AvgDistanceMetric => s.avgDistance
    case LongestRunMetric => s.longestRun
    case StreakMetric => s.longestStreakDays as real
  }

  function Column(raw: seq<RawStats>, m: Metric): (col: seq<real>)
    ensures |col| == |raw|
    ensures forall i :: 0 <= i < |raw| ==> col[i] == MetricValue(raw[i], m)
  {
    seq(|raw|, i requires 0 <= i < |raw| => MetricValue(raw[i], m))
  }

  /** The collection's `max()`, with an empty collection's null read as 0. */
  function CohortMax(xs: seq<real>): (max: real)
    ensures xs == [] ==> max == 0.0
    ensures forall i :: 0 <= i < |xs| ==> xs[i] <= max
    ensures xs != [] ==> exists i :: 0 <= i < |xs| && xs[i] == max
  {
    if xs == [] then 0.0
    else if |xs| == 1 then xs[0]
    else
      var before, last := CohortMax(xs[..|xs| - 1]), xs[|xs| - 1];
      if last > before then last else before
  }

  /** The cohort's maximum of one figure, 0 for an empty cohort. */
  function Maximum(raw: seq<RawStats>, m: Metric): (max: real)
    ensures raw == [] ==> max == 0.0
  {
    CohortMax(Column(raw, m))
  }

  /** A figure equal to a positive cohort maximum scores 100. */
  lemma ScoreAtMaximum(s: RawStats, raw: seq<RawStats>, m: Metric)
    requires MetricValue(s, m) == Maximum(raw, m) > 0.0
    ensures NormalizedMetric(s, raw, m) == 100.0
  {
  }

  /** No user's figure is above the maximum, and in a non-empty cohort some user reaches it. */
  lemma MaximumIsLargest(raw: seq<RawStats>, m: Metric)
    ensures forall i :: 0 <= i < |raw| ==> MetricValue(raw[i], m) <= Maximum(raw, m)
    ensures raw != [] ==> exists i :: 0 <= i < |raw| && MetricValue(raw[i], m) == Maximum(raw, m)
  {
    if raw != [] {
      var col := Column(raw, m);
      var i :| 0 <= i < |col| && col[i] == CohortMax(col);
      assert MetricValue(raw[i], m) == Maximum(raw, m);
    }
  }

  datatype ScoredStats = ScoredStats(
    raw: RawStats,
    consistencyScore: real,
    totalDistanceScore: real,
    avgDistanceScore: real,
    longestRunScore: real,
    streakScore: real)

  /** The position of a figure's score among the radar labels: the label naming that figure. */
  function MetricIndex(m: Metric): (i: nat)
    ensures i < 5
    ensures m == ActiveDaysMetric ==> RadarLabels[i] == "Consistency"
    ensures m == TotalKmMetric ==> RadarLabels[i] == "Total Distance"
    ensures m == AvgDistanceMetric ==> RadarLabels[i] == "Average Distance"
    ensures m == LongestRunMetric ==> RadarLabels[i] == "Longest Run"
    ensures m == StreakMetric ==> RadarLabels[i] == "Streak"
  {
    match m
    case ActiveDaysMetric => 0
    case TotalKmMetric => 1
    case AvgDistanceMetric => 2
    case LongestRunMetric => 3
    case StreakMetric => 4
  }

  /** Different figures sit at different positions of the radar. */
  lemma MetricIndexInjective(m1: Metric, m2: Metric)
    ensures MetricIndex(m1) == MetricIndex(m2) ==> m1 == m2
  {
    RadarLabelsDistinct();
  }

  /** The five figures of a user's raw statistics: its active days, total, average, longest run and streak. */
  lemma MetricsOfUser(user: User, season: Season, year: int)
    ensures MetricValue(RawStatsForUser(user, season, year), ActiveDaysMetric) == |ActiveDays(user.runs)| as real
    ensures MetricValue(RawStatsForUser(user, season, year), TotalKmMetric) == Km(TotalDistance(user.runs))
    ensures MetricValue(RawStatsForUser(user, season, year), AvgDistanceMetric)
      == Round2(Mean(TotalDistance(user.runs), |user.runs|))
    ensures MetricValue(RawStatsForUser(user, season, year), LongestRunMetric) == Km(LongestDistance(user.runs))
    ensures MetricValue(RawStatsForUser(user, season, year), StreakMetric)
      == Streak.LongestStreak(ActiveDays(user.runs)) as real
  {
    KmFields(user, season, year);
    FigureFields(user, season, year);
    CountFields(user, season, year);
    KmIsRounded(TotalDistance(user.runs));
    KmIsRounded(LongestDistance(user.runs));
    MetricsOfFields(RawStatsForUser(user, season, year), |ActiveDays(user.runs)|, Km(TotalDistance(user.runs)),
      Round2(Mean(TotalDistance(user.runs), |user.runs|)), Km(LongestDistance(user.runs)),
      Streak.LongestStreak(ActiveDays(user.runs)));
  }

  lemma MetricsOfFields(s: RawStats, days: nat, total: real, avg: real, longest: real, streak: nat)
    requires s.activeDays == days && s.totalKm == total && s.avgDistance == avg
    requires s.longestRun == longest && s.longestStreakDays == streak
    ensures MetricValue(s, ActiveDaysMetric) == days as real
    ensures MetricValue(s, TotalKmMetric) == total
    ensures MetricValue(s, AvgDistanceMetric) == avg
    ensures MetricValue(s, LongestRunMetric) == longest
    ensures MetricValue(s, StreakMetric) == streak as real
  {
  }

  function MetricScore(s: ScoredStats, m: Metric): real {
    match m
    case ActiveDaysMetric => s.consistencyScore
    case TotalKmMetric => s.totalDistanceScore
    case AvgDistanceMetric => s.avgDistanceScore
    case LongestRunMetric => s.longestRunScore
    case StreakMetric => s.streakScore
  }

  function ScoreOf(s: RawStats, raw: seq<RawStats>): (scored: ScoredStats)
    ensures scored.raw == s
    ensures forall m :: MetricScore(scored, m) == NormalizedMetric(s, raw, m)
  {
    ScoredStats(s,
      NormalizedMetric(s, raw, ActiveDaysMetric),
      NormalizedMetric(s, raw, TotalKmMetric),
      NormalizedMetric(s, raw, AvgDistanceMetric),
      NormalizedMetric(s, raw, LongestRunMetric),
      NormalizedMetric(s, raw, StreakMetric))
  }

  /** One figure of a user, normalised against the cohort's maximum of that figure. */
  function NormalizedMetric(s: RawStats, raw: seq<RawStats>, m: Metric): (score: real)
    ensures Maximum(raw, m) <= 0.0 ==> score == 0.0
    ensures Maximum(raw, m) > 0.0 ==>
      var exact := MetricValue(s, m) / Maximum(raw, m) * 100.0;
      exact - 0.005 <= score <= exact + 0.005
  {
    Normalize(MetricValue(s, m), Maximum(raw, m))
  }

  function Score(raw: seq<RawStats>): (scored: seq<ScoredStats>)
    ensures |scored| == |raw|
    ensures forall i :: 0 <= i < |raw| ==> scored[i] == ScoreOf(raw[i], raw)
  {
    seq(|raw|, i requires 0 <= i < |raw| => ScoreOf(raw[i], raw))
  }

  // ---------------------------------------------------------------------
  // Leaderboard: stable sort by completion, descending

  /** A player's completion percentage: the key the leaderboard is sorted by. */
  function PlayerCompletion(s: ScoredStats): real {
    s.raw.completionPercentage
  }

  predicate NonIncreasing(s: seq<ScoredStats>) {
    forall i, j :: 0 <= i < j < |s| ==> PlayerCompletion(s[i]) >= PlayerCompletion(s[j])
  }

  /** Inserts `x` into a leaderboard before the first entry whose completion is not above it. */
  function InsertByCompletion(x: ScoredStats, s: seq<ScoredStats>): (r: seq<ScoredStats>)
    ensures |r| == |s| + 1
    ensures multiset(r) == multiset(s) + multiset{x}
    ensures NonIncreasing(s) ==> NonIncreasing(r)
  {
    if s == [] || PlayerCompletion(s[0]) <= PlayerCompletion(x) then [x] + s
    else
      assert s == [s[0]] + s[1..];
      TailBelowHead(s);
      var tail := InsertByCompletion(x, s[1..]);
      HeadAboveMembers(s[0], tail, s[1..], x);
      assert multiset([s[0]] + tail) == multiset{s[0]} + multiset(tail);
      [s[0]] + tail
  }

  /** Below the head of a leaderboard, the rest is a leaderboard with no completion above the head's. */
  lemma TailBelowHead(s: seq<ScoredStats>)
    requires s != []
    ensures NonIncreasing(s) ==> NonIncreasing(s[1..])
    ensures NonIncreasing(s) ==> forall y :: y in s[1..] ==> PlayerCompletion(y) <= PlayerCompletion(s[0])
  {
    if NonIncreasing(s) {
      forall y | y in s[1..] ensures PlayerCompletion(y) <= PlayerCompletion(s[0]) {
        var k :| 0 <= k < |s[1..]| && s[1..][k] == y;
        assert s[k + 1] == y;
      }
    }
  }

  lemma HeadAboveMembers(head: ScoredStats, t: seq<ScoredStats>, rest: seq<ScoredStats>, x: ScoredStats)
    requires multiset(t) == multiset(rest) + multiset{x}
    ensures NonIncreasing(t) && PlayerCompletion(x) <= PlayerCompletion(head)
            && (forall y :: y in rest ==> PlayerCompletion(y) <= PlayerCompletion(head))
            ==> NonIncreasing([head] + t)
  {
    if NonIncreasing(t) && PlayerCompletion(x) <= PlayerCompletion(head) && (forall y :: y in rest ==> PlayerCompletion(y) <= PlayerCompletion(head)) {
      var r := [head] + t;
      forall i, j | 0 <= i < j < |r| ensures PlayerCompletion(r[i]) >= PlayerCompletion(r[j]) {
        assert r[j] == t[j - 1];
        assert t[j - 1] in multiset(t);
        assert t[j - 1] == x || t[j - 1] in rest;
        if i > 0 {
          assert r[i] == t[i - 1];
        }
      }
    }
  }

  /** `sortByDesc('completion_percentage')`: equal completions keep their cohort order. */
  function SortByCompletion(s: seq<ScoredStats>): (r: seq<ScoredStats>)
    ensures |r| == |s|
    ensures multiset(r) == multiset(s)
    ensures NonIncreasing(r)
  {
    if s == [] then []
    else
      assert s == [s[0]] + s[1..];
      InsertByCompletion(s[0], SortByCompletion(s[1..]))
  }

  /** The entries with completion `c`, in order. */
  function WithCompletion(s: seq<ScoredStats>, c: real): seq<ScoredStats> {
    if s == [] then []
    else (if PlayerCompletion(s[0]) == c then [s[0]] else []) + WithCompletion(s[1..], c)
  }

  lemma {:induction false} InsertKeepsTies(x: ScoredStats, s: seq<ScoredStats>, c: real)
    requires NonIncreasing(s)
    ensures WithCompletion(InsertByCompletion(x, s), c)
      == (if PlayerCompletion(x) == c then [x] else []) + WithCompletion(s, c)
  {
    if s == [] || PlayerCompletion(s[0]) <= PlayerCompletion(x) {
      assert ([x] + s)[1..] == s;
    } else {
      var tail := InsertByCompletion(x, s[1..]);
      assert ([s[0]] + tail)[1..] == tail;
      assert s == [s[0]] + s[1..];
      InsertKeepsTies(x, s[1..], c);
      var headPart := if PlayerCompletion(s[0]) == c then [s[0]] else [];
      var xPart := if PlayerCompletion(x) == c then [x] else [];
      assert WithCompletion([s[0]] + tail, c) == headPart + WithCompletion(tail, c);
      assert WithCompletion(s, c) == headPart + WithCompletion(s[1..], c);
      assert headPart == [] || xPart == [];
      assert headPart + (xPart + WithCompletion(s[1..], c)) == xPart + (headPart + WithCompletion(s[1..], c));
    }
  }

  /** Stability: for every completion value, the entries with it keep their relative order. */
  lemma {:induction false} SortKeepsTies(s: seq<ScoredStats>, c: real)
    ensures WithCompletion(SortByCompletion(s), c) == WithCompletion(s, c)
  {
    if s != [] {
      SortKeepsTies(s[1..], c);
      InsertKeepsTies(s[0], SortByCompletion(s[1..]), c);
    }
  }

  datatype Player = Player(stats: ScoredStats, rank: nat)

  /** Ranks are positions plus one. */
  function Rank(sorted: seq<ScoredStats>): (players: seq<Player>)
    ensures |players| == |sorted|
    ensures forall i :: 0 <= i < |sorted| ==> players[i] == Player(sorted[i], i + 1)
  {
    seq(|sorted|, i requires 0 <= i < |sorted| => Player(sorted[i], i + 1))
  }

  function Stats(players: seq<Player>): (ss: seq<ScoredStats>)
    ensures |ss| == |players|
    ensures forall i :: 0 <= i < |players| ==> ss[i] == players[i].stats
  {
    seq(|players|, i requires 0 <= i < |players| => players[i].stats)
  }

  // ---------------------------------------------------------------------
  // Radar chart payload

  const RadarLabels: seq<string> :=
    ["Consistency", "Total Distance", "Average Distance", "Longest Run", "Streak", "Activity Spread"]

  /** The six radar labels are distinct. */
  lemma RadarLabelsDistinct()
    ensures |RadarLabels| == 6
    ensures forall i, j :: 0 <= i < j < |RadarLabels| ==> RadarLabels[i] != RadarLabels[j]
  {
  }

  datatype Dataset = Dataset(seriesLabel: string, data: seq<real>)

  datatype Radar = Radar(labels: seq<string>, datasets: seq<Dataset>)

  /** One player's radar series: labelled with the name, the five scores and the spread in label order. */
  function RadarDataset(p: Player): (d: Dataset)
    ensures d.seriesLabel == p.stats.raw.name
    ensures |d.data| == |RadarLabels|
    ensures d.data[5] == p.stats.raw.activitySpreadScore
  {
    Dataset(p.stats.raw.name, [
      p.stats.consistencyScore,
      p.stats.totalDistanceScore,
      p.stats.avgDistanceScore,
      p.stats.longestRunScore,
      p.stats.streakScore,
      p.stats.raw.activitySpreadScore])
  }

  /** Each of the five scores sits in a radar series at its label's position. */
  lemma RadarScoresInLabelOrder(p: Player)
    ensures forall m :: RadarDataset(p).data[MetricIndex(m)] == MetricScore(p.stats, m)
  {
  }

  function RadarOf(players: seq<Player>): (radar: Radar)
    ensures radar.labels == RadarLabels
    ensures |radar.datasets| == |players|
    ensures forall i :: 0 <= i < |players| ==> radar.datasets[i] == RadarDataset(players[i])
  {
    Radar(RadarLabels, seq(|players|, i requires 0 <= i < |players| => RadarDataset(players[i])))
  }

  // ---------------------------------------------------------------------
  // The whole computation

  datatype SeasonStatsResult = SeasonStatsResult(
    season: Season, year: int, range: Range, players: seq<Player>, radar: Radar)

  function ScoredCohort(season: Season, year: int, users: seq<User>): seq<ScoredStats> {
    Score(RawCohort(LoadCohort(users, SeasonRange(season, year)), season, year))
  }

  function SeasonStatsOf(season: Season, year: int, users: seq<User>): (result: SeasonStatsResult)
    ensures result.season == season && result.year == year
    ensures result.range == SeasonRange(season, year)
    ensures |result.players| == |users|
  {
    var range := SeasonRange(season, year);
    var raw := RawCohort(LoadCohort(users, range), season, year);
    var players := Rank(SortByCompletion(Score(raw)));
    SeasonStatsResult(season, year, range, players, RadarOf(players))
  }

  // ---------------------------------------------------------------------
  // Properties

  /** An empty cohort gives no players and no datasets. */
  lemma EmptyCohort(season: Season, year: int)
    ensures SeasonStatsOf(season, year, []).players == []
    ensures SeasonStatsOf(season, year, []).radar.datasets == []
    ensures SeasonStatsOf(season, year, []).radar.labels == RadarLabels
  {
  }

  /**
   * Ranking a cohort: the leaderboard is the cohort reordered, sorted by completion,
   * highest first, with rank = position + 1 and ties in cohort order.
   */
  lemma RankedCohort(scored: seq<ScoredStats>, players: seq<Player>)
    requires players == Rank(SortByCompletion(scored))
    ensures multiset(Stats(players)) == multiset(scored)
    ensures forall i, j :: 0 <= i < j < |players| ==>
      players[i].stats.raw.completionPercentage >= players[j].stats.raw.completionPercentage
    ensures forall i :: 0 <= i < |players| ==> players[i].rank == i + 1
    ensures forall c :: WithCompletion(Stats(players), c) == WithCompletion(scored, c)
  {
    var sorted := SortByCompletion(scored);
    assert Stats(Rank(sorted)) == sorted;
    forall c ensures WithCompletion(sorted, c) == WithCompletion(scored, c) {
      SortKeepsTies(scored, c);
    }
  }

  /**
   * The leaderboard is the scored cohort reordered: sorted by completion, highest
   * first, with ranks 1..N by position and ties in cohort order.
   */
  lemma Leaderboard(season: Season, year: int, users: seq<User>)
    ensures var players := SeasonStatsOf(season, year, users).players;
      && |players| == |users|
      && multiset(Stats(players)) == multiset(ScoredCohort(season, year, users))
      && (forall i, j :: 0 <= i < j < |players| ==>
            players[i].stats.raw.completionPercentage >= players[j].stats.raw.completionPercentage)
      && (forall i :: 0 <= i < |players| ==> players[i].rank == i + 1)
      && (forall c :: WithCompletion(Stats(players), c) == WithCompletion(ScoredCohort(season, year, users), c))
  {
    PlayersOf(season, year, users);
    RankedCohort(ScoredCohort(season, year, users), SeasonStatsOf(season, year, users).players);
  }

  lemma PlayersOf(season: Season, year: int, users: seq<User>)
    ensures SeasonStatsOf(season, year, users).players == Rank(SortByCompletion(ScoredCohort(season, year, users)))
  {
  }

  /** Every player of the leaderboard is the scored figures of one user of the cohort. */
  lemma PlayerIsScoredUser(season: Season, year: int, users: seq<User>, p: Player)
    requires p in SeasonStatsOf(season, year, users).players
    ensures exists i :: 0 <= i < |users| && p.stats == ScoredCohort(season, year, users)[i]
  {
    PlayersOf(season, year, users);
    RankedMember(ScoredCohort(season, year, users), p);
  }

  lemma RankedMember(scored: seq<ScoredStats>, p: Player)
    requires p in Rank(SortByCompletion(scored))
    ensures exists i :: 0 <= i < |scored| && p.stats == scored[i]
  {
    var sorted := SortByCompletion(scored);
    RankedStats(sorted, p);
    MemberOfPermutation(p.stats, sorted, scored);
  }

  lemma MemberOfPermutation<T>(x: T, a: seq<T>, b: seq<T>)
    requires x in a && multiset(a) == multiset(b)
    ensures exists i :: 0 <= i < |b| && b[i] == x
  {
    assert x in multiset(a);
    assert x in b;
  }

  lemma RankedStats(sorted: seq<ScoredStats>, p: Player)
    requires p in Rank(sorted)
    ensures p.stats in sorted
  {
    var players := Rank(sorted);
    var k :| 0 <= k < |players| && players[k] == p;
    assert p.stats == sorted[k];
  }

  /** Every scored figure lies at or below the cohort maximum and is not negative. */
  lemma MetricWithinMaximum(raw: seq<RawStats>, i: nat, m: Metric)
    requires i < |raw|
    requires raw[i].totalKm >= 0.0 && raw[i].avgDistance >= 0.0 && raw[i].longestRun >= 0.0
    ensures 0.0 <= MetricValue(raw[i], m) <= Maximum(raw, m)
  {
    assert Column(raw, m)[i] == MetricValue(raw[i], m);
  }

  lemma {:induction false} RawFiguresNonNegative(user: User, season: Season, year: int)
    ensures var s := RawStatsForUser(user, season, year);
      s.totalKm >= 0.0 && s.avgDistance >= 0.0 && s.longestRun >= 0.0
  {
    AverageAtMostLongest(user, season, year);
    DistancesInKm(user, season, year);
  }

  /**
   * Every score of every player is a percentage in [0, 100]; a score whose cohort
   * maximum is 0 is 0 for everyone; the activity spread is in [0, 100] and the
   * completion is not negative.
   */
  lemma ScoresArePercentages(season: Season, year: int, users: seq<User>, p: Player)
    requires p in SeasonStatsOf(season, year, users).players
    ensures forall m :: 0.0 <= MetricScore(p.stats, m) <= 100.0
    ensures var raw := RawCohort(LoadCohort(users, SeasonRange(season, year)), season, year);
      forall m :: Maximum(raw, m) <= 0.0 ==> MetricScore(p.stats, m) == 0.0
    ensures 0.0 <= p.stats.raw.activitySpreadScore <= 100.0
    ensures p.stats.raw.completionPercentage >= 0.0
  {
    var range := SeasonRange(season, year);
    var loaded := LoadCohort(users, range);
    var raw := RawCohort(loaded, season, year);
    PlayerIsScoredUser(season, year, users, p);
    var i :| 0 <= i < |users| && p.stats == ScoredCohort(season, year, users)[i];
    assert p.stats == ScoreOf(raw[i], raw);
    RawFiguresNonNegative(loaded[i], season, year);
    forall m ensures 0.0 <= MetricScore(p.stats, m) <= 100.0 {
      MetricWithinMaximum(raw, i, m);
    }
    SpreadIsPercentage(loaded[i], season, year);
    CompletionPercentage(loaded[i], season, year);
  }

  /** When a figure's maximum is positive, the players who reach it score exactly 100. */
  lemma BestScoresHundred(season: Season, year: int, users: seq<User>, m: Metric)
    requires var raw := RawCohort(LoadCohort(users, SeasonRange(season, year)), season, year);
      Maximum(raw, m) > 0.0
    ensures exists p :: p in SeasonStatsOf(season, year, users).players && MetricScore(p.stats, m) == 100.0
  {
    PlayersOf(season, year, users);
    BestOfScored(RawCohort(LoadCohort(users, SeasonRange(season, year)), season, year), m);
  }

  /** In a scored and ranked cohort, a user at a positive maximum appears with a score of 100. */
  lemma BestOfScored(raw: seq<RawStats>, m: Metric)
    requires Maximum(raw, m) > 0.0
    ensures exists p :: p in Rank(SortByCompletion(Score(raw))) && MetricScore(p.stats, m) == 100.0
  {
    var scored := Score(raw);
    MaximumIsLargest(raw, m);
    var i :| 0 <= i < |raw| && MetricValue(raw[i], m) == Maximum(raw, m);
    ScoreAtMaximum(raw[i], raw, m);
    assert scored[i] == ScoreOf(raw[i], raw);
    RankedOfMember(scored, i);
  }

  lemma RankedOfMember(scored: seq<ScoredStats>, i: nat)
    requires i < |scored|
    ensures exists p :: p in Rank(SortByCompletion(scored)) && p.stats == scored[i]
  {
    var players := Rank(SortByCompletion(scored));
    RankedCohort(scored, players);
    assert scored[i] in multiset(Stats(players));
    var k :| 0 <= k < |players| && Stats(players)[k] == scored[i];
    assert players[k] in players;
  }

  /**
   * The radar has the six labels in order and one dataset per player in
   * leaderboard order, labelled with the player's name, holding the five scores
   * in label order and then the activity spread.
   */
  lemma RadarFollowsLeaderboard(season: Season, year: int, users: seq<User>)
    ensures var r := SeasonStatsOf(season, year, users);
      && r.radar.labels == ["Consistency", "Total Distance", "Average Distance", "Longest Run", "Streak", "Activity Spread"]
      && |r.radar.datasets| == |r.players|
      && forall i :: 0 <= i < |r.players| ==>
           && r.radar.datasets[i].seriesLabel == r.players[i].stats.raw.name
           && r.radar.datasets[i].data == [
                MetricScore(r.players[i].stats, ActiveDaysMetric),
                MetricScore(r.players[i].stats, TotalKmMetric),
                MetricScore(r.players[i].stats, AvgDistanceMetric),
                MetricScore(r.players[i].stats, LongestRunMetric),
                MetricScore(r.players[i].stats, StreakMetric),
                r.players[i].stats.raw.activitySpreadScore]
  {
    var r := SeasonStatsOf(season, year, users);
    assert r.radar == RadarOf(r.players);
    RadarOfPlayers(r.players);
  }

  lemma RadarOfPlayers(players: seq<Player>)
    ensures var radar := RadarOf(players);
      forall i :: 0 <= i < |players| ==>
        && radar.datasets[i].seriesLabel == players[i].stats.raw.name
        && radar.datasets[i].data == [
             MetricScore(players[i].stats, ActiveDaysMetric),
             MetricScore(players[i].stats, TotalKmMetric),
             MetricScore(players[i].stats, AvgDistanceMetric),
             MetricScore(players[i].stats, LongestRunMetric),
             MetricScore(players[i].stats, StreakMetric),
             players[i].stats.raw.activitySpreadScore]
  {
  }

  /** Only the runs inside the season's range count: a run's date decides which season it counts for. */
  lemma LoadedRunsInSeason(season: Season, year: int, users: seq<User>, i: nat)
    requires i < |users|
    ensures var u := LoadCohort(users, SeasonRange(season, year))[i];
      && (forall r :: r in u.runs <==> r in users[i].runs && InRange(r.date, SeasonRange(season, year)))
      && (forall r :: multiset(u.runs)[r] ==
            if InRange(r.date, SeasonRange(season, year)) then multiset(users[i].runs)[r] else 0)
  {
  }
}
