/**
 * The two seasons of a year and the season calendar: which season a date
 * falls in and which days a season covers.
 *
 * A season's range starts at the start of its first day and ends at the end
 * of its last day, so at day granularity it is the inclusive interval of day
 * ordinals [start, end].
 */
module Seasons {
  import opened Calendar

  datatype Season = OpenSeason | ClosedSeason {

    function Label(): (s: string)
      ensures |s| > 0
    {
      match this
      case OpenSeason => "Open Season"
      case ClosedSeason => "Closed Season"
    }

    /** First day of the season in `year`. */
    function StartDate(year: int): (d: Date)
      ensures IsValid(d) && d.year == year && d.day == 1
    {
      match this
      case OpenSeason => Date(year, 1, 1)
      case ClosedSeason => Date(year, 7, 1)
    }

    /** Last day of the season in `year`; the range ends at the end of this day. */
    function EndDate(year: int): (d: Date)
      ensures IsValid(d) && d.year == year && d.day == DaysInMonth(year, d.month)
    {
      match this
      case OpenSeason => Date(year, 6, 30)
      case ClosedSeason => Date(year, 12, 31)
    }

    /** Name of the goal attribute that holds this season's target. */
    function TargetField(): (f: string)
      ensures |f| > 0
    {
      match this
      case OpenSeason => "open_season_target_km"
      case ClosedSeason => "closed_season_target_km"
    }
  }

  /** Inclusive interval of day ordinals. */
  datatype Range = Range(start: int, end: int)

  predicate InRange(day: int, r: Range) {
    r.start <= day <= r.end
  }

  /** The current season is chosen by the month of the reference date alone. */
  function CurrentSeason(date: Date): (s: Season)
    ensures s == OpenSeason <==> date.month <= 6
    ensures s == ClosedSeason <==> date.month > 6
  {
    if date.month <= 6 then OpenSeason else ClosedSeason
  }

  function SeasonRange(season: Season, year: int): (r: Range)
    ensures r.start < r.end
    ensures DaysBeforeYear(year) <= r.start && r.end < DaysBeforeYear(year + 1)
  {
    NextYear(year);
    Range(Ordinal(season.StartDate(year)), Ordinal(season.EndDate(year)))
  }

  lemma LabelsDistinct()
    ensures OpenSeason.Label() != ClosedSeason.Label()
  {
  }

  lemma TargetFieldsDistinct()
    ensures OpenSeason.TargetField() != ClosedSeason.TargetField()
  {
  }

  /** Open season covers Jan 1 to Jun 30, closed season Jul 1 to Dec 31, each of the same year. */
  lemma SeasonBounds(year: int)
    ensures SeasonRange(OpenSeason, year) == Range(Ordinal(Date(year, 1, 1)), Ordinal(Date(year, 6, 30)))
    ensures SeasonRange(ClosedSeason, year) == Range(Ordinal(Date(year, 7, 1)), Ordinal(Date(year, 12, 31)))
    ensures forall s: Season :: s.StartDate(year).year == year && s.EndDate(year).year == year
  {
  }

  /**
   * The two seasons are adjacent and cover the whole year: the open season starts on
   * the year's first day, the closed season starts the day after the open season ends,
   * and the next year's open season starts the day after the closed season ends.
   */
  lemma {:induction false} SeasonsAdjacent(year: int)
    ensures SeasonRange(OpenSeason, year).start == DaysBeforeYear(year)
    ensures SeasonRange(OpenSeason, year).end + 1 == SeasonRange(ClosedSeason, year).start
    ensures SeasonRange(ClosedSeason, year).end + 1 == SeasonRange(OpenSeason, year + 1).start
  {
    MonthStep(year, 6);
    NewYear(year);
  }

  /**
   * Every valid date lies in exactly one season of its year, and that season is
   * the one `CurrentSeason` selects for it; in particular Jun 30 is in the open
   * season and Jul 1 in the closed one.
   */
  lemma {:induction false} CurrentSeasonContainsDate(date: Date, s: Season)
    requires IsValid(date)
    ensures InRange(Ordinal(date), SeasonRange(s, date.year)) <==> s == CurrentSeason(date)
  {
    var y := date.year;
    MonthStep(y, 6);
    MonthStep(y, 12);
    if date.month <= 6 {
      OrdinalWithinMonths(date, 1, 6);
      SeasonsAdjacent(y);
    } else {
      OrdinalWithinMonths(date, 7, 12);
      SeasonsAdjacent(y);
    }
  }
}
