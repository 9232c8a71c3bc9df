/**
 * The records of the CPU temperature tool: a reading of both cores at one
 * moment, the four statistics of one core over a day, and a day's summary.
 */
module TempLog {

  /**
   * A naive `datetime` as `strptime` with the format `%Y%m%d%H%M%S` builds
   * it; its microseconds are always zero and are left out.
   */
  datatype DateTime = DateTime(year: int, month: int, day: int, hour: int, minute: int, second: int)

  /** `t.replace(hour=0, minute=0, second=0)`: the grouping key of a reading. */
  function Midnight(t: DateTime): DateTime
  {
    t.(hour := 0, minute := 0, second := 0)
  }

  /** `a < b` on datetimes: field by field, the year first. */
  predicate Before(a: DateTime, b: DateTime)
  {
    if a.year != b.year then a.year < b.year
    else if a.month != b.month then a.month < b.month
    else if a.day != b.day then a.day < b.day
    else if a.hour != b.hour then a.hour < b.hour
    else if a.minute != b.minute then a.minute < b.minute
    else a.second < b.second
  }

  predicate AtOrBefore(a: DateTime, b: DateTime)
  {
    a == b || Before(a, b)
  }

  lemma BeforeTransitive(a: DateTime, b: DateTime, c: DateTime)
    requires Before(a, b) && Before(b, c)
    ensures Before(a, c)
  {
  }

  /** A moment before another is before everything at or after that one. */
  lemma BeforeThenAtOrBefore(a: DateTime, b: DateTime, c: DateTime)
    requires Before(a, b) && AtOrBefore(b, c)
    ensures Before(a, c) && a != c
  {
    if b != c {
      BeforeTransitive(a, b, c);
    }
  }

  /** Readings in time order have their days in order. */
  lemma MidnightMonotone(a: DateTime, b: DateTime)
    requires AtOrBefore(a, b)
    ensures AtOrBefore(Midnight(a), Midnight(b))
  {
  }

  /** `LogEntry`: one row of a log file. */
  datatype LogEntry = LogEntry(timestamp: DateTime, core1Temp: real, core2Temp: real)

  /** `DataSummary`: the statistics of one core over one day. */
  datatype DataSummary = DataSummary(min: real, max: real, mean: real, median: real)

  /** `LogSummary`: the day (at midnight) and the statistics of each core. */
  datatype LogSummary = LogSummary(day: DateTime, core1Summary: DataSummary, core2Summary: DataSummary)
}
