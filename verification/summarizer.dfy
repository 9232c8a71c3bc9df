/**
 * `summarize`: cut the readings into runs of consecutive readings of the
 * same day, as `itertools.groupby` does, and give each run the four
 * statistics of each core.
 */
module Summarizer {
  import opened TempLog
  import opened Statistics

  /** The `groupby` key of a reading: its timestamp truncated to midnight. */
  function DayOf(e: LogEntry): DateTime
  {
    Midnight(e.timestamp)
  }

  /** `summarize_logs(temps)`: min, max, mean and median of one core. */
  function SummarizeLogs(temps: seq<real>): (r: DataSummary)
    requires temps != []
    ensures r.min in temps && r.max in temps
    ensures forall t :: t in temps ==> r.min <= t <= r.max
    ensures r.min <= r.mean <= r.max
    ensures r.min <= r.median <= r.max
  {
    MeanBounds(temps);
    MedianBounds(temps);
    DataSummary(Min(temps), Max(temps), Mean(temps), Median(temps))
  }

  /** The first core's temperatures of a run, in reading order. */
  function Core1Temps(run: seq<LogEntry>): seq<real>
  {
    seq(|run|, k requires 0 <= k < |run| => run[k].core1Temp)
  }

  /** The second core's temperatures of a run, in reading order. */
  function Core2Temps(run: seq<LogEntry>): seq<real>
  {
    seq(|run|, k requires 0 <= k < |run| => run[k].core2Temp)
  }

  /** The summary `summarize` emits for one run. */
  function SummaryOf(run: seq<LogEntry>): LogSummary
    requires run != []
  {
    LogSummary(DayOf(run[0]), SummarizeLogs(Core1Temps(run)), SummarizeLogs(Core2Temps(run)))
  }

  /** The summaries of a sequence of runs, one per run, in order. */
  function SummariesOf(runs: seq<seq<LogEntry>>): seq<LogSummary>
    requires forall i :: 0 <= i < |runs| ==> runs[i] != []
  {
    seq(|runs|, i requires 0 <= i < |runs| => SummaryOf(runs[i]))
  }

  function Flatten(runs: seq<seq<LogEntry>>): seq<LogEntry>
  {
    if runs == [] then [] else runs[0] + Flatten(runs[1..])
  }

  /**
   * The way `groupby` cuts `s`: non-empty runs whose readings share one
   * day, each run's day differing from the next one's, which laid end to
   * end give `s` back.
   */
  ghost predicate IsDayRuns(s: seq<LogEntry>, runs: seq<seq<LogEntry>>)
  {
    && Flatten(runs) == s
    && (forall i :: 0 <= i < |runs| ==> runs[i] != [])
    && (forall i, k :: 0 <= i < |runs| && 0 <= k < |runs[i]| ==> DayOf(runs[i][k]) == DayOf(runs[i][0]))
    && (forall i :: 0 <= i < |runs| - 1 ==> DayOf(runs[i][0]) != DayOf(runs[i + 1][0]))
  }

  /** The length of the run `s` starts with. */
  function RunLength(s: seq<LogEntry>): (n: nat)
    requires s != []
    ensures 1 <= n <= |s|
    ensures forall k :: 0 <= k < n ==> DayOf(s[k]) == DayOf(s[0])
    ensures n < |s| ==> DayOf(s[n]) != DayOf(s[0])
  {
    if |s| == 1 || DayOf(s[1]) != DayOf(s[0]) then 1
    else 1 + RunLength(s[1..])
  }

  /** The groups `groupby(data, key)` yields, in order. */
  function Runs(s: seq<LogEntry>): (runs: seq<seq<LogEntry>>)
    ensures forall i :: 0 <= i < |runs| ==> runs[i] != []
    ensures s != [] ==> runs != [] && runs[0][0] == s[0]
    decreases |s|
  {
    if s == [] then []
    else
      var n := RunLength(s);
      [s[..n]] + Runs(s[n..])
  }

  /** The groups are maximal runs of one day that together give back the input. */
  lemma {:induction false} RunsAreDayRuns(s: seq<LogEntry>)
    ensures IsDayRuns(s, Runs(s))
    decreases |s|
  {
    if s != [] {
      var n := RunLength(s);
      var rest := Runs(s[n..]);
      RunsAreDayRuns(s[n..]);
      assert s == s[..n] + s[n..];
      assert rest != [] ==> rest[0][0] == s[n];
      var runs := [s[..n]] + rest;
      assert runs == Runs(s);
      assert Flatten(runs) == s by {
        assert runs[1..] == rest;
      }
      forall i, k | 0 <= i < |runs| && 0 <= k < |runs[i]|
        ensures DayOf(runs[i][k]) == DayOf(runs[i][0])
      {
        if i > 0 {
          assert runs[i] == rest[i - 1];
        }
      }
      forall i | 0 <= i < |runs| - 1
        ensures DayOf(runs[i][0]) != DayOf(runs[i + 1][0])
      {
        if i > 0 {
          assert runs[i] == rest[i - 1] && runs[i + 1] == rest[i];
        }
      }
    }
  }

  /** A run of `n` same-day readings followed by a change of day has length `n`. */
  lemma {:induction false} RunLengthIs(s: seq<LogEntry>, n: nat)
    requires 0 < n <= |s|
    requires forall k :: 0 <= k < n ==> DayOf(s[k]) == DayOf(s[0])
    requires n < |s| ==> DayOf(s[n]) != DayOf(s[0])
    ensures RunLength(s) == n
  {
    if n > 1 {
      assert DayOf(s[1]) == DayOf(s[0]);
      assert forall k :: 0 <= k < n - 1 ==> s[1..][k] == s[k + 1];
      RunLengthIs(s[1..], n - 1);
    }
  }

  /** `Runs` is the only way to cut a sequence into maximal runs of one day. */
  lemma {:induction false} RunsUnique(s: seq<LogEntry>, runs: seq<seq<LogEntry>>)
    requires IsDayRuns(s, runs)
    ensures runs == Runs(s)
  {
    if runs != [] {
      var n := |runs[0]|;
      assert s == runs[0] + Flatten(runs[1..]);
      assert s[..n] == runs[0] && s[n..] == Flatten(runs[1..]);
      assert n < |s| ==> s[n] == runs[1][0] by {
        if n < |s| {
          assert Flatten(runs[1..]) == runs[1] + Flatten(runs[2..]);
        }
      }
      RunLengthIs(s, n);
      assert IsDayRuns(s[n..], runs[1..]) by {
        forall i | 0 <= i < |runs[1..]| - 1
          ensures DayOf(runs[1..][i][0]) != DayOf(runs[1..][i + 1][0])
        {
          assert runs[1..][i] == runs[i + 1] && runs[1..][i + 1] == runs[i + 2];
        }
      }
      RunsUnique(s[n..], runs[1..]);
      assert runs == [runs[0]] + runs[1..];
    }
  }

  /** Readings whose timestamps never go backwards. */
  ghost predicate TimeOrdered(s: seq<LogEntry>)
  {
    forall i :: 0 <= i < |s| - 1 ==> AtOrBefore(s[i].timestamp, s[i + 1].timestamp)
  }

  /** Readings whose day keys never go backwards: all `groupby` by day needs. */
  ghost predicate DaysOrdered(s: seq<LogEntry>)
  {
    forall i :: 0 <= i < |s| - 1 ==> AtOrBefore(DayOf(s[i]), DayOf(s[i + 1]))
  }

  /** Readings in time order have their days in order. */
  lemma TimeOrderedDaysOrdered(s: seq<LogEntry>)
    requires TimeOrdered(s)
    ensures DaysOrdered(s)
  {
    forall i | 0 <= i < |s| - 1
      ensures AtOrBefore(DayOf(s[i]), DayOf(s[i + 1]))
    {
      MidnightMonotone(s[i].timestamp, s[i + 1].timestamp);
    }
  }

  ghost function DaysOf(s: seq<LogEntry>): set<DateTime>
  {
    set e | e in s :: DayOf(e)
  }

  /** In day-ordered readings a later reading is never on an earlier day. */
  lemma {:induction false} DaysFollow(s: seq<LogEntry>, i: nat, j: nat)
    requires DaysOrdered(s) && i <= j < |s|
    ensures AtOrBefore(DayOf(s[i]), DayOf(s[j]))
    decreases j - i
  {
    if i < j {
      DaysFollow(s, i + 1, j);
      if DayOf(s[i]) != DayOf(s[i + 1]) && DayOf(s[i + 1]) != DayOf(s[j]) {
        BeforeTransitive(DayOf(s[i]), DayOf(s[i + 1]), DayOf(s[j]));
      }
    }
  }

  /** Over day-ordered readings, the runs' days strictly increase. */
  lemma {:induction false} RunDaysAscending(s: seq<LogEntry>)
    requires DaysOrdered(s)
    ensures forall i, j :: 0 <= i < j < |Runs(s)| ==> Before(DayOf(Runs(s)[i][0]), DayOf(Runs(s)[j][0]))
    decreases |s|
  {
    if s != [] {
      var n := RunLength(s);
      var runs, rest := Runs(s), Runs(s[n..]);
      DaysOrderedSuffix(s, n);
      RunDaysAscending(s[n..]);
      forall i, j | 0 <= i < j < |runs|
        ensures Before(DayOf(runs[i][0]), DayOf(runs[j][0]))
      {
        if i == 0 {
          DaysFollow(s, n - 1, n);
          assert DayOf(s[n - 1]) == DayOf(s[0]);
          if j > 1 {
            BeforeTransitive(DayOf(s[0]), DayOf(s[n]), DayOf(rest[j - 1][0]));
          }
        } else {
          assert runs[i] == rest[i - 1] && runs[j] == rest[j - 1];
        }
      }
    }
  }

  lemma DaysOfSplit(s: seq<LogEntry>, n: nat)
    requires n <= |s|
    ensures DaysOf(s) == DaysOf(s[..n]) + DaysOf(s[n..])
  {
    assert s == s[..n] + s[n..];
  }

  lemma DaysOfRun(s: seq<LogEntry>)
    requires s != []
    ensures DaysOf(s[..RunLength(s)]) == {DayOf(s[0])}
  {
    var n := RunLength(s);
    forall e | e in s[..n]
      ensures DayOf(e) == DayOf(s[0])
    {
      var m :| 0 <= m < n && s[..n][m] == e;
    }
    assert s[0] in s[..n];
  }

  lemma DaysOrderedSuffix(s: seq<LogEntry>, n: nat)
    requires DaysOrdered(s) && n <= |s|
    ensures DaysOrdered(s[n..])
  {
    forall i | 0 <= i < |s[n..]| - 1
      ensures AtOrBefore(DayOf(s[n..][i]), DayOf(s[n..][i + 1]))
    {
      assert s[n..][i] == s[n + i] && s[n..][i + 1] == s[n + i + 1];
    }
  }

  /** The day of a run does not come back in any later reading. */
  lemma DayNotInLaterRuns(s: seq<LogEntry>)
    requires DaysOrdered(s) && s != []
    ensures DayOf(s[0]) !in DaysOf(s[RunLength(s)..])
  {
    var n := RunLength(s);
    DayNotAfterChange(s, n, DayOf(s[0]));
  }

  /** Once day-ordered readings leave day `d`, it does not come back. */
  lemma DayNotAfterChange(s: seq<LogEntry>, n: nat, d: DateTime)
    requires DaysOrdered(s) && 0 < n <= |s| && DayOf(s[n - 1]) == d
    requires n < |s| ==> DayOf(s[n]) != d
    ensures d !in DaysOf(s[n..])
  {
    if n < |s| {
      assert Before(d, DayOf(s[n])) by {
        DaysFollow(s, n - 1, n);
      }
      forall e | e in s[n..]
        ensures DayOf(e) != d
      {
        var m :| 0 <= m < |s[n..]| && s[n..][m] == e;
        DaysFollow(s, n, n + m);
        BeforeThenAtOrBefore(d, DayOf(s[n]), DayOf(s[n + m]));
      }
    }
  }

  /** Over day-ordered readings there is one run per distinct day. */
  lemma {:induction false} RunCountIsDayCount(s: seq<LogEntry>)
    requires DaysOrdered(s)
    ensures |Runs(s)| == |DaysOf(s)|
    decreases |s|
  {
    if s != [] {
      var n := RunLength(s);
      DaysOrderedSuffix(s, n);
      RunCountIsDayCount(s[n..]);
      DaysOfSplit(s, n);
      DaysOfRun(s);
      DayNotInLaterRuns(s);
      assert |Runs(s)| == 1 + |Runs(s[n..])|;
    }
  }

  /** The index just past the run that starts at `i`: how far one group of `groupby` reaches. */
  method RunEnd(data: seq<LogEntry>, i: nat) returns (j: nat)
    requires i < |data|
    ensures i < j <= |data|
    ensures forall k :: i <= k < j ==> DayOf(data[k]) == DayOf(data[i])
    ensures j < |data| ==> DayOf(data[j]) != DayOf(data[i])
  {
    j := i + 1;
    while j < |data| && DayOf(data[j]) == DayOf(data[i])
      invariant i < j <= |data|
      invariant forall k :: i <= k < j ==> DayOf(data[k]) == DayOf(data[i])
      decreases |data| - j
    {
      j := j + 1;
    }
  }

  lemma SummariesSnoc(runs: seq<seq<LogEntry>>, run: seq<LogEntry>)
    requires forall i :: 0 <= i < |runs| ==> runs[i] != []
    requires run != []
    ensures SummariesOf(runs + [run]) == SummariesOf(runs) + [SummaryOf(run)]
  {
    assert (runs + [run])[..|runs|] == runs;
  }

  /** A maximal run found by scanning from `i` is the next group. */
  lemma NextRun(data: seq<LogEntry>, i: nat, j: nat)
    requires i < j <= |data|
    requires forall k :: i <= k < j ==> DayOf(data[k]) == DayOf(data[i])
    requires j < |data| ==> DayOf(data[j]) != DayOf(data[i])
    ensures Runs(data[i..]) == [data[i..j]] + Runs(data[j..])
  {
    var rest := data[i..];
    assert RunLength(rest) == j - i by {
      assert forall k :: 0 <= k < j - i ==> rest[k] == data[i + k];
    }
    assert rest[..j - i] == data[i..j] && rest[j - i..] == data[j..];
  }

  /** After the groups in `done`, the scan from `i` to `j` yields the next one. */
  lemma RunsAdvance(data: seq<LogEntry>, i: nat, j: nat, done: seq<seq<LogEntry>>)
    requires i < j <= |data|
    requires forall k :: i <= k < j ==> DayOf(data[k]) == DayOf(data[i])
    requires j < |data| ==> DayOf(data[j]) != DayOf(data[i])
    requires Runs(data) == done + Runs(data[i..])
    ensures Runs(data) == (done + [data[i..j]]) + Runs(data[j..])
  {
    NextRun(data, i, j);
    AppendRegroup(done, data[i..j], Runs(data[j..]));
  }

  /** One pass of the loop in `summarize`: the next group and its summary. */
  lemma SummarizeStep(data: seq<LogEntry>, i: nat, j: nat, done: seq<seq<LogEntry>>)
    requires i < j <= |data|
    requires forall k :: i <= k < j ==> DayOf(data[k]) == DayOf(data[i])
    requires j < |data| ==> DayOf(data[j]) != DayOf(data[i])
    requires Runs(data) == done + Runs(data[i..])
    requires forall k :: 0 <= k < |done| ==> done[k] != []
    ensures Runs(data) == (done + [data[i..j]]) + Runs(data[j..])
    ensures forall k :: 0 <= k < |done + [data[i..j]]| ==> (done + [data[i..j]])[k] != []
    ensures SummariesOf(done + [data[i..j]]) == SummariesOf(done) + [SummaryOf(data[i..j])]
  {
    RunsAdvance(data, i, j, done);
    SummariesSnoc(done, data[i..j]);
  }

  lemma AppendRegroup<T>(a: seq<T>, x: T, b: seq<T>)
    ensures (a + [x]) + b == a + ([x] + b)
  {
  }

  /** Empty input gives no summaries; otherwise consecutive summaries are of different days. */
  lemma SummaryDaysDiffer(data: seq<LogEntry>)
    ensures data == [] <==> SummariesOf(Runs(data)) == []
    ensures forall i :: 0 <= i < |Runs(data)| ==> SummariesOf(Runs(data))[i].day == DayOf(Runs(data)[i][0])
    ensures forall i :: 0 <= i < |Runs(data)| - 1 ==> SummariesOf(Runs(data))[i].day != SummariesOf(Runs(data))[i + 1].day
  {
    RunsAreDayRuns(data);
  }

  /**
   * Over readings whose days never go backwards the summaries' days
   * strictly increase, and there is exactly one summary per distinct day.
   */
  lemma SummaryDaysAscending(data: seq<LogEntry>)
    requires DaysOrdered(data)
    ensures forall i, j :: 0 <= i < j < |Runs(data)| ==> Before(SummariesOf(Runs(data))[i].day, SummariesOf(Runs(data))[j].day)
    ensures |SummariesOf(Runs(data))| == |DaysOf(data)|
  {
    RunDaysAscending(data);
    RunCountIsDayCount(data);
  }

  /** In particular, over readings in time order (as the log files hold them). */
  lemma TimeOrderedSummaries(data: seq<LogEntry>)
    requires TimeOrdered(data)
    ensures forall i, j :: 0 <= i < j < |Runs(data)| ==> Before(SummariesOf(Runs(data))[i].day, SummariesOf(Runs(data))[j].day)
    ensures |SummariesOf(Runs(data))| == |DaysOf(data)|
  {
    TimeOrderedDaysOrdered(data);
    SummaryDaysAscending(data);
  }

  /**
   * `summarize(data)`: one summary per run of same-day readings, in input
   * order, each with the statistics of both cores over that run.
   */
  method Summarize(data: seq<LogEntry>) returns (summaries: seq<LogSummary>)
    ensures summaries == SummariesOf(Runs(data))
  {
    summaries := [];
    ghost var done: seq<seq<LogEntry>> := [];
    var i := 0;
    while i < |data|
      invariant 0 <= i <= |data|
      invariant Runs(data) == done + Runs(data[i..])
      invariant forall k :: 0 <= k < |done| ==> done[k] != []
      invariant summaries == SummariesOf(done)
      decreases |data| - i
    {
      var j := RunEnd(data, i);
      var group := data[i..j];
      SummarizeStep(data, i, j, done);
      var core1Summary := SummarizeLogs(Core1Temps(group));
      var core2Summary := SummarizeLogs(Core2Temps(group));
      summaries := summaries + [LogSummary(DayOf(group[0]), core1Summary, core2Summary)];
      done := done + [group];
      i := j;
    }
    assert Runs(data[i..]) == [] by {
      assert data[i..] == [];
    }
  }

  /** A day with a single reading has that reading as all four statistics. */
  lemma SingleReadingSummary(e: LogEntry)
    ensures SummaryOf([e]) == LogSummary(
              Midnight(e.timestamp),
              DataSummary(e.core1Temp, e.core1Temp, e.core1Temp, e.core1Temp),
              DataSummary(e.core2Temp, e.core2Temp, e.core2Temp, e.core2Temp))
  {
    assert Core1Temps([e]) == [e.core1Temp];
    assert Core2Temps([e]) == [e.core2Temp];
  }

  /** Two readings of 45.0 and 47.0: median and mean are both 46.0. */
  lemma TwoReadingSummary()
    ensures SummarizeLogs([45.0, 47.0]) == DataSummary(45.0, 47.0, 46.0, 46.0)
  {
    var s := [45.0, 47.0];
    assert Ascending(s);
    MedianOfAscending(s);
    assert s[1..] == [47.0];
    assert Sum(s) == 92.0 by {
      assert Sum(s[1..][1..]) == 0.0;
    }
    assert Min(s) == 45.0 && Max(s) == 47.0;
    assert Mean(s) == 46.0 && Median(s) == 46.0;
  }
}
