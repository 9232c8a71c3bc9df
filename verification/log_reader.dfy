/**
 * `read_temp_data`: the log files of a directory, visited in sorted name
 * order, each turned row by row into readings. The first row of a file is
 * its header. The first row that cannot be read ends its file with one
 * warning, and the readings before it are kept. A file without even a
 * header ends the whole read; the warnings logged before it stay logged.
 *
 * The directory is given as data (file name to the rows `csv.reader`
 * yields), the warnings are returned instead of logged, and `strptime`
 * and `float` are the partial functions `parseTime` and `parseFloat`.
 */
module LogReader {
  import opened Wrappers
  import opened TempLog
  import TextOrder

  /** The fields of one line of a log file. */
  type Row = seq<string>

  /** A log directory: each file's name and its rows, header first. */
  type Directory = map<string, seq<Row>>

  /** Why a row could not be read, in the order the row's fields are used. */
  datatype RowError =
    | MissingField(index: nat)       // `row[index]` raised IndexError
    | BadTimestamp(text: string)     // `strptime` rejected file name + time
    | BadTemperature(text: string)   // `float` rejected the stripped reading

  /** The warning logged when a file is abandoned: file, 0-based data row, error. */
  datatype Warning = Warning(file: string, row: nat, error: RowError)

  /** What one file gives: its readings, and at most one warning. */
  datatype Scan = Scan(entries: seq<LogEntry>, warnings: seq<Warning>)

  /**
   * What the whole read gives: all readings and warnings, or the first
   * file without even a header, on which `next(reader)` raised outside
   * the `try` and ended the read. The readings gathered so far are lost
   * with the exception; the warnings were already written to the log.
   */
  datatype ReadOutcome =
    | Read(entries: seq<LogEntry>, warnings: seq<Warning>)
    | HeaderMissing(file: string, warnings: seq<Warning>)

  /** `temp_string[1:-2]`: drop the first character, whatever it is, and the two-character unit. */
  function StripUnit(s: string): string
  {
    if |s| >= 3 then s[1..|s| - 2] else ""
  }

  /** A reading such as `+45.0°C` yields the number text between its first character and the unit. */
  lemma StripUnitRoundTrip(first: char, number: string, unit: string)
    requires |unit| == 2
    ensures StripUnit([first] + number + unit) == number
  {
    var s := [first] + number + unit;
    assert s[1..|s| - 2] == number;
  }

  /** Python clamps the slice: a text of fewer than three characters becomes empty. */
  lemma StripUnitShort(s: string)
    requires |s| < 3
    ensures StripUnit(s) == ""
  {
  }

  /**
   * One data row made into a `LogEntry`: the timestamp parsed from the
   * file name followed by field 0, the temperatures from fields 1 and 2.
   */
  function ParseRow(file: string, row: Row, parseTime: string -> Option<DateTime>,
                    parseFloat: string -> Option<real>): Result<LogEntry, RowError>
  {
    if |row| < 1 then Err(MissingField(0))
    else
      match parseTime(file + row[0])
      case None => Err(BadTimestamp(file + row[0]))
      case Some(timestamp) =>
        if |row| < 2 then Err(MissingField(1))
        else
          match parseFloat(StripUnit(row[1]))
          case None => Err(BadTemperature(StripUnit(row[1])))
          case Some(core1) =>
            if |row| < 3 then Err(MissingField(2))
            else
              match parseFloat(StripUnit(row[2]))
              case None => Err(BadTemperature(StripUnit(row[2])))
              case Some(core2) => Ok(LogEntry(timestamp, core1, core2))
  }

  /**
   * The data rows of `file` from index `i` on: the readings up to the
   * first row that fails, then that row's warning and nothing more.
   */
  function ReadRows(file: string, data: seq<Row>, i: nat, parse: Row -> Result<LogEntry, RowError>): Scan
    requires i <= |data|
    decreases |data| - i
  {
    if i == |data| then Scan([], [])
    else
      match parse(data[i])
      case Err(e) => Scan([], [Warning(file, i, e)])
      case Ok(entry) =>
        var rest := ReadRows(file, data, i + 1, parse);
        Scan([entry] + rest.entries, rest.warnings)
  }

  /** `ParseRow` for the rows of one file. */
  function RowParser(file: string, parseTime: string -> Option<DateTime>,
                     parseFloat: string -> Option<real>): Row -> Result<LogEntry, RowError>
  {
    row => ParseRow(file, row, parseTime, parseFloat)
  }

  /**
   * A row becomes a reading exactly when it has three fields, the
   * timestamp parses and both stripped temperatures parse; otherwise the
   * error names the first step that failed.
   */
  lemma ParseRowSpec(file: string, row: Row, parseTime: string -> Option<DateTime>,
                     parseFloat: string -> Option<real>)
    ensures var r := ParseRow(file, row, parseTime, parseFloat);
            r.Ok? <==>
              && |row| >= 3
              && parseTime(file + row[0]).Some?
              && parseFloat(StripUnit(row[1])).Some?
              && parseFloat(StripUnit(row[2])).Some?
    ensures var r := ParseRow(file, row, parseTime, parseFloat);
            r.Ok? ==>
              r.value == LogEntry(parseTime(file + row[0]).value,
                                  parseFloat(StripUnit(row[1])).value,
                                  parseFloat(StripUnit(row[2])).value)
    ensures |row| < 1 ==> ParseRow(file, row, parseTime, parseFloat) == Err(MissingField(0))
    ensures |row| >= 1 && parseTime(file + row[0]).None? ==>
              ParseRow(file, row, parseTime, parseFloat) == Err(BadTimestamp(file + row[0]))
    ensures |row| == 1 && parseTime(file + row[0]).Some? ==>
              ParseRow(file, row, parseTime, parseFloat) == Err(MissingField(1))
    ensures |row| >= 2 && parseTime(file + row[0]).Some? && parseFloat(StripUnit(row[1])).None? ==>
              ParseRow(file, row, parseTime, parseFloat) == Err(BadTemperature(StripUnit(row[1])))
    ensures |row| == 2 && parseTime(file + row[0]).Some? && parseFloat(StripUnit(row[1])).Some? ==>
              ParseRow(file, row, parseTime, parseFloat) == Err(MissingField(2))
    ensures (|row| >= 3 && parseTime(file + row[0]).Some? && parseFloat(StripUnit(row[1])).Some?
             && parseFloat(StripUnit(row[2])).None?) ==>
              ParseRow(file, row, parseTime, parseFloat) == Err(BadTemperature(StripUnit(row[2])))
  {
  }

  /**
   * What a file's data rows give from index `i` on: the readings of the
   * rows before the first one that fails, in row order, and then exactly
   * one warning with that row's index and error; no warning if no row fails.
   */
  lemma {:induction false} ReadRowsSpec(file: string, data: seq<Row>, i: nat,
                                        parse: Row -> Result<LogEntry, RowError>)
    requires i <= |data|
    ensures var r := ReadRows(file, data, i, parse);
            && |r.warnings| <= 1
            && i + |r.entries| <= |data|
            && (forall k :: 0 <= k < |r.entries| ==> parse(data[i + k]) == Ok(r.entries[k]))
            && (r.warnings == [] ==> i + |r.entries| == |data|)
            && (r.warnings != [] ==>
                  var bad := i + |r.entries|;
                  && bad < |data|
                  && parse(data[bad]).Err?
                  && r.warnings == [Warning(file, bad, parse(data[bad]).error)])
    decreases |data| - i
  {
    if i < |data| && parse(data[i]).Ok? {
      ReadRowsSpec(file, data, i + 1, parse);
      var r, rest := ReadRows(file, data, i, parse), ReadRows(file, data, i + 1, parse);
      assert r.entries == [parse(data[i]).value] + rest.entries;
      assert r.warnings == rest.warnings;
      forall k | 0 < k < |r.entries|
        ensures parse(data[i + k]) == Ok(r.entries[k])
      {
        assert r.entries[k] == rest.entries[k - 1] && i + k == (i + 1) + (k - 1);
      }
    }
  }

  /**
   * One file on its own: no line at all is a missing header; otherwise the
   * header is skipped and the data rows are read from index 0.
   */
  function ReadFile(file: string, rows: seq<Row>, parseTime: string -> Option<DateTime>,
                    parseFloat: string -> Option<real>): ReadOutcome
  {
    if rows == [] then HeaderMissing(file, [])
    else
      var scan := ReadRows(file, rows[1..], 0, RowParser(file, parseTime, parseFloat));
      Read(scan.entries, scan.warnings)
  }

  /**
   * A file with a header: its readings are its data rows read in order up
   * to the first one that fails, whose 0-based data row index and error
   * make the only warning; a file whose rows all read has no warning.
   */
  lemma ReadFileSpec(file: string, rows: seq<Row>, parseTime: string -> Option<DateTime>,
                     parseFloat: string -> Option<real>)
    requires rows != []
    ensures var o := ReadFile(file, rows, parseTime, parseFloat);
            && o.Read?
            && |o.warnings| <= 1
            && |o.entries| < |rows|
            && (forall k :: 0 <= k < |o.entries| ==>
                  ParseRow(file, rows[k + 1], parseTime, parseFloat) == Ok(o.entries[k]))
            && (o.warnings == [] <==> |o.entries| == |rows| - 1)
            && (o.warnings != [] ==>
                  var bad := |o.entries|;
                  && ParseRow(file, rows[bad + 1], parseTime, parseFloat).Err?
                  && o.warnings == [Warning(file, bad, ParseRow(file, rows[bad + 1], parseTime, parseFloat).error)])
  {
    var data := rows[1..];
    ReadRowsSpec(file, data, 0, RowParser(file, parseTime, parseFloat));
    assert forall k :: 0 <= k < |data| ==> data[k] == rows[k + 1];
  }

  /** The header is never read: files that differ only in it give the same outcome. */
  lemma HeaderIgnored(file: string, header1: Row, header2: Row, data: seq<Row>,
                      parseTime: string -> Option<DateTime>, parseFloat: string -> Option<real>)
    ensures ReadFile(file, [header1] + data, parseTime, parseFloat)
            == ReadFile(file, [header2] + data, parseTime, parseFloat)
  {
    assert ([header1] + data)[1..] == data == ([header2] + data)[1..];
  }

  /** Outcomes of two consecutive stretches of files, combined. */
  function Then(first: ReadOutcome, second: ReadOutcome): ReadOutcome
  {
    match first
    case HeaderMissing(f, w1) => HeaderMissing(f, w1)
    case Read(e1, w1) =>
      match second
      case HeaderMissing(f, w2) => HeaderMissing(f, w1 + w2)
      case Read(e2, w2) => Read(e1 + e2, w1 + w2)
  }

  /** The files in the order visited, read one after the other. */
  function ReadFiles(files: seq<(string, seq<Row>)>, parseTime: string -> Option<DateTime>,
                     parseFloat: string -> Option<real>): ReadOutcome
  {
    if files == [] then Read([], [])
    else
      var last := files[|files| - 1];
      Then(ReadFiles(files[..|files| - 1], parseTime, parseFloat),
           ReadFile(last.0, last.1, parseTime, parseFloat))
  }

  /** The files of `dir` named by `names`, in that order. */
  function FilesOf(dir: Directory, names: seq<string>): (files: seq<(string, seq<Row>)>)
    requires forall k :: 0 <= k < |names| ==> names[k] in dir
    ensures |files| == |names|
    ensures forall k :: 0 <= k < |names| ==> files[k] == (names[k], dir[names[k]])
  {
    seq(|names|, k requires 0 <= k < |names| => (names[k], dir[names[k]]))
  }

  /** What `read_temp_data` returns for a directory: its files read in sorted name order. */
  ghost function ReadDirectory(dir: Directory, parseTime: string -> Option<DateTime>,
                               parseFloat: string -> Option<real>): ReadOutcome
  {
    var names := TextOrder.Listing(dir.Keys);
    ReadFiles(FilesOf(dir, names), parseTime, parseFloat)
  }

  /** Combining outcomes is associative and has an empty read as unit. */
  lemma ThenAssociative(x: ReadOutcome, y: ReadOutcome, z: ReadOutcome)
    ensures Then(Then(x, y), z) == Then(x, Then(y, z))
    ensures Then(x, Read([], [])) == x && Then(Read([], []), x) == x
  {
    assert (x.warnings + y.warnings) + z.warnings == x.warnings + (y.warnings + z.warnings);
    assert x.warnings + [] == x.warnings && [] + x.warnings == x.warnings;
    if x.Read? && y.Read? && z.Read? {
      assert (x.entries + y.entries) + z.entries == x.entries + (y.entries + z.entries);
    }
    if x.Read? {
      assert x.entries + [] == x.entries && [] + x.entries == x.entries;
    }
  }

  /**
   * Files are read independently and in order: what a stretch of files
   * gives does not depend on the files around it, and the readings and
   * warnings of earlier files come first.
   */
  lemma {:induction false} ReadFilesAppend(a: seq<(string, seq<Row>)>, b: seq<(string, seq<Row>)>,
                                           parseTime: string -> Option<DateTime>,
                                           parseFloat: string -> Option<real>)
    ensures ReadFiles(a + b, parseTime, parseFloat)
            == Then(ReadFiles(a, parseTime, parseFloat), ReadFiles(b, parseTime, parseFloat))
    decreases |b|
  {
    if b == [] {
      assert a + b == a;
      ThenAssociative(ReadFiles(a, parseTime, parseFloat), Read([], []), Read([], []));
    } else {
      var b' := b[..|b| - 1];
      assert (a + b)[..|a + b| - 1] == a + b';
      assert (a + b)[|a + b| - 1] == b[|b| - 1];
      ReadFilesAppend(a, b', parseTime, parseFloat);
      var last := b[|b| - 1];
      ThenAssociative(ReadFiles(a, parseTime, parseFloat), ReadFiles(b', parseTime, parseFloat),
                      ReadFile(last.0, last.1, parseTime, parseFloat));
    }
  }

  /** A file read on its own. */
  lemma ReadOneFile(file: string, rows: seq<Row>, parseTime: string -> Option<DateTime>,
                    parseFloat: string -> Option<real>)
    ensures ReadFiles([(file, rows)], parseTime, parseFloat) == ReadFile(file, rows, parseTime, parseFloat)
  {
    assert [(file, rows)][..0] == [];
    ThenAssociative(ReadFile(file, rows, parseTime, parseFloat), Read([], []), Read([], []));
  }

  /**
   * `k` is the first file without a line, the read fails on it, and the
   * warnings are those the files before it logged.
   */
  ghost predicate FailsFirstAt(files: seq<(string, seq<Row>)>, k: int, outcome: ReadOutcome,
                               parseTime: string -> Option<DateTime>, parseFloat: string -> Option<real>)
  {
    && 0 <= k < |files|
    && outcome.HeaderMissing?
    && files[k] == (outcome.file, [])
    && (forall j :: 0 <= j < k ==> files[j].1 != [])
    && ReadFiles(files[..k], parseTime, parseFloat).Read?
    && outcome.warnings == ReadFiles(files[..k], parseTime, parseFloat).warnings
  }

  /**
   * The read fails exactly when some file has no line at all, and it then
   * names the first such file in the order visited and keeps the warnings
   * the files before it logged.
   */
  lemma {:induction false} HeaderMissingFirst(files: seq<(string, seq<Row>)>,
                                              parseTime: string -> Option<DateTime>,
                                              parseFloat: string -> Option<real>)
    ensures ReadFiles(files, parseTime, parseFloat).HeaderMissing? <==>
              exists k :: 0 <= k < |files| && files[k].1 == []
    ensures ReadFiles(files, parseTime, parseFloat).HeaderMissing? ==>
              exists k :: FailsFirstAt(files, k, ReadFiles(files, parseTime, parseFloat), parseTime, parseFloat)
  {
    if files != [] {
      var init := files[..|files| - 1];
      HeaderMissingFirst(init, parseTime, parseFloat);
      assert forall k :: 0 <= k < |init| ==> init[k] == files[k];
      var r, ri := ReadFiles(files, parseTime, parseFloat), ReadFiles(init, parseTime, parseFloat);
      if ri.HeaderMissing? {
        var k :| FailsFirstAt(init, k, ri, parseTime, parseFloat);
        assert init[..k] == files[..k];
        assert FailsFirstAt(files, k, r, parseTime, parseFloat);
      } else if files[|files| - 1].1 == [] {
        var k := |files| - 1;
        assert files[..k] == init;
        assert ri.warnings + [] == ri.warnings;
        assert FailsFirstAt(files, k, r, parseTime, parseFloat);
      }
    }
  }

  /**
   * A warning logged for an earlier file survives a later file without a
   * header: file `a` fails on its empty data row, then file `b` has no line.
   */
  lemma WarningBeforeHeaderMissing(parseTime: string -> Option<DateTime>, parseFloat: string -> Option<real>)
    ensures ReadFiles([("a", [["h"], []]), ("b", [])], parseTime, parseFloat)
            == HeaderMissing("b", [Warning("a", 0, MissingField(0))])
  {
    var files: seq<(string, seq<Row>)> := [("a", [["h"], []]), ("b", [])];
    assert files[..1] == [("a", [["h"], []])];
    ReadOneFile("a", [["h"], []], parseTime, parseFloat);
    assert [["h"], []][1..] == [[]];
  }

  /** Reading one more file extends what the files before it gave. */
  lemma ReadFilesSnoc(files: seq<(string, seq<Row>)>, k: nat, parseTime: string -> Option<DateTime>,
                      parseFloat: string -> Option<real>)
    requires k < |files|
    ensures ReadFiles(files[..k + 1], parseTime, parseFloat)
            == Then(ReadFiles(files[..k], parseTime, parseFloat), ReadFile(files[k].0, files[k].1, parseTime, parseFloat))
  {
    assert files[..k + 1][..k] == files[..k];
  }

  /** Once a file without a header is reached, the whole read has failed on it. */
  lemma HeaderMissingPrefix(files: seq<(string, seq<Row>)>, m: nat, parseTime: string -> Option<DateTime>,
                            parseFloat: string -> Option<real>)
    requires m <= |files| && ReadFiles(files[..m], parseTime, parseFloat).HeaderMissing?
    ensures ReadFiles(files, parseTime, parseFloat) == ReadFiles(files[..m], parseTime, parseFloat)
  {
    assert files == files[..m] + files[m..];
    ReadFilesAppend(files[..m], files[m..], parseTime, parseFloat);
  }

  /**
   * The read of a directory splits at any file: the files named before
   * it, then the file itself, then the files named after it. So a file's
   * readings and warnings do not depend on the files around it.
   */
  lemma ReadDirectorySplit(dir: Directory, name: string, before: Directory, after: Directory,
                           parseTime: string -> Option<DateTime>, parseFloat: string -> Option<real>)
    requires name in dir
    requires forall n :: n in before <==> n in dir && TextOrder.Less(n, name)
    requires forall n :: n in after <==> n in dir && TextOrder.Less(name, n)
    requires forall n :: n in before ==> before[n] == dir[n]
    requires forall n :: n in after ==> after[n] == dir[n]
    ensures ReadDirectory(dir, parseTime, parseFloat) ==
              Then(ReadDirectory(before, parseTime, parseFloat),
                   Then(ReadFile(name, dir[name], parseTime, parseFloat), ReadDirectory(after, parseTime, parseFloat)))
  {
    var lb, la := TextOrder.Listing(before.Keys), TextOrder.Listing(after.Keys);
    var fb, fa, f := FilesOf(before, lb), FilesOf(after, la), [(name, dir[name])];
    assert FilesOf(dir, TextOrder.Listing(dir.Keys)) == fb + f + fa by {
      TextOrder.ListingSplit(dir.Keys, name, before.Keys, after.Keys);
      FilesOfSplit(dir, before, after, lb, name, la);
    }
    var rb, rf, ra := ReadFiles(fb, parseTime, parseFloat), ReadFile(name, dir[name], parseTime, parseFloat),
                      ReadFiles(fa, parseTime, parseFloat);
    assert ReadFiles(fb + f + fa, parseTime, parseFloat) == Then(Then(rb, rf), ra) by {
      ReadFilesAppend(fb + f, fa, parseTime, parseFloat);
      ReadFilesAppend(fb, f, parseTime, parseFloat);
      ReadOneFile(name, dir[name], parseTime, parseFloat);
    }
    assert ReadDirectory(before, parseTime, parseFloat) == rb && ReadDirectory(after, parseTime, parseFloat) == ra;
    ThenAssociative(rb, rf, ra);
  }

  lemma FilesOfSplit(dir: Directory, before: Directory, after: Directory,
                     lb: seq<string>, name: string, la: seq<string>)
    requires name in dir
    requires forall k :: 0 <= k < |lb| ==> lb[k] in before && lb[k] in dir && before[lb[k]] == dir[lb[k]]
    requires forall k :: 0 <= k < |la| ==> la[k] in after && la[k] in dir && after[la[k]] == dir[la[k]]
    ensures FilesOf(dir, lb + [name] + la) == FilesOf(before, lb) + [(name, dir[name])] + FilesOf(after, la)
  {
    var all := lb + [name] + la;
    var l, r := FilesOf(dir, all), FilesOf(before, lb) + [(name, dir[name])] + FilesOf(after, la);
    assert |l| == |r|;
    forall k | 0 <= k < |l|
      ensures l[k] == r[k]
    {
      if k < |lb| {
        assert all[k] == lb[k];
      } else if k > |lb| {
        assert all[k] == la[k - |lb| - 1];
      }
    }
  }

  /**
   * The data rows of one file appended, reading by reading, to what the
   * earlier files gave; the first row that fails adds its warning and ends
   * the file.
   */
  method ReadFileRows(file: string, data: seq<Row>, logEntries: seq<LogEntry>, logWarnings: seq<Warning>,
                      parseTime: string -> Option<DateTime>, parseFloat: string -> Option<real>)
    returns (entries: seq<LogEntry>, warnings: seq<Warning>)
    ensures var scan := ReadRows(file, data, 0, RowParser(file, parseTime, parseFloat));
            entries == logEntries + scan.entries && warnings == logWarnings + scan.warnings
  {
    entries, warnings := logEntries, logWarnings;
    var i := 0;
    while i < |data|
      invariant 0 <= i <= |data|
      invariant warnings == logWarnings
      invariant entries + ReadRows(file, data, i, RowParser(file, parseTime, parseFloat)).entries
                == logEntries + ReadRows(file, data, 0, RowParser(file, parseTime, parseFloat)).entries
      invariant ReadRows(file, data, i, RowParser(file, parseTime, parseFloat)).warnings
                == ReadRows(file, data, 0, RowParser(file, parseTime, parseFloat)).warnings
      decreases |data| - i
    {
      var parsed := ParseRow(file, data[i], parseTime, parseFloat);
      if parsed.Err? {
        assert entries + [] == entries;
        warnings := warnings + [Warning(file, i, parsed.error)];
        return;
      }
      ghost var rest := ReadRows(file, data, i + 1, RowParser(file, parseTime, parseFloat)).entries;
      assert entries + ([parsed.value] + rest) == (entries + [parsed.value]) + rest;
      entries := entries + [parsed.value];
      i := i + 1;
    }
    assert entries + [] == entries && warnings + [] == warnings;
  }

  /**
   * `read_temp_data(log_dir)`: files in sorted name order, the header
   * skipped, each data row appended as a reading until the first row that
   * fails, which is logged with its file and row index.
   */
  method ReadTempData(dir: Directory, parseTime: string -> Option<DateTime>,
                      parseFloat: string -> Option<real>) returns (outcome: ReadOutcome)
    ensures outcome == ReadDirectory(dir, parseTime, parseFloat)
  {
    var names := TextOrder.SortNames(dir.Keys);
    ghost var files := FilesOf(dir, names);
    var entries: seq<LogEntry> := [];
    var warnings: seq<Warning> := [];
    var k := 0;
    while k < |names|
      invariant 0 <= k <= |names|
      invariant ReadFiles(files[..k], parseTime, parseFloat) == Read(entries, warnings)
      decreases |names| - k
    {
      var file := names[k];
      var rows := dir[file];
      ReadFilesSnoc(files, k, parseTime, parseFloat);
      if rows == [] {
        // `next(reader)` raises StopIteration outside the `try`.
        HeaderMissingPrefix(files, k + 1, parseTime, parseFloat);
        assert warnings + [] == warnings;
        return HeaderMissing(file, warnings);
      }
      ghost var before := Read(entries, warnings);
      entries, warnings := ReadFileRows(file, rows[1..], entries, warnings, parseTime, parseFloat);
      assert Then(before, ReadFile(file, rows, parseTime, parseFloat)) == Read(entries, warnings);
      k := k + 1;
    }
    assert files[..k] == files;
    outcome := Read(entries, warnings);
  }
}
