/**
 * The comparison of two snapshots end to end: group both reports, take the
 * per-file difference, iterate it in ascending file-name order and render the
 * markdown table.
 */
module Report {
  import opened Wrappers
  import opened SizeTable
  import opened Differ
  import opened KeyOrder
  import opened CellFormat
  import opened TextLines
  import opened MarkdownTable

  /** The difference table as the writer iterates it: one entry per file, each with that file's deltas. */
  function DeltaRows(d: DeltaTable): (entries: seq<Entry>)
    ensures |entries| == |d|
    ensures forall i :: 0 <= i < |entries| ==> entries[i].0 in d && entries[i].1 == d[entries[i].0]
  {
    var names := SortedNames(d.Keys);
    seq(|names|, i requires 0 <= i < |names| => (names[i], d[names[i]]))
  }

  /** The names DeltaRows lists are the sorted names of the table. */
  lemma DeltaRowsNames(d: DeltaTable)
    ensures |DeltaRows(d)| == |SortedNames(d.Keys)|
    ensures forall i :: 0 <= i < |DeltaRows(d)| ==> DeltaRows(d)[i].0 == SortedNames(d.Keys)[i]
  {
  }

  /** Every file of the difference has an entry. */
  lemma DeltaRowsCoverTable(d: DeltaTable)
    ensures forall file :: file in d ==> exists i :: 0 <= i < |DeltaRows(d)| && DeltaRows(d)[i].0 == file
  {
    var names, entries := SortedNames(d.Keys), DeltaRows(d);
    forall file | file in d ensures exists i :: 0 <= i < |entries| && entries[i].0 == file {
      var i :| 0 <= i < |names| && names[i] == file;
      assert entries[i].0 == file;
    }
  }

  /** The entries come in strictly ascending order of file name, so no file is listed twice. */
  lemma DeltaRowsAscending(d: DeltaTable)
    ensures forall i, j :: 0 <= i < j < |DeltaRows(d)| ==>
              Below(DeltaRows(d)[i].0, DeltaRows(d)[j].0) && DeltaRows(d)[i].0 != DeltaRows(d)[j].0
  {
    var names, entries := SortedNames(d.Keys), DeltaRows(d);
    forall i, j | 0 <= i < j < |entries| ensures Below(entries[i].0, entries[j].0) && entries[i].0 != entries[j].0 {
      assert entries[i].0 == names[i] && entries[j].0 == names[j];
    }
  }

  /** The report text for a baseline and a current snapshot, or the error the unit lookup raises, KeyError(4). */
  function CompareReports(baselineRows: seq<SizeRow>, currentRows: seq<SizeRow>, fmt: real -> string)
    : (r: Result<string, LookupError>)
    ensures r.Failure? ==> r.error == KeyError(MaxPower)
  {
    RenderTable(DeltaRows(SizeDiff(baselineRows, currentRows)), fmt)
  }

  /** The delta of metric `m` for `file`, as the cell formatter receives it. */
  function Delta(baselineRows: seq<SizeRow>, currentRows: seq<SizeRow>, file: string, m: Metric): real
  {
    (ColumnSum(currentRows, file, m) - ColumnSum(baselineRows, file, m)) as real
  }

  /** Every delta of every file present in both snapshots is at most 10^12 in magnitude. */
  predicate DeltasInUnitRange(baselineRows: seq<SizeRow>, currentRows: seq<SizeRow>)
  {
    forall file, m :: file in Files(baselineRows) && file in Files(currentRows) ==>
      Abs(Delta(baselineRows, currentRows, file, m)) <= 1000000000000.0
  }

  /**
   * `d` holds, for exactly the files of both snapshots, the differences of
   * their column sums (what SizeDiff and SizeDiffSpec state).
   */
  predicate IsDiffOf(d: DeltaTable, baselineRows: seq<SizeRow>, currentRows: seq<SizeRow>)
  {
    && d.Keys == Files(baselineRows) * Files(currentRows)
    && forall file, m :: file in d ==>
         d[file].Get(m) == ColumnSum(currentRows, file, m) - ColumnSum(baselineRows, file, m)
  }

  /** The entries of such a table are the shared files, in ascending order, with their deltas. */
  lemma EntriesOfDiff(d: DeltaTable, baselineRows: seq<SizeRow>, currentRows: seq<SizeRow>)
    requires IsDiffOf(d, baselineRows, currentRows)
    ensures var entries := DeltaRows(d);
            var names := SortedNames(Files(baselineRows) * Files(currentRows));
            && |entries| == |names|
            && forall i :: 0 <= i < |entries| ==>
                 && entries[i].0 == names[i]
                 && (entries[i].1.filesize as real) == Delta(baselineRows, currentRows, names[i], FileSize)
                 && (entries[i].1.vmsize as real) == Delta(baselineRows, currentRows, names[i], VmSize)
  {
    var entries := DeltaRows(d);
    DeltaRowsNames(d);
    forall i | 0 <= i < |entries|
      ensures (entries[i].1.filesize as real) == Delta(baselineRows, currentRows, entries[i].0, FileSize)
      ensures (entries[i].1.vmsize as real) == Delta(baselineRows, currentRows, entries[i].0, VmSize)
    {
      assert d[entries[i].0].Get(FileSize) == entries[i].1.filesize;
      assert d[entries[i].0].Get(VmSize) == entries[i].1.vmsize;
    }
  }

  lemma SizeDiffIsDiffOf(baselineRows: seq<SizeRow>, currentRows: seq<SizeRow>)
    ensures IsDiffOf(SizeDiff(baselineRows, currentRows), baselineRows, currentRows)
  {
    SizeDiffSpec(baselineRows, currentRows);
  }

  /** The entries of a difference are all in range iff every file's deltas are. */
  lemma DeltaRowsInUnitRange(d: DeltaTable)
    ensures (forall i :: 0 <= i < |DeltaRows(d)| ==> InUnitRange(DeltaRows(d)[i])) <==>
              forall file :: file in d ==> InUnitRange((file, d[file]))
  {
    var entries := DeltaRows(d);
    if forall file :: file in d ==> InUnitRange((file, d[file])) {
      forall i | 0 <= i < |entries| ensures InUnitRange(entries[i]) {
        assert entries[i] == (entries[i].0, d[entries[i].0]);
      }
    } else {
      var file :| file in d && !InUnitRange((file, d[file]));
      DeltaRowsCoverTable(d);
      var i :| 0 <= i < |entries| && entries[i].0 == file;
      assert entries[i] == (file, d[file]);
    }
  }

  /** The table of a difference renders iff every entry's deltas are within the unit table's range. */
  lemma DeltaTableRenders(d: DeltaTable, fmt: real -> string)
    ensures RenderTable(DeltaRows(d), fmt).Success? <==>
              forall file :: file in d ==> InUnitRange((file, d[file]))
  {
    TableSucceeds(DeltaRows(d), fmt);
    DeltaRowsInUnitRange(d);
  }

  /** For a table holding the differences of the column sums, its entries are in range iff all deltas are. */
  lemma EntriesInRangeIffDeltas(d: DeltaTable, baselineRows: seq<SizeRow>, currentRows: seq<SizeRow>)
    requires IsDiffOf(d, baselineRows, currentRows)
    ensures (forall file :: file in d ==> InUnitRange((file, d[file]))) <==> DeltasInUnitRange(baselineRows, currentRows)
  {
    forall file | file in d
      ensures InUnitRange((file, d[file])) <==>
                Abs(Delta(baselineRows, currentRows, file, FileSize)) <= 1000000000000.0
                && Abs(Delta(baselineRows, currentRows, file, VmSize)) <= 1000000000000.0
    {
      assert d[file].Get(FileSize) == d[file].filesize;
      assert d[file].Get(VmSize) == d[file].vmsize;
    }
    forall file, m | file in d && Abs(Delta(baselineRows, currentRows, file, FileSize)) <= 1000000000000.0
                      && Abs(Delta(baselineRows, currentRows, file, VmSize)) <= 1000000000000.0
      ensures Abs(Delta(baselineRows, currentRows, file, m)) <= 1000000000000.0
    {
      match m
      case FileSize =>
      case VmSize =>
    }
  }

  /**
   * The report is produced iff every file present in both snapshots has both
   * deltas at most 10^12 in magnitude; otherwise the unit lookup raises.
   */
  lemma CompareReportsSucceeds(baselineRows: seq<SizeRow>, currentRows: seq<SizeRow>, fmt: real -> string)
    ensures CompareReports(baselineRows, currentRows, fmt).Success? <==> DeltasInUnitRange(baselineRows, currentRows)
  {
    var d := SizeDiff(baselineRows, currentRows);
    DeltaTableRenders(d, fmt);
    SizeDiffIsDiffOf(baselineRows, currentRows);
    EntriesInRangeIffDeltas(d, baselineRows, currentRows);
  }

  /** The shape of the table of a difference, in terms of the two snapshots. */
  lemma ShapeOfDiff(d: DeltaTable, baselineRows: seq<SizeRow>, currentRows: seq<SizeRow>, fmt: real -> string)
    requires IsDiffOf(d, baselineRows, currentRows)
    requires forall r :: r in currentRows ==> '\n' !in r.inputfiles
    requires forall x :: '\n' !in fmt(x)
    ensures RenderTable(DeltaRows(d), fmt).Success? ==>
              var lines := Split(RenderTable(DeltaRows(d), fmt).value, '\n');
              var names := SortedNames(Files(baselineRows) * Files(currentRows));
              && |lines| == 2 + |names|
              && lines[0] == TitleLine
              && lines[1] == AlignmentLine
              && forall i :: 0 <= i < |names| ==>
                   && CellOf(Delta(baselineRows, currentRows, names[i], FileSize)).Success?
                   && CellOf(Delta(baselineRows, currentRows, names[i], VmSize)).Success?
                   && lines[i + 2] == RowText(names[i],
                                              CellOf(Delta(baselineRows, currentRows, names[i], FileSize)).value,
                                              CellOf(Delta(baselineRows, currentRows, names[i], VmSize)).value, fmt)
  {
    var entries := DeltaRows(d);
    var names := SortedNames(Files(baselineRows) * Files(currentRows));
    EntriesOfDiff(d, baselineRows, currentRows);
    forall i | 0 <= i < |entries| ensures '\n' !in entries[i].0 {
      assert names[i] in Files(currentRows);
    }
    TableShape(entries, fmt);
  }

  /**
   * The report has two header lines and then, for each file present in both
   * snapshots and in ascending order of name, the line
   * `|<file>|<file size delta cell>|<vm size delta cell>|`; files present in
   * only one snapshot have no line.
   */
  lemma CompareReportsShape(baselineRows: seq<SizeRow>, currentRows: seq<SizeRow>, fmt: real -> string)
    requires forall r :: r in currentRows ==> '\n' !in r.inputfiles
    requires forall x :: '\n' !in fmt(x)
    ensures CompareReports(baselineRows, currentRows, fmt).Success? ==>
              var lines := Split(CompareReports(baselineRows, currentRows, fmt).value, '\n');
              var names := SortedNames(Files(baselineRows) * Files(currentRows));
              && |lines| == 2 + |names|
              && lines[0] == TitleLine
              && lines[1] == AlignmentLine
              && forall i :: 0 <= i < |names| ==>
                   && CellOf(Delta(baselineRows, currentRows, names[i], FileSize)).Success?
                   && CellOf(Delta(baselineRows, currentRows, names[i], VmSize)).Success?
                   && lines[i + 2] == RowText(names[i],
                                              CellOf(Delta(baselineRows, currentRows, names[i], FileSize)).value,
                                              CellOf(Delta(baselineRows, currentRows, names[i], VmSize)).value, fmt)
  {
    SizeDiffIsDiffOf(baselineRows, currentRows);
    ShapeOfDiff(SizeDiff(baselineRows, currentRows), baselineRows, currentRows, fmt);
  }

  /** When no file is in both snapshots the report is the bare header. */
  lemma NoSharedFilesGivesHeaderOnly(baselineRows: seq<SizeRow>, currentRows: seq<SizeRow>, fmt: real -> string)
    requires Files(baselineRows) * Files(currentRows) == {}
    ensures CompareReports(baselineRows, currentRows, fmt) == Success(TitleLine + "\n" + AlignmentLine)
  {
    SizeDiffSpec(baselineRows, currentRows);
    var d := SizeDiff(baselineRows, currentRows);
    assert d.Keys == {};
    var entries := DeltaRows(d);
    assert |entries| == 0;
    assert RenderRows(entries, fmt) == Success([]);
    assert [TitleLine, AlignmentLine] + [] == [TitleLine, AlignmentLine];
    assert Join([TitleLine, AlignmentLine], '\n') == TitleLine + "\n" + AlignmentLine;
  }

  /** A one-file difference table has the one entry. */
  lemma SingleFileDeltaRows(file: string, t: Totals)
    ensures DeltaRows(map[file := t]) == [(file, t)]
  {
    var entries := DeltaRows(map[file := t]);
    assert |entries| == 1 && entries[0].0 in map[file := t];
  }

  /** The table of a single entry is the header followed by that entry's row. */
  lemma SingleEntryTable(e: Entry, fmt: real -> string)
    requires RenderRow(e, fmt).Success?
    ensures RenderTable([e], fmt) == Success(Join([TitleLine, AlignmentLine, RenderRow(e, fmt).value], '\n'))
  {
    var entries := [e];
    assert entries[..0] == [] && entries[..1] == entries;
    CollectResultsStep(entries, 0, [], RowRenderer(fmt));
    assert [] + [RenderRow(e, fmt).value] == [RenderRow(e, fmt).value];
    assert [TitleLine, AlignmentLine] + [RenderRow(e, fmt).value] == [TitleLine, AlignmentLine, RenderRow(e, fmt).value];
  }

  /**
   * Baseline fileA (1000, 2000); current fileA (1500, 1800) and fileB (300, 300):
   * one row, for fileA, with a red "500 B" growth and a lime "200 B" shrinkage.
   */
  lemma SingleSharedFileReport(fmt: real -> string)
    ensures CompareReports([SizeRow("fileA", 1000, 2000)],
                           [SizeRow("fileA", 1500, 1800), SizeRow("fileB", 300, 300)], fmt)
            == Success(Join([TitleLine, AlignmentLine,
                             RowText("fileA", Cell(IncreasedColor, IncreasedSymbol, 500.0, "B"),
                                              Cell(DecreasedColor, DecreasedSymbol, 200.0, "B"), fmt)], '\n'))
  {
    AddedFileExcluded();
    SingleFileDeltaRows("fileA", Totals(500, -200));
    var e := ("fileA", Totals(500, -200));
    CellThreshold(500.0);
    CellThreshold(-200.0);
    assert RenderRow(e, fmt) == Success(RowText("fileA", Cell(IncreasedColor, IncreasedSymbol, 500.0, "B"),
                                                         Cell(DecreasedColor, DecreasedSymbol, 200.0, "B"), fmt));
    SingleEntryTable(e, fmt);
  }
}
