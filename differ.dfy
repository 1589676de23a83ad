/**
 * The per-file difference of two aggregated reports: `new_df - old_df`
 * followed by `dropna`.
 */
module Differ {
  import opened Wrappers
  import opened SizeTable

  /** The difference of two reports: file name to (current - baseline) per metric. */
  type DeltaTable = map<string, Totals>

  /**
   * Label-aligned subtraction of two grouped tables: the result is indexed by
   * the union of their file names, and a file missing on either side gets
   * `None` (NaN) instead of a difference.
   */
  function Subtract(current: AggregatedTable, baseline: AggregatedTable): map<string, Option<Totals>>
  {
    map file | file in current.Keys + baseline.Keys ::
      if file in current && file in baseline
      then Some(Totals(current[file].filesize - baseline[file].filesize,
                       current[file].vmsize - baseline[file].vmsize))
      else None
  }

  /** `dropna`: keep the files whose difference is defined. */
  function DropMissing(aligned: map<string, Option<Totals>>): DeltaTable
  {
    map file | file in aligned && aligned[file].Some? :: aligned[file].value
  }

  /**
   * The size difference of two grouped tables, as the comparison computes it:
   * files present in only one table are dropped.
   */
  function Diff(baseline: AggregatedTable, current: AggregatedTable): (d: DeltaTable)
    ensures d.Keys == baseline.Keys * current.Keys
  {
    DropMissing(Subtract(current, baseline))
  }

  /** On the files both tables name, each metric of the difference is the current total minus the baseline total. */
  lemma DiffOnIntersection(baseline: AggregatedTable, current: AggregatedTable)
    ensures forall file, m :: file in Diff(baseline, current) ==>
              Diff(baseline, current)[file].Get(m) == current[file].Get(m) - baseline[file].Get(m)
  {
    var d := Diff(baseline, current);
    forall file, m | file in d
      ensures d[file].Get(m) == current[file].Get(m) - baseline[file].Get(m)
    {
      assert Subtract(current, baseline)[file].Some?;
    }
  }

  /**
   * Grouping both reports and taking their difference: a file has an entry iff
   * both reports have rows for it (added and removed files are dropped, not
   * compared against zero).
   */
  function SizeDiff(baselineRows: seq<SizeRow>, currentRows: seq<SizeRow>): (d: DeltaTable)
    ensures d.Keys == Files(baselineRows) * Files(currentRows)
  {
    Diff(Aggregate(baselineRows), Aggregate(currentRows))
  }

  /** The entry of each file holds the difference of the two reports' column sums for that file. */
  lemma SizeDiffSpec(baselineRows: seq<SizeRow>, currentRows: seq<SizeRow>)
    ensures forall file, m :: file in SizeDiff(baselineRows, currentRows) ==>
              SizeDiff(baselineRows, currentRows)[file].Get(m)
                == ColumnSum(currentRows, file, m) - ColumnSum(baselineRows, file, m)
  {
    var baseline, current := Aggregate(baselineRows), Aggregate(currentRows);
    DiffOnIntersection(baseline, current);
    forall file, m | file in SizeDiff(baselineRows, currentRows)
      ensures SizeDiff(baselineRows, currentRows)[file].Get(m)
                == ColumnSum(currentRows, file, m) - ColumnSum(baselineRows, file, m)
    {
      assert current[file].Get(m) == ColumnSum(currentRows, file, m) by {
        match m
        case FileSize =>
        case VmSize =>
      }
      assert baseline[file].Get(m) == ColumnSum(baselineRows, file, m) by {
        match m
        case FileSize =>
        case VmSize =>
      }
    }
  }

  /** The difference does not depend on the row order of either report. */
  lemma SizeDiffOrderIndependent(baselineRows: seq<SizeRow>, currentRows: seq<SizeRow>,
                                 baselineRows': seq<SizeRow>, currentRows': seq<SizeRow>)
    requires multiset(baselineRows) == multiset(baselineRows')
    requires multiset(currentRows) == multiset(currentRows')
    ensures SizeDiff(baselineRows, currentRows) == SizeDiff(baselineRows', currentRows')
  {
    AggregateOrderIndependent(baselineRows, baselineRows');
    AggregateOrderIndependent(currentRows, currentRows');
  }

  /**
   * A baseline with fileA (1000, 2000) and a current report with fileA
   * (1500, 1800) and fileB (300, 300): only fileA is compared.
   */
  lemma AddedFileExcluded()
    ensures SizeDiff([SizeRow("fileA", 1000, 2000)],
                     [SizeRow("fileA", 1500, 1800), SizeRow("fileB", 300, 300)])
            == map["fileA" := Totals(500, -200)]
  {
    var baselineRows := [SizeRow("fileA", 1000, 2000)];
    var currentRows := [SizeRow("fileA", 1500, 1800), SizeRow("fileB", 300, 300)];
    assert Files(baselineRows) == {"fileA"};
    assert Files(currentRows) == {"fileA", "fileB"};
    assert baselineRows[1..] == [] && currentRows[1..][1..] == [];
    assert ColumnSum(baselineRows, "fileA", FileSize) == 1000 && ColumnSum(baselineRows, "fileA", VmSize) == 2000;
    assert ColumnSum(currentRows, "fileA", FileSize) == 1500 && ColumnSum(currentRows, "fileA", VmSize) == 1800;
    SizeDiffSpec(baselineRows, currentRows);
    var d := SizeDiff(baselineRows, currentRows);
    assert d.Keys == {"fileA"};
    assert d["fileA"].Get(FileSize) == 500;
    assert d["fileA"].Get(VmSize) == -200;
  }
}
