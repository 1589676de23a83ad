/**
 * The rows of one size report and their per-file aggregation
 * (`groupby(['inputfiles']).agg({'filesize': 'sum', 'vmsize': 'sum'})`).
 */
module SizeTable {

  /** The two numeric columns the comparison reads from a report. */
  datatype Metric = FileSize | VmSize

  /** One row of a report: its `inputfiles`, `filesize` and `vmsize` columns. */
  datatype SizeRow = SizeRow(inputfiles: string, filesize: int, vmsize: int)
  {
    function Get(m: Metric): int
    {
      match m
      case FileSize => filesize
      case VmSize => vmsize
    }
  }

  /** The summed (or, after the diff, subtracted) metrics of one file. */
  datatype Totals = Totals(filesize: int, vmsize: int)
  {
    function Get(m: Metric): int
    {
      match m
      case FileSize => filesize
      case VmSize => vmsize
    }
  }

  /** One report after grouping: file name to the sums of its rows. */
  type AggregatedTable = map<string, Totals>

  /** The names of the files some row of `rows` belongs to. */
  function Files(rows: seq<SizeRow>): set<string>
  {
    set r | r in rows :: r.inputfiles
  }

  /** What row `r` contributes to the sum of column `m` for `file`. */
  function Share(r: SizeRow, file: string, m: Metric): int
  {
    if r.inputfiles == file then r.Get(m) else 0
  }

  /** The sum of column `m` over the rows of `rows` that belong to `file`. */
  function ColumnSum(rows: seq<SizeRow>, file: string, m: Metric): int
  {
    if rows == [] then 0 else Share(rows[0], file, m) + ColumnSum(rows[1..], file, m)
  }

  /**
   * Group the rows by file name, summing each metric: exactly the files that
   * occur in `rows` get an entry, and each entry holds the column sums over
   * that file's rows.
   */
  function Aggregate(rows: seq<SizeRow>): (t: AggregatedTable)
    ensures t.Keys == Files(rows)
    ensures forall file :: file in t ==>
              t[file] == Totals(ColumnSum(rows, file, FileSize), ColumnSum(rows, file, VmSize))
  {
    if rows == [] then map[]
    else
      var rest := Aggregate(rows[1..]);
      var r := rows[0];
      var before := if r.inputfiles in rest then rest[r.inputfiles] else Totals(0, 0);
      assert Files(rows) == {r.inputfiles} + Files(rows[1..]);
      ColumnSumAbsent(rows[1..], r.inputfiles);
      rest[r.inputfiles := Totals(before.filesize + r.filesize, before.vmsize + r.vmsize)]
  }

  /** A file that no row belongs to sums to zero. */
  lemma {:induction false} ColumnSumAbsent(rows: seq<SizeRow>, file: string)
    ensures file !in Files(rows) ==> ColumnSum(rows, file, FileSize) == 0 && ColumnSum(rows, file, VmSize) == 0
  {
    if rows != [] {
      assert Files(rows) == {rows[0].inputfiles} + Files(rows[1..]);
      ColumnSumAbsent(rows[1..], file);
    }
  }

  lemma {:induction false} ColumnSumAppend(a: seq<SizeRow>, b: seq<SizeRow>, file: string, m: Metric)
    ensures ColumnSum(a + b, file, m) == ColumnSum(a, file, m) + ColumnSum(b, file, m)
  {
    if a != [] {
      assert (a + b)[1..] == a[1..] + b;
      ColumnSumAppend(a[1..], b, file, m);
    } else {
      assert a + b == b;
    }
  }

  /** Taking row `j` out of `rows` removes one occurrence of it. */
  lemma MultisetRemoveAt(rows: seq<SizeRow>, j: nat)
    requires j < |rows|
    ensures multiset(rows[..j] + rows[j + 1..]) == multiset(rows) - multiset{rows[j]}
  {
    assert rows == rows[..j] + [rows[j]] + rows[j + 1..];
  }

  /** The sum over `rows` is row `j`'s share plus the sum over the other rows. */
  lemma ColumnSumRemoveAt(rows: seq<SizeRow>, j: nat, file: string, m: Metric)
    requires j < |rows|
    ensures ColumnSum(rows, file, m) == Share(rows[j], file, m) + ColumnSum(rows[..j] + rows[j + 1..], file, m)
  {
    assert ColumnSum([rows[j]], file, m) == Share(rows[j], file, m) by {
      assert [rows[j]][1..] == [];
    }
    assert rows == rows[..j] + [rows[j]] + rows[j + 1..];
    ColumnSumAppend(rows[..j] + [rows[j]], rows[j + 1..], file, m);
    ColumnSumAppend(rows[..j], [rows[j]], file, m);
    ColumnSumAppend(rows[..j], rows[j + 1..], file, m);
  }

  /** A column sum does not depend on the order of the rows. */
  lemma {:induction false} ColumnSumPermutation(a: seq<SizeRow>, b: seq<SizeRow>, file: string, m: Metric)
    requires multiset(a) == multiset(b)
    ensures ColumnSum(a, file, m) == ColumnSum(b, file, m)
    decreases |a|
  {
    if a == [] {
      assert |b| == |multiset(b)| == 0;
    } else {
      var x := a[0];
      assert x in multiset(b);
      var j :| 0 <= j < |b| && b[j] == x;
      var rest := b[..j] + b[j + 1..];
      MultisetRemoveAt(b, j);
      assert multiset(a[1..]) == multiset(a) - multiset{x} by {
        assert a == [x] + a[1..];
      }
      ColumnSumPermutation(a[1..], rest, file, m);
      ColumnSumRemoveAt(b, j, file, m);
    }
  }

  /** Grouping gives the same table whatever the order of the report's rows. */
  lemma AggregateOrderIndependent(a: seq<SizeRow>, b: seq<SizeRow>)
    requires multiset(a) == multiset(b)
    ensures Aggregate(a) == Aggregate(b)
  {
    assert forall r :: r in a <==> r in b by {
      forall r ensures r in a <==> r in b {
        assert r in a <==> r in multiset(a);
        assert r in b <==> r in multiset(b);
      }
    }
    var ta, tb := Aggregate(a), Aggregate(b);
    assert ta.Keys == tb.Keys;
    forall file | file in ta ensures ta[file] == tb[file] {
      ColumnSumPermutation(a, b, file, FileSize);
      ColumnSumPermutation(a, b, file, VmSize);
    }
  }
}
