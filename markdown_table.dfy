/**
 * The markdown report: a fixed two-line header, then one
 * `|<file>|<file size cell>|<vm size cell>|` row per entry of the difference
 * table, joined with newlines.
 */
module MarkdownTable {
  import opened Wrappers
  import opened SizeTable
  import opened CellFormat
  import opened TextLines

  /** The two header lines, written one column at a time. */
  const TitleLine := "| Filename " + "| File Size Delta " + "| VM Size Delta |"
  const AlignmentLine := "| -:       " + "| -:              " + "| -:            |"

  /** One row of the difference table: a file name and its two deltas. */
  type Entry = (string, Totals)

  /**
   * The text of a cell, `$\color{<color>}{\textsf{<magnitude> <unit> <symbol>}}$`;
   * `fmt` is the two-decimal conversion of the magnitude.
   */
  function CellText(c: Cell, fmt: real -> string): string
  {
    "$\\color{" + c.color + "}{\\textsf{" + fmt(c.magnitude) + " " + c.unit + " " + c.symbol + "}}$"
  }

  function RowText(name: string, filesize: Cell, vmsize: Cell, fmt: real -> string): string
  {
    "|" + name + "|" + CellText(filesize, fmt) + "|" + CellText(vmsize, fmt) + "|"
  }

  /**
   * The row of one entry; the file size cell is formatted first, so its error
   * wins. A row renders iff both deltas are at most 10^12 in magnitude, and
   * otherwise raises KeyError(4).
   */
  function RenderRow(e: Entry, fmt: real -> string): (r: Result<string, LookupError>)
    ensures r.Success? <==> InUnitRange(e)
    ensures r.Failure? ==> r.error == KeyError(MaxPower)
  {
    match CellOf(e.1.filesize as real)
    case Failure(err) => Failure(err)
    case Success(filesize) =>
      match CellOf(e.1.vmsize as real)
      case Failure(err) => Failure(err)
      case Success(vmsize) => Success(RowText(e.0, filesize, vmsize, fmt))
  }

  /** The row renderer for one choice of number formatting. */
  function RowRenderer(fmt: real -> string): Entry -> Result<string, LookupError>
  {
    e => RenderRow(e, fmt)
  }

  /** The rows of all entries in order, or the error of the first row that raises. */
  function RenderRows(entries: seq<Entry>, fmt: real -> string): Result<seq<string>, LookupError>
  {
    CollectResults(entries, RowRenderer(fmt))
  }

  /** The report text: header and rows joined with newlines; the only error it raises is KeyError(4). */
  function RenderTable(entries: seq<Entry>, fmt: real -> string): (r: Result<string, LookupError>)
    ensures r.Failure? ==> r.error == KeyError(MaxPower)
  {
    match RenderRows(entries, fmt)
    case Failure(err) =>
      CollectResultsFailureWitness(entries, RowRenderer(fmt));
      Failure(err)
    case Success(rows) => Success(Join([TitleLine, AlignmentLine] + rows, '\n'))
  }

  /** Both cells of an entry are within the unit table's range. */
  predicate InUnitRange(e: Entry)
  {
    Abs(e.1.filesize as real) <= 1000000000000.0 && Abs(e.1.vmsize as real) <= 1000000000000.0
  }

  /**
   * The rows render iff every entry's row does, and then there is one row per
   * entry, in the entries' order.
   */
  lemma RenderRowsSpec(entries: seq<Entry>, fmt: real -> string)
    ensures RenderRows(entries, fmt).Success? <==>
              forall i :: 0 <= i < |entries| ==> RenderRow(entries[i], fmt).Success?
    ensures RenderRows(entries, fmt).Success? ==>
              && |RenderRows(entries, fmt).value| == |entries|
              && forall i :: 0 <= i < |entries| ==> RenderRow(entries[i], fmt) == Success(RenderRows(entries, fmt).value[i])
  {
    CollectResultsSpec(entries, RowRenderer(fmt));
  }

  /** The report is produced iff every delta is within the unit table's range. */
  lemma TableSucceeds(entries: seq<Entry>, fmt: real -> string)
    ensures RenderTable(entries, fmt).Success? <==> forall i :: 0 <= i < |entries| ==> InUnitRange(entries[i])
  {
    RenderRowsSpec(entries, fmt);
  }

  lemma HeaderSingleLine()
    ensures '\n' !in TitleLine && '\n' !in AlignmentLine
  {
    assert '\n' !in "| Filename ";
    assert '\n' !in "| File Size Delta ";
    assert '\n' !in "| VM Size Delta |";
    assert '\n' !in "| -:       ";
    assert '\n' !in "| -:              ";
    assert '\n' !in "| -:            |";
  }

  /** A rendered cell is a single line when the magnitude's conversion is. */
  lemma CellTextSingleLine(delta: real, fmt: real -> string)
    requires forall x :: '\n' !in fmt(x)
    ensures CellOf(delta).Success? ==> '\n' !in CellText(CellOf(delta).value, fmt)
  {
    if CellOf(delta).Success? {
      var c := CellOf(delta).value;
      assert c.color in {IncreasedColor, DecreasedColor, UnchangedColor};
      assert c.symbol in {IncreasedSymbol, DecreasedSymbol, UnchangedSymbol};
      assert c.unit in Units.Values;
      assert '\n' !in c.color && '\n' !in c.symbol && '\n' !in c.unit;
      assert '\n' !in fmt(c.magnitude);
    }
  }

  /**
   * With no newline in a file name or in a formatted magnitude, the report has
   * exactly 2 + n lines: the two header lines, then line i + 2 is the row of
   * entry i, `|<name>|<file size cell>|<vm size cell>|`.
   */
  lemma TableShape(entries: seq<Entry>, fmt: real -> string)
    requires forall i :: 0 <= i < |entries| ==> '\n' !in entries[i].0
    requires forall x :: '\n' !in fmt(x)
    ensures RenderTable(entries, fmt).Success? ==>
              var lines := Split(RenderTable(entries, fmt).value, '\n');
              && |lines| == 2 + |entries|
              && lines[0] == TitleLine
              && lines[1] == AlignmentLine
              && forall i :: 0 <= i < |entries| ==>
                   && CellOf(entries[i].1.filesize as real).Success?
                   && CellOf(entries[i].1.vmsize as real).Success?
                   && lines[i + 2] == RowText(entries[i].0, CellOf(entries[i].1.filesize as real).value,
                                              CellOf(entries[i].1.vmsize as real).value, fmt)
  {
    RenderRowsSpec(entries, fmt);
    if RenderRows(entries, fmt).Success? {
      var rows := RenderRows(entries, fmt).value;
      var lines := [TitleLine, AlignmentLine] + rows;
      forall i | 0 <= i < |lines| ensures '\n' !in lines[i] {
        if i >= 2 {
          var e := entries[i - 2];
          assert RenderRow(e, fmt) == Success(rows[i - 2]);
          var fs, vm := CellOf(e.1.filesize as real).value, CellOf(e.1.vmsize as real).value;
          CellTextSingleLine(e.1.filesize as real, fmt);
          CellTextSingleLine(e.1.vmsize as real, fmt);
          assert rows[i - 2] == RowText(e.0, fs, vm, fmt);
          assert '\n' !in e.0;
          assert '\n' !in RowText(e.0, fs, vm, fmt);
          assert lines[i] == rows[i - 2];
        } else {
          HeaderSingleLine();
        }
      }
      SplitJoin(lines, '\n');
    }
  }

  /**
   * One more entry extends the rendered rows by its row; if its row raises,
   * so does the whole table, with the same error.
   */
  lemma RenderRowsExtend(entries: seq<Entry>, i: nat, rows: seq<string>, fmt: real -> string)
    requires i < |entries|
    requires RenderRows(entries[..i], fmt) == Success(rows)
    ensures RenderRow(entries[i], fmt).Failure? ==>
              RenderTable(entries, fmt) == Failure(RenderRow(entries[i], fmt).error)
    ensures RenderRow(entries[i], fmt).Success? ==>
              RenderRows(entries[..i + 1], fmt) == Success(rows + [RenderRow(entries[i], fmt).value])
  {
    CollectResultsStep(entries, i, rows, RowRenderer(fmt));
    if RenderRow(entries[i], fmt).Failure? {
      CollectResultsFailureSticks(entries, i + 1, RowRenderer(fmt));
    }
  }

  /** Format the two cells of one entry and assemble its row (the body of the writer's loop). */
  method FormatRow(e: Entry, fmt: real -> string) returns (r: Result<string, LookupError>)
    ensures r == RenderRow(e, fmt)
  {
    var (filename, row) := e;
    var colFilesize := FormatCell(row.filesize as real);
    if colFilesize.Failure? {
      return Failure(colFilesize.error);
    }
    var colVmsize := FormatCell(row.vmsize as real);
    if colVmsize.Failure? {
      return Failure(colVmsize.error);
    }
    r := Success(RowText(filename, colFilesize.value, colVmsize.value, fmt));
  }

  /** Build the table line by line, as the report writer's loop does, then join it. */
  method FormatTable(entries: seq<Entry>, fmt: real -> string) returns (r: Result<string, LookupError>)
    ensures r == RenderTable(entries, fmt)
  {
    var tableData := [TitleLine, AlignmentLine];
    var i := 0;
    assert entries[..0] == [];
    assert RenderRows([], fmt) == Success([]);
    assert tableData[2..] == [];
    while i < |entries|
      invariant i <= |entries|
      invariant |tableData| >= 2 && tableData[..2] == [TitleLine, AlignmentLine]
      invariant RenderRows(entries[..i], fmt) == Success(tableData[2..])
    {
      RenderRowsExtend(entries, i, tableData[2..], fmt);
      var line := FormatRow(entries[i], fmt);
      if line.Failure? {
        return Failure(line.error);
      }
      assert (tableData + [line.value])[2..] == tableData[2..] + [line.value];
      tableData := tableData + [line.value];
      i := i + 1;
    }
    assert entries[..i] == entries;
    assert tableData == [TitleLine, AlignmentLine] + tableData[2..];
    r := Success(Join(tableData, '\n'));
  }
}
