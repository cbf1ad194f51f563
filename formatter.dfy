/**
 * The ETc report (formatter.py): a markdown grid with one row per field,
 * sorted by name, and one column per weather date, in the order given.
 * Python's `f"{v:.2f}"` is the parameter `fmt2`.
 */
module Formatter {
  import opened Seqs
  import opened Text
  import opened Models
  import opened Calculator
  import opened Sorting

  const NoFieldsMessage := "No fields available to display."
  const NoWeatherMessage := "No weather data available to display."
  /** What a cell shows when the results hold no value for its field and date. */
  const MissingValue := "N/A"

  /** Ascending by name; fields with equal names may come in any order. */
  predicate NameOrdered(fs: seq<Field>)
  {
    forall i, j | 0 <= i < j < |fs| :: !Less(fs[j].name, fs[i].name)
  }

  function NameOf(f: Field): string
  {
    f.name
  }

  /** `sorted(fields, key=lambda f: f.field_name)`: the same fields, ascending by name. */
  function SortByName(fs: seq<Field>): (r: seq<Field>)
    ensures NameOrdered(r)
    ensures multiset(r) == multiset(fs)
  {
    SortBy(fs, NameOf, false)
  }

  /** The header row: the dates as columns, in the order of the weather list. */
  function Header(dates: seq<string>): string
  {
    "| Field | " + Join(" | ", dates) + " |"
  }

  /** The separator row with `cells` cells, one for the name column and one per date. */
  function Separator(cells: nat): string
  {
    "|" + Join("|", seq(cells, _ => " --- ")) + "|"
  }

  /** The value shown for a field on a date: its 2-decimal rendering, or `N/A` when absent. */
  function Cell(results: EtcResults, name: string, date: string, fmt2: real -> string): string
  {
    if name in results && date in results[name] then fmt2(results[name][date]) else MissingValue
  }

  function Cells(results: EtcResults, name: string, dates: seq<string>, fmt2: real -> string): (r: seq<string>)
    ensures |r| == |dates|
    ensures forall k | 0 <= k < |dates| :: r[k] == Cell(results, name, dates[k], fmt2)
  {
    seq(|dates|, k requires 0 <= k < |dates| => Cell(results, name, dates[k], fmt2))
  }

  /** The data row of one field: its name, then one cell per date. */
  function RowLine(results: EtcResults, name: string, dates: seq<string>, fmt2: real -> string): string
  {
    "| " + Join(" | ", [name] + Cells(results, name, dates, fmt2)) + " |"
  }

  /** The data rows, one per field in name order. */
  function Rows(sorted: seq<Field>, dates: seq<string>, results: EtcResults, fmt2: real -> string): (r: seq<string>)
    ensures |r| == |sorted|
    ensures forall i | 0 <= i < |sorted| :: r[i] == RowLine(results, sorted[i].name, dates, fmt2)
  {
    seq(|sorted|, i requires 0 <= i < |sorted| => RowLine(results, sorted[i].name, dates, fmt2))
  }

  /** The lines of the grid before they are joined with newlines. */
  function TableLines(fields: seq<Field>, ws: seq<WeatherData>, results: EtcResults, fmt2: real -> string): seq<string>
  {
    [Header(Dates(ws)), Separator(|ws| + 1)] + Rows(SortByName(fields), Dates(ws), results, fmt2)
  }

  lemma SortedLength(fields: seq<Field>)
    ensures |SortByName(fields)| == |fields|
  {
    var sorted := SortByName(fields);
    assert |sorted| == |multiset(sorted)| == |multiset(fields)| == |fields|;
  }

  /**
   * The grid has a header, a separator and one row per field; the rows
   * follow the fields sorted by name, which are the given fields with the
   * same multiplicities.
   */
  lemma TableShape(fields: seq<Field>, ws: seq<WeatherData>, results: EtcResults, fmt2: real -> string)
    ensures var lines := TableLines(fields, ws, results, fmt2);
      && |lines| == 2 + |fields|
      && lines[0] == Header(Dates(ws))
      && lines[1] == Separator(|ws| + 1)
      && multiset(SortByName(fields)) == multiset(fields)
      && NameOrdered(SortByName(fields))
      && forall i | 0 <= i < |fields| :: lines[2 + i] == RowLine(results, SortByName(fields)[i].name, Dates(ws), fmt2)
  {
    var sorted := SortByName(fields);
    var rows := Rows(sorted, Dates(ws), results, fmt2);
    var lines := TableLines(fields, ws, results, fmt2);
    SortedLength(fields);
    assert lines == [Header(Dates(ws)), Separator(|ws| + 1)] + rows;
    forall i | 0 <= i < |fields| ensures lines[2 + i] == RowLine(results, sorted[i].name, Dates(ws), fmt2) {
      assert lines[2 + i] == rows[i];
    }
  }

  /** `n` separator cells written out: `|` followed by `n` copies of ` --- |`. */
  function SeparatorCells(n: nat): string
  {
    if n == 0 then "" else " --- |" + SeparatorCells(n - 1)
  }

  lemma {:induction false} DashesThenBar(n: nat)
    requires n >= 1
    ensures Join("|", seq(n, _ => " --- ")) + "|" == SeparatorCells(n)
  {
    var dashes := seq(n, _ => " --- ");
    if n > 1 {
      DashesThenBar(n - 1);
      assert dashes[1..] == seq(n - 1, _ => " --- ");
      var rest := Join("|", dashes[1..]);
      assert rest + "|" == SeparatorCells(n - 1);
      assert Join("|", dashes) == " --- " + "|" + rest;
      assert (" --- " + "|" + rest) + "|" == " --- |" + (rest + "|");
    }
  }

  /** The separator row holds exactly `cells` cells ` --- `. */
  lemma SeparatorHasCells(cells: nat)
    requires cells >= 1
    ensures Separator(cells) == "|" + SeparatorCells(cells)
  {
    DashesThenBar(cells);
    var j := Join("|", seq(cells, _ => " --- "));
    assert Separator(cells) == "|" + (j + "|");
  }

  lemma HeaderAvoids(dates: seq<string>, c: char)
    requires c !in " | " && c !in "| Field | "
    requires forall k | 0 <= k < |dates| :: c !in dates[k]
    ensures c !in Header(dates)
  {
    JoinAvoids(" | ", dates, c);
  }

  lemma SeparatorAvoids(cells: nat, c: char)
    requires c !in "|" && c !in " --- "
    ensures c !in Separator(cells)
  {
    JoinAvoids("|", seq(cells, _ => " --- "), c);
  }

  lemma RowLineAvoids(results: EtcResults, name: string, dates: seq<string>, fmt2: real -> string, c: char)
    requires c !in " | " && c !in "| " && c !in MissingValue
    requires c !in name
    requires forall v: real :: c !in fmt2(v)
    ensures c !in RowLine(results, name, dates, fmt2)
  {
    var parts := [name] + Cells(results, name, dates, fmt2);
    forall k | 0 <= k < |parts| ensures c !in parts[k] {
      if k > 0 {
        assert parts[k] == Cell(results, name, dates[k - 1], fmt2);
        if name in results && dates[k - 1] in results[name] {
          var v := results[name][dates[k - 1]];
          assert c !in fmt2(v);
        }
      }
    }
    JoinAvoids(" | ", parts, c);
  }

  /** Rows of fields whose names avoid `c`, rendered with a formatter that avoids `c`, avoid `c`. */
  lemma RowsAvoid(sorted: seq<Field>, dates: seq<string>, results: EtcResults, fmt2: real -> string, c: char)
    requires c !in " | " && c !in "| " && c !in MissingValue
    requires forall i | 0 <= i < |sorted| :: c !in sorted[i].name
    requires forall v: real :: c !in fmt2(v)
    ensures forall i | 0 <= i < |sorted| :: c !in Rows(sorted, dates, results, fmt2)[i]
  {
    forall i | 0 <= i < |sorted| ensures c !in Rows(sorted, dates, results, fmt2)[i] {
      RowLineAvoids(results, sorted[i].name, dates, fmt2, c);
    }
  }

  /** No line of the grid contains `c` when no name, date or rendered value does. */
  lemma TableLinesAvoid(fields: seq<Field>, ws: seq<WeatherData>, results: EtcResults, fmt2: real -> string, c: char)
    requires c !in " | " && c !in "| " && c !in "| Field | " && c !in "|" && c !in " --- " && c !in MissingValue
    requires forall f | f in fields :: c !in f.name
    requires forall w | w in ws :: c !in w.date
    requires forall v: real :: c !in fmt2(v)
    ensures forall k | 0 <= k < |TableLines(fields, ws, results, fmt2)| :: c !in TableLines(fields, ws, results, fmt2)[k]
  {
    var dates := Dates(ws);
    var sorted := SortByName(fields);
    var rows := Rows(sorted, dates, results, fmt2);
    forall k | 0 <= k < |dates| ensures c !in dates[k] {
      assert ws[k] in ws;
    }
    forall i | 0 <= i < |sorted| ensures c !in sorted[i].name {
      assert sorted[i] in multiset(fields);
    }
    HeaderAvoids(dates, c);
    SeparatorAvoids(|ws| + 1, c);
    RowsAvoid(sorted, dates, results, fmt2, c);
    assert TableLines(fields, ws, results, fmt2) == [Header(dates), Separator(|ws| + 1)] + rows;
  }

  /**
   * Splitting the rendered grid at newlines gives back its lines, so the
   * output has `2 + |fields|` lines, provided no name, date or rendered
   * value contains a newline.
   */
  lemma LinesRoundTrip(fields: seq<Field>, ws: seq<WeatherData>, results: EtcResults, fmt2: real -> string)
    requires forall f | f in fields :: '\n' !in f.name
    requires forall w | w in ws :: '\n' !in w.date
    requires forall v: real :: '\n' !in fmt2(v)
    ensures Split(Join("\n", TableLines(fields, ws, results, fmt2)), '\n') == TableLines(fields, ws, results, fmt2)
    ensures |Split(Join("\n", TableLines(fields, ws, results, fmt2)), '\n')| == 2 + |fields|
  {
    TableShape(fields, ws, results, fmt2);
    TableLinesAvoid(fields, ws, results, fmt2, '\n');
    SplitJoin(TableLines(fields, ws, results, fmt2), '\n');
  }

  /**
   * On the calculator's own results, with distinct names and dates, no cell
   * is `N/A`: each shows the rendering of its field's ETc on that day.
   */
  lemma CellsOfComputedTable(fields: seq<Field>, ws: seq<WeatherData>, fmt2: real -> string, i: nat, j: nat)
    requires i < |fields| && j < |ws|
    requires forall a, b | 0 <= a < b < |fields| :: fields[a].name != fields[b].name
    requires Distinct(Dates(ws))
    ensures Cells(EtcTable(fields, ws), fields[i].name, Dates(ws), fmt2)[j] == fmt2(CalculateEtc(fields[i], ws[j]))
  {
    EtcTableCell(fields, ws, i, j);
  }

  lemma SingleRowSorted(f: Field)
    ensures SortByName([f]) == [f]
  {
    assert [f][1..] == [];
  }

  lemma SingleCellLines(name: string, date: string, results: EtcResults, fmt2: real -> string)
    requires name in results && date in results[name]
    ensures Header([date]) == "| Field | " + date + " |"
    ensures Separator(2) == "| --- | --- |"
    ensures RowLine(results, name, [date], fmt2) == "| " + name + " | " + fmt2(results[name][date]) + " |"
  {
    assert seq(2, _ => " --- ") == [" --- ", " --- "];
    assert Join("|", [" --- ", " --- "]) == " --- " + "|" + Join("|", [" --- "]);
    var v := fmt2(results[name][date]);
    assert Cells(results, name, [date], fmt2) == [v];
    assert [name] + [v] == [name, v];
    assert Join(" | ", [name, v]) == name + " | " + Join(" | ", [v]);
  }

  /** One field and one day give a header, a separator and a single one-cell row. */
  lemma SingleCellTable(f: Field, w: WeatherData, results: EtcResults, fmt2: real -> string)
    requires f.name in results && w.date in results[f.name]
    ensures TableLines([f], [w], results, fmt2)
            == ["| Field | " + w.date + " |", "| --- | --- |", "| " + f.name + " | " + fmt2(results[f.name][w.date]) + " |"]
  {
    assert Dates([w]) == [w.date];
    SingleRowSorted(f);
    SingleCellLines(f.name, w.date, results, fmt2);
    assert Rows([f], [w.date], results, fmt2) == [RowLine(results, f.name, [w.date], fmt2)];
  }

  /** The calculator gives 4.0 for crop factor 0.8 on a day at ET0 5.0. */
  lemma SingleCellValue()
    ensures "DF1B" in EtcTable([Field("DF1B", 0.8, 1)], [WeatherData("2024-06-01", 5.0)])
    ensures "2024-06-01" in EtcTable([Field("DF1B", 0.8, 1)], [WeatherData("2024-06-01", 5.0)])["DF1B"]
    ensures EtcTable([Field("DF1B", 0.8, 1)], [WeatherData("2024-06-01", 5.0)])["DF1B"]["2024-06-01"] == 4.0
  {
    var fs := [Field("DF1B", 0.8, 1)];
    var ws := [WeatherData("2024-06-01", 5.0)];
    assert Dates(ws) == ["2024-06-01"];
    EtcTableCell(fs, ws, 0, 0);
  }

  /** One field at crop factor 0.8 and one day at ET0 5.0 render as a row showing 4.00. */
  lemma SingleCellExample(fmt2: real -> string)
    requires fmt2(4.0) == "4.00"
    ensures TableLines([Field("DF1B", 0.8, 1)], [WeatherData("2024-06-01", 5.0)],
                       EtcTable([Field("DF1B", 0.8, 1)], [WeatherData("2024-06-01", 5.0)]), fmt2)
            == ["| Field | 2024-06-01 |", "| --- | --- |", "| DF1B | 4.00 |"]
  {
    var f := Field("DF1B", 0.8, 1);
    var w := WeatherData("2024-06-01", 5.0);
    SingleCellValue();
    SingleCellTable(f, w, EtcTable([f], [w]), fmt2);
    assert "| Field | " + "2024-06-01" + " |" == "| Field | 2024-06-01 |";
    assert "| " + "DF1B" + " | " + "4.00" + " |" == "| DF1B | 4.00 |";
  }

  /** The inner loop of `format_etc_table`: the row of one field. */
  method RenderRow(results: EtcResults, name: string, dates: seq<string>, fmt2: real -> string) returns (row: string)
    ensures row == RowLine(results, name, dates, fmt2)
  {
    ghost var cells := Cells(results, name, dates, fmt2);
    var rowValues := [name];
    for j := 0 to |dates|
      invariant rowValues == [name] + cells[..j]
    {
      var date := dates[j];
      if name in results && date in results[name] {
        rowValues := rowValues + [fmt2(results[name][date])];
      } else {
        rowValues := rowValues + [MissingValue];
      }
      assert cells[..j + 1] == cells[..j] + [cells[j]];
    }
    assert cells[..|dates|] == cells;
    row := "| " + Join(" | ", rowValues) + " |";
  }

  /**
   * `format_etc_table`: the empty-fields message takes precedence over the
   * empty-weather one; otherwise the lines of the grid joined by newlines.
   */
  method FormatEtcTable(fields: seq<Field>, ws: seq<WeatherData>, results: EtcResults, fmt2: real -> string)
    returns (text: string)
    ensures fields == [] ==> text == NoFieldsMessage
    ensures fields != [] && ws == [] ==> text == NoWeatherMessage
    ensures fields != [] && ws != [] ==> text == Join("\n", TableLines(fields, ws, results, fmt2))
  {
    if |fields| == 0 {
      return NoFieldsMessage;
    }
    if |ws| == 0 {
      return NoWeatherMessage;
    }
    var sorted := SortByName(fields);
    var dates := Dates(ws);
    ghost var rows := Rows(sorted, dates, results, fmt2);
    var lines: seq<string> := [];
    lines := lines + ["| Field | " + Join(" | ", dates) + " |"];
    lines := lines + ["|" + Join("|", seq(|dates| + 1, _ => " --- ")) + "|"];
    ghost var top := lines;
    assert |dates| == |ws|;
    assert top == [Header(dates), Separator(|ws| + 1)];
    for i := 0 to |sorted|
      invariant lines == top + rows[..i]
    {
      var row := RenderRow(results, sorted[i].name, dates, fmt2);
      lines := lines + [row];
      assert rows[..i + 1] == rows[..i] + [rows[i]];
    }
    assert rows[..|sorted|] == rows;
    assert lines == TableLines(fields, ws, results, fmt2);
    text := Join("\n", lines);
  }
}
