/** The text of the CSV export: a fixed header line and one line per record,
    fields joined by commas and lines by newlines, with no quoting. */
module Csv {
  import opened Text
  import opened Opportunities

  const Header: seq<string> :=
    ["Title", "Description", "Consultant Email", "Start Date", "End Date", "Status"]

  /** The six fields of one record, in header order. */
  function Row(o: Opportunity): seq<string> {
    [o.title, o.description, o.consultantEmail, o.startDate.iso, o.endDate.iso, StatusName(o.status)]
  }

  /** The header row followed by one row per record, in input order. */
  function Rows(data: seq<Opportunity>): seq<seq<string>> {
    [Header] + seq(|data|, i requires 0 <= i < |data| => Row(data[i]))
  }

  function Lines(rows: seq<seq<string>>): seq<string> {
    seq(|rows|, i requires 0 <= i < |rows| => Join(rows[i], ','))
  }

  /** `csvRows.map(e => e.join(",")).join("\n")`. */
  function CsvText(data: seq<Opportunity>): string {
    Join(Lines(Rows(data)), '\n')
  }

  /** Reads CSV text back by splitting on newlines, then on commas. */
  function ParseCsv(text: string): seq<seq<string>> {
    var lines := Split(text, '\n');
    seq(|lines|, i requires 0 <= i < |lines| => Split(lines[i], ','))
  }

  /** No field of the record holds a comma or a newline. */
  predicate Plain(o: Opportunity) {
    forall f :: f in Row(o) ==> ',' !in f && '\n' !in f
  }

  /** A row of fields free of commas and newlines is one line free of
      newlines that splits back into the row. */
  lemma LineRoundTrip(row: seq<string>)
    requires |row| >= 1
    requires forall k :: 0 <= k < |row| ==> ',' !in row[k] && '\n' !in row[k]
    ensures '\n' !in Join(row, ',')
    ensures Split(Join(row, ','), ',') == row
  {
    JoinAvoids(row, ',', '\n');
    SplitJoin(row, ',');
  }

  /** Every row of a plain export has six fields free of commas and newlines. */
  lemma RowsArePlain(data: seq<Opportunity>, i: nat)
    requires forall j :: 0 <= j < |data| ==> Plain(data[j])
    requires i < |Rows(data)|
    ensures |Rows(data)[i]| == 6
    ensures forall k :: 0 <= k < |Rows(data)[i]| ==> ',' !in Rows(data)[i][k] && '\n' !in Rows(data)[i][k]
  {
    if i > 0 {
      var row := Rows(data)[i];
      assert row == Row(data[i - 1]);
      forall k | 0 <= k < |row| ensures ',' !in row[k] && '\n' !in row[k] {
        assert row[k] in Row(data[i - 1]);
      }
    }
  }

  /** When no field holds a comma or a newline, the export reads back as the
      header row followed by each record's six fields, in order. */
  lemma CsvRoundTrip(data: seq<Opportunity>)
    requires forall i :: 0 <= i < |data| ==> Plain(data[i])
    ensures ParseCsv(CsvText(data)) == Rows(data)
  {
    var rows := Rows(data);
    var lines := Lines(rows);
    forall i | 0 <= i < |rows|
      ensures '\n' !in lines[i]
      ensures Split(lines[i], ',') == rows[i]
    {
      RowsArePlain(data, i);
      LineRoundTrip(rows[i]);
    }
    SplitJoin(lines, '\n');
  }

  /** A comma inside a field is not escaped: a record whose title holds one
      comma exports as a line of seven fields. */
  lemma CommaInTitleAddsColumn(o: Opportunity, before: string, after: string)
    requires o.title == before + "," + after
    requires ',' !in before && ',' !in after
    requires forall f :: f in Row(o)[1..] ==> ',' !in f
    ensures |Split(Join(Row(o), ','), ',')| == 7
  {
    var rest := Row(o)[1..];
    var parts := [before, after] + rest;
    assert Join(Row(o), ',') == o.title + [','] + Join(rest, ',');
    assert parts[1..] == [after] + rest && parts[1..][1..] == rest;
    assert Join(parts, ',') == before + [','] + (after + [','] + Join(rest, ','));
    forall i | 0 <= i < |parts| ensures ',' !in parts[i] {
      if i >= 2 {
        assert parts[i] in Row(o)[1..];
      }
    }
    SplitJoin(parts, ',');
    assert Join(Row(o), ',') == Join(parts, ',');
    assert |parts| == 7;
  }
}
