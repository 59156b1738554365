/** CSV export of the ledger (src/App.tsx, exportToCSV): a header line, then one
    line per record in ledger order; fields are joined with ',' and lines with
    '\n', without the quoting of section 2 of RFC 4180. */
module CsvExport {
  import opened Seqs
  import opened DutyTypes

  /** The header cells: date, shift, class, task, supervisor, evaluation. */
  const HEADERS: seq<string> := ["Ngày", "Buổi", "Lớp", "Nhiệm vụ", "Giám sát", "Đánh giá"]

  /** The six exported cells of a record; the notes are not exported. */
  function RowFields(r: DutyRecord): (cells: seq<string>)
    ensures |cells| == |HEADERS|
  {
    [r.date, r.shift.Label(), r.className, r.mainTask, r.supervisor, r.evaluation.Label()]
  }

  /** The lines of the file: the header, then one line per record. */
  function CsvLines(records: seq<DutyRecord>): (lines: seq<string>)
    ensures |lines| == |records| + 1
    ensures lines[0] == Join(HEADERS, ',')
    ensures forall i :: 0 <= i < |records| ==> lines[i + 1] == Join(RowFields(records[i]), ',')
  {
    [Join(HEADERS, ',')] + seq(|records|, i requires 0 <= i < |records| => Join(RowFields(records[i]), ','))
  }

  /** The exported text. */
  function CsvText(records: seq<DutyRecord>): string
  {
    Join(CsvLines(records), '\n')
  }

  /** No exported cell of the record holds a comma or a line break. */
  predicate PlainCells(r: DutyRecord)
  {
    forall i :: 0 <= i < |RowFields(r)| ==> ',' !in RowFields(r)[i] && '\n' !in RowFields(r)[i]
  }

  /** Joining cells that hold no separator adds none but the ones between cells. */
  lemma {:induction false} JoinAvoids(xs: seq<string>, sep: char, c: char)
    requires c != sep
    requires forall i :: 0 <= i < |xs| ==> c !in xs[i]
    ensures c !in Join(xs, sep)
    decreases |xs|
  {
    if |xs| > 1 {
      JoinAvoids(xs[1..], sep, c);
    }
  }

  /** A record line whose cells are plain holds no line break and splits back into the cells. */
  lemma RowLineRoundTrip(r: DutyRecord)
    requires PlainCells(r)
    ensures '\n' !in Join(RowFields(r), ',')
    ensures Split(Join(RowFields(r), ','), ',') == RowFields(r)
  {
    JoinAvoids(RowFields(r), ',', '\n');
    SplitJoin(RowFields(r), ',');
  }

  /** The header line holds no line break and splits back into the header cells. */
  lemma HeaderLineRoundTrip()
    ensures '\n' !in Join(HEADERS, ',')
    ensures Split(Join(HEADERS, ','), ',') == HEADERS
  {
    assert forall i :: 0 <= i < |HEADERS| ==> ',' !in HEADERS[i] && '\n' !in HEADERS[i];
    JoinAvoids(HEADERS, ',', '\n');
    SplitJoin(HEADERS, ',');
  }

  /** When no cell holds ',' or '\\n', the text splits back into the header and
      the records' cells: one line per record after the header, six cells per line. */
  lemma CsvRoundTrip(records: seq<DutyRecord>)
    requires forall i :: 0 <= i < |records| ==> PlainCells(records[i])
    ensures |Split(CsvText(records), '\n')| == |records| + 1
    ensures Split(Split(CsvText(records), '\n')[0], ',') == HEADERS
    ensures forall i :: 0 <= i < |records| ==> Split(Split(CsvText(records), '\n')[i + 1], ',') == RowFields(records[i])
  {
    var lines := CsvLines(records);
    HeaderLineRoundTrip();
    forall i | 0 <= i < |records|
      ensures '\n' !in lines[i + 1]
      ensures Split(lines[i + 1], ',') == RowFields(records[i])
    {
      RowLineRoundTrip(records[i]);
    }
    forall i | 0 <= i < |lines| ensures '\n' !in lines[i] {
      if i > 0 {
        assert '\n' !in lines[(i - 1) + 1];
      }
    }
    SplitJoin(lines, '\n');
  }

  /** Cells are not quoted: a cell holding one comma makes the record's line read
      back as seven cells instead of six. */
  lemma CommaInCellSplitsTheLine(r: DutyRecord, k: nat, a: string, b: string)
    requires k < 6 && RowFields(r)[k] == a + [','] + b
    requires ',' !in a && ',' !in b
    requires forall i :: 0 <= i < 6 && i != k ==> ',' !in RowFields(r)[i]
    ensures |Split(Join(RowFields(r), ','), ',')| == 7
  {
    SeparatorInCellAddsCell(RowFields(r), k, a, b, ',');
  }
}
