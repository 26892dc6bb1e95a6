/** The CSV export of the maturity table: a fixed header line, then one line
    per row with the return, the payment, the method and the prediction
    separated by commas, all joined with newlines (no newline at the end).
    `show` renders a number as a template literal does; a JavaScript number
    never renders with a comma or a newline. */
module ExportCsv {
  import opened Wrappers
  import Text
  import Calculator
  import Seqs

  const Header: string := "Return (%),Payment ($),Method,Prediction"

  /** `show` renders numbers as JavaScript does: no commas, no line breaks. */
  ghost predicate PlainNumbers(show: real -> string) {
    forall x :: ',' !in show(x) && '\n' !in show(x)
  }

  /** The CSV line of one row: the return, the payment, the method and the
      prediction, unquoted and separated by commas. */
  function CsvLine(r: Calculator.Row, show: real -> string): string {
    show(r.ret) + [','] + show(r.payment) + [',']
    + Calculator.MethodText(r.methodUsed) + [','] + Calculator.PredictionText(r.prediction)
  }

  /** A row's line has exactly three commas besides any inside the two
      rendered numbers, because the labels carry none. */
  lemma LineCommaCount(r: Calculator.Row, show: real -> string)
    ensures Text.CountChar(CsvLine(r, show), ',')
            == Text.CountChar(show(r.ret), ',') + Text.CountChar(show(r.payment), ',') + 3
  {
    var a, b := show(r.ret), show(r.payment);
    var m, p := Calculator.MethodText(r.methodUsed), Calculator.PredictionText(r.prediction);
    LabelsPlain(r);
    assert CsvLine(r, show) == a + [','] + b + [','] + m + [','] + p;
    Text.CountCharAppend(a + [','] + b + [','] + m + [','], p, ',');
    Text.CountCharAppend(a + [','] + b + [','] + m, [','], ',');
    Text.CountCharAppend(a + [','] + b + [','], m, ',');
    Text.CountCharAppend(a + [','] + b, [','], ',');
    Text.CountCharAppend(a + [','], b, ',');
    Text.CountCharAppend(a, [','], ',');
  }

  /** The rows' lines, in the order of the rows. */
  function CsvLines(results: seq<Calculator.Row>, show: real -> string): seq<string> {
    seq(|results|, i requires 0 <= i < |results| => CsvLine(results[i], show))
  }

  /** The lines of the first `n` rows are the first `n` lines, and line `n`
      is row `n`'s. */
  lemma LinesPrefix(results: seq<Calculator.Row>, show: real -> string, n: nat)
    requires n < |results|
    ensures CsvLines(results, show)[..n] == CsvLines(results[..n], show)
    ensures CsvLines(results, show)[n] == CsvLine(results[n], show)
  {
  }

  /** The exported text: the header, then the rows' lines, newline-separated. */
  function Csv(results: seq<Calculator.Row>, show: real -> string): (csv: string)
    ensures |Header| <= |csv| && csv[..|Header|] == Header
  {
    var parts := [Header] + CsvLines(results, show);
    assert |parts| > 1 ==> Text.Join(parts, '\n') == Header + ['\n'] + Text.Join(parts[1..], '\n');
    Text.Join(parts, '\n')
  }

  // ---------------------------------------------------------------------------
  // Reading the export back
  // ---------------------------------------------------------------------------

  function MethodOf(t: string): Option<Calculator.Method> {
    if t == "Interest" then Some(Calculator.Interest)
    else if t == "Buffer" then Some(Calculator.Buffer)
    else None
  }

  function PredictionOf(t: string): Option<Calculator.Prediction> {
    if t == "Protected" then Some(Calculator.Protected)
    else if t == "At Risk " then Some(Calculator.AtRisk)
    else None
  }

  /** Read one CSV line back into a row, given a reader for numbers. */
  function ReadLine(line: string, read: string -> Option<real>): Option<Calculator.Row> {
    var fields := Text.Split(line, ',');
    if |fields| != 4 then None
    else
      match (read(fields[0]), read(fields[1]), MethodOf(fields[2]), PredictionOf(fields[3]))
      case (Some(ret), Some(payment), Some(m), Some(p)) => Some(Calculator.Row(ret, payment, m, p))
      case _ => None
  }

  /** Read every line back, failing if any line fails. */
  function ReadLines(lines: seq<string>, read: string -> Option<real>): Option<seq<Calculator.Row>>
    decreases |lines|
  {
    if |lines| == 0 then Some([])
    else
      match (ReadLines(lines[..|lines| - 1], read), ReadLine(lines[|lines| - 1], read))
      case (Some(rows), Some(row)) => Some(rows + [row])
      case _ => None
  }

  /** Read an exported text back: the header line, then one row per line. */
  function ReadCsv(csv: string, read: string -> Option<real>): Option<seq<Calculator.Row>> {
    var lines := Text.Split(csv, '\n');
    if lines[0] != Header then None else ReadLines(lines[1..], read)
  }

  // ---------------------------------------------------------------------------
  // Properties
  // ---------------------------------------------------------------------------

  /** With no results the export is the header alone. */
  lemma EmptyExport(show: real -> string)
    ensures Csv([], show) == Header
  {
    assert [Header] + CsvLines([], show) == [Header];
  }

  lemma LabelsPlain(r: Calculator.Row)
    ensures ',' !in Calculator.MethodText(r.methodUsed) && '\n' !in Calculator.MethodText(r.methodUsed)
    ensures ',' !in Calculator.PredictionText(r.prediction) && '\n' !in Calculator.PredictionText(r.prediction)
  {
  }

  /** A row's line splits on commas into its four fields. */
  lemma LineFields(r: Calculator.Row, show: real -> string)
    requires PlainNumbers(show)
    ensures Text.Split(CsvLine(r, show), ',')
            == [show(r.ret), show(r.payment),
                Calculator.MethodText(r.methodUsed), Calculator.PredictionText(r.prediction)]
  {
    LabelsPlain(r);
    var a, b := show(r.ret), show(r.payment);
    var m, p := Calculator.MethodText(r.methodUsed), Calculator.PredictionText(r.prediction);
    assert CsvLine(r, show) == Text.Join([a, b, m, p], ',') by {
      assert Text.Join([p], ',') == p;
      assert Text.Join([m, p], ',') == m + [','] + p;
      assert Text.Join([b, m, p], ',') == b + [','] + (m + [','] + p);
      assert Text.Join([a, b, m, p], ',') == a + [','] + (b + [','] + (m + [','] + p));
    }
    Text.SplitJoin([a, b, m, p], ',');
  }

  /** A row's line contains no line break, so it stays one line of the file. */
  lemma LineSingle(r: Calculator.Row, show: real -> string)
    requires PlainNumbers(show)
    ensures '\n' !in CsvLine(r, show)
  {
    LabelsPlain(r);
  }

  /** The header is one line. */
  lemma HeaderSingle()
    ensures '\n' !in Header
  {
  }

  /** The export splits on newlines into the header and one line per row. */
  lemma ExportLines(results: seq<Calculator.Row>, show: real -> string)
    requires PlainNumbers(show)
    ensures Text.Split(Csv(results, show), '\n') == [Header] + CsvLines(results, show)
  {
    var lines := CsvLines(results, show);
    var parts := [Header] + lines;
    HeaderSingle();
    forall k | 0 <= k < |parts|
      ensures '\n' !in parts[k]
    {
      if k == 0 {
        assert parts[k] == Header;
      } else {
        assert parts[k] == lines[k - 1];
        LineSingle(results[k - 1], show);
      }
    }
    Text.SplitJoin(parts, '\n');
  }

  /** `read` recovers the two numbers of row `r` from their rendering. */
  ghost predicate ReadsBack(r: Calculator.Row, show: real -> string, read: string -> Option<real>) {
    read(show(r.ret)) == Some(r.ret) && read(show(r.payment)) == Some(r.payment)
  }

  /** `read` recovers the numbers of every row from their rendering. */
  ghost predicate ReadsBackAll(results: seq<Calculator.Row>, show: real -> string, read: string -> Option<real>) {
    forall i :: 0 <= i < |results| ==> ReadsBack(results[i], show, read)
  }

  /** Each row is read back from its own line by a reader that recovers the
      row's two numbers from their rendering. */
  lemma LineRoundTrip(r: Calculator.Row, show: real -> string, read: string -> Option<real>)
    requires PlainNumbers(show)
    requires ReadsBack(r, show, read)
    ensures ReadLine(CsvLine(r, show), read) == Some(r)
  {
    LineFields(r, show);
  }

  lemma {:induction false} LinesRoundTrip(results: seq<Calculator.Row>, show: real -> string, read: string -> Option<real>)
    requires PlainNumbers(show)
    requires ReadsBackAll(results, show, read)
    ensures ReadLines(CsvLines(results, show), read) == Some(results)
    decreases |results|
  {
    if |results| > 0 {
      var n := |results| - 1;
      var lines := CsvLines(results, show);
      assert ReadsBackAll(results[..n], show, read) by {
        assert forall i :: 0 <= i < n ==> results[..n][i] == results[i];
      }
      LinesRoundTrip(results[..n], show, read);
      LinesPrefix(results, show, n);
      assert ReadLines(lines[..n], read) == Some(results[..n]);
      LineRoundTrip(results[n], show, read);
      assert ReadLine(lines[n], read) == Some(results[n]);
      Seqs.LastSplit(results);
    }
  }

  /** The export loses nothing: reading it back with a reader that recovers
      each exported number from its rendering gives exactly the rows that
      were exported, in order. */
  lemma ExportRoundTrip(results: seq<Calculator.Row>, show: real -> string, read: string -> Option<real>)
    requires PlainNumbers(show)
    requires ReadsBackAll(results, show, read)
    ensures ReadCsv(Csv(results, show), read) == Some(results)
  {
    ExportLines(results, show);
    var lines := Text.Split(Csv(results, show), '\n');
    assert lines[1..] == CsvLines(results, show);
    LinesRoundTrip(results, show, read);
  }

  /** A row's line has exactly three commas: numbers and labels carry none. */
  lemma LineCommas(r: Calculator.Row, show: real -> string)
    requires PlainNumbers(show)
    ensures Text.CountChar(CsvLine(r, show), ',') == 3
  {
    LineFields(r, show);
    Text.SplitCount(CsvLine(r, show), ',');
  }

  /** The export does not end with a line break. */
  lemma NoTrailingNewline(results: seq<Calculator.Row>, show: real -> string)
    ensures var csv := Csv(results, show); |csv| > 0 && csv[|csv| - 1] != '\n'
  {
    var parts := [Header] + CsvLines(results, show);
    var last := parts[|parts| - 1];
    if |results| > 0 {
      var r := results[|results| - 1];
      var p := Calculator.PredictionText(r.prediction);
      assert last == CsvLine(r, show);
      assert last[|last| - 1] == p[|p| - 1];
    }
    Text.JoinEnds(parts, '\n');
  }
}
