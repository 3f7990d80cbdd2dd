/** The text that `CSV::output` writes, as pure functions, together with a
    reader that undoes it whenever no heading or cell holds a comma or a
    newline. The writer is CSV-like but not RFC 4180: nothing
    is escaped, every field (heading or cell) is followed by a comma, and a
    row shorter than the header is written as it is. */
module CsvText {

  datatype Option<T> = None | Some(value: T)

  /** A table as the reader recovers it: the headings and the stored rows. */
  datatype Table = Table(columns: seq<string>, rows: seq<seq<string>>)

  /** Each piece followed by `sep`, all concatenated. A header or data line is
      its fields terminated by ','; the whole output is its lines terminated
      by '\n'. */
  function Terminated(xs: seq<string>, sep: char): string
  {
    if xs == [] then "" else xs[0] + [sep] + Terminated(xs[1..], sep)
  }

  /** Cuts `s` at every `sep`; the piece after the last `sep` is the final
      element (so a `sep`-terminated text ends in an empty piece). */
  function Split(s: string, sep: char): (r: seq<string>)
    ensures |r| >= 1
    ensures forall i :: 0 <= i < |r| ==> sep !in r[i]
    decreases |s|
  {
    if |s| == 0 then [""]
    else
      var rest := Split(s[1..], sep);
      if s[0] == sep then [""] + rest
      else [[s[0]] + rest[0]] + rest[1..]
  }

  /** A heading as written in the header line: between double quotes. */
  function Quote(name: string): string
  {
    "\"" + name + "\""
  }

  function HeaderFields(columns: seq<string>): seq<string>
  {
    seq(|columns|, i requires 0 <= i < |columns| => Quote(columns[i]))
  }

  /** The header line without its newline: `"name",` for each column. */
  function HeaderLine(columns: seq<string>): string
  {
    Terminated(HeaderFields(columns), ',')
  }

  /** A data line without its newline: each cell followed by ','. */
  function RowLine(row: seq<string>): string
  {
    Terminated(row, ',')
  }

  /** The lines of the output, header first, then the stored rows in order. */
  function Lines(columns: seq<string>, data: seq<seq<string>>): seq<string>
  {
    [HeaderLine(columns)] + seq(|data|, i requires 0 <= i < |data| => RowLine(data[i]))
  }

  /** The whole text written by `CSV::output`. */
  function Render(columns: seq<string>, data: seq<seq<string>>): string
  {
    Terminated(Lines(columns, data), '\n')
  }

  /** A field the writer can emit without ambiguity: no comma, no newline. */
  predicate Plain(s: string)
  {
    ',' !in s && '\n' !in s
  }

  predicate AllPlain(xs: seq<string>)
  {
    forall i :: 0 <= i < |xs| ==> Plain(xs[i])
  }

  /** No field holds a comma: all that reading back one line needs. */
  predicate NoCommas(xs: seq<string>)
  {
    forall i :: 0 <= i < |xs| ==> ',' !in xs[i]
  }

  predicate PlainTable(columns: seq<string>, data: seq<seq<string>>)
  {
    AllPlain(columns) && forall i :: 0 <= i < |data| ==> AllPlain(data[i])
  }

  /** No heading and no cell holds a newline (commas are allowed). */
  predicate NoNewlines(columns: seq<string>, data: seq<seq<string>>)
  {
    && (forall i :: 0 <= i < |columns| ==> '\n' !in columns[i])
    && (forall i, j :: 0 <= i < |data| && 0 <= j < |data[i]| ==> '\n' !in data[i][j])
  }

  // ---------------------------------------------------------------------
  // The reader: the partner of Render.

  /** The fields of one line: the pieces between commas, which must end in
      an empty piece after the last comma. */
  function Fields(line: string): Option<seq<string>>
  {
    var pieces := Split(line, ',');
    if pieces[|pieces| - 1] == "" then Some(pieces[..|pieces| - 1]) else None
  }

  function Unquoted(fields: seq<string>): Option<seq<string>>
  {
    if fields == [] then Some([])
    else
      var f := fields[0];
      if |f| >= 2 && f[0] == '"' && f[|f| - 1] == '"' then
        match Unquoted(fields[1..])
        case None => None
        case Some(rest) => Some([f[1..|f| - 1]] + rest)
      else None
  }

  function Rows(lines: seq<string>): Option<seq<seq<string>>>
  {
    if lines == [] then Some([])
    else
      match (Fields(lines[0]), Rows(lines[1..]))
      case (Some(row), Some(rest)) => Some([row] + rest)
      case _ => None
  }

  function Parse(text: string): Option<Table>
  {
    var lines := Split(text, '\n');
    if |lines| < 2 || lines[|lines| - 1] != "" then None
    else
      match (Fields(lines[0]), Rows(lines[1..|lines| - 1]))
      case (Some(fields), Some(rows)) =>
        (match Unquoted(fields)
         case Some(columns) => Some(Table(columns, rows))
         case None => None)
      case _ => None
  }

  // ---------------------------------------------------------------------
  // Lemmas.

  /** Appending one piece appends that piece and its terminator: the step
      the output loops take. */
  lemma {:induction false} TerminatedSnoc(xs: seq<string>, x: string, sep: char)
    ensures Terminated(xs + [x], sep) == Terminated(xs, sep) + x + [sep]
    decreases |xs|
  {
    if xs == [] {
      assert xs + [x] == [x];
      assert Terminated([x], sep) == x + [sep] + Terminated([], sep);
    } else {
      assert (xs + [x])[1..] == xs[1..] + [x];
      TerminatedSnoc(xs[1..], x, sep);
    }
  }

  /** A character other than the terminator occurs in the terminated text
      only if it occurs in a piece. */
  lemma {:induction false} TerminatedAvoids(xs: seq<string>, sep: char, c: char)
    requires c != sep
    requires forall i :: 0 <= i < |xs| ==> c !in xs[i]
    ensures c !in Terminated(xs, sep)
    decreases |xs|
  {
    if xs != [] {
      TerminatedAvoids(xs[1..], sep, c);
      assert Terminated(xs, sep) == xs[0] + [sep] + Terminated(xs[1..], sep);
    }
  }

  /** Cutting at the first separator gives back the piece before it. */
  lemma {:induction false} SplitAfterPiece(x: string, sep: char, t: string)
    requires sep !in x
    ensures Split(x + [sep] + t, sep) == [x] + Split(t, sep)
    decreases |x|
  {
    var s := x + [sep] + t;
    if x == [] {
      assert s[0] == sep && s[1..] == t;
    } else {
      assert s[0] == x[0] && s[0] != sep;
      assert s[1..] == x[1..] + [sep] + t;
      SplitAfterPiece(x[1..], sep, t);
      assert [s[0]] + x[1..] == x;
    }
  }

  /** Split undoes Terminated when no piece holds the separator. */
  lemma {:induction false} SplitTerminated(xs: seq<string>, sep: char)
    requires forall i :: 0 <= i < |xs| ==> sep !in xs[i]
    ensures Split(Terminated(xs, sep), sep) == xs + [""]
    decreases |xs|
  {
    if xs != [] {
      SplitTerminated(xs[1..], sep);
      SplitAfterPiece(xs[0], sep, Terminated(xs[1..], sep));
      assert [xs[0]] + (xs[1..] + [""]) == xs + [""];
    }
  }

  /** The fields of a data line are exactly its cells: no padding, no
      trailing field beyond the final comma. */
  lemma FieldsRowLine(row: seq<string>)
    requires NoCommas(row)
    ensures Fields(RowLine(row)) == Some(row)
  {
    SplitTerminated(row, ',');
    assert (row + [""])[..|row|] == row;
  }

  lemma {:induction false} UnquotedHeaderFields(columns: seq<string>)
    ensures Unquoted(HeaderFields(columns)) == Some(columns)
    decreases |columns|
  {
    if columns != [] {
      var f := HeaderFields(columns)[0];
      assert f == Quote(columns[0]);
      assert f[1..|f| - 1] == columns[0];
      assert HeaderFields(columns)[1..] == HeaderFields(columns[1..]);
      UnquotedHeaderFields(columns[1..]);
      assert [columns[0]] + columns[1..] == columns;
    }
  }

  lemma FieldsHeaderLine(columns: seq<string>)
    requires NoCommas(columns)
    ensures Fields(HeaderLine(columns)) == Some(HeaderFields(columns))
  {
    var fs := HeaderFields(columns);
    forall i | 0 <= i < |fs| ensures ',' !in fs[i] {
      assert fs[i] == Quote(columns[i]);
    }
    SplitTerminated(fs, ',');
    assert (fs + [""])[..|fs|] == fs;
  }

  lemma {:induction false} RowsRowLines(data: seq<seq<string>>)
    requires forall i :: 0 <= i < |data| ==> AllPlain(data[i])
    ensures Rows(seq(|data|, i requires 0 <= i < |data| => RowLine(data[i]))) == Some(data)
    decreases |data|
  {
    var lines := seq(|data|, i requires 0 <= i < |data| => RowLine(data[i]));
    if data != [] {
      FieldsRowLine(data[0]);
      assert lines[1..] == seq(|data[1..]|, i requires 0 <= i < |data[1..]| => RowLine(data[1..][i]));
      RowsRowLines(data[1..]);
      assert [data[0]] + data[1..] == data;
    }
  }

  /** No line of the output holds a newline when no heading or cell does. */
  lemma LinesHaveNoNewline(columns: seq<string>, data: seq<seq<string>>)
    requires NoNewlines(columns, data)
    ensures forall i :: 0 <= i < |Lines(columns, data)| ==> '\n' !in Lines(columns, data)[i]
  {
    var fs := HeaderFields(columns);
    forall i | 0 <= i < |fs| ensures '\n' !in fs[i] {
      assert fs[i] == Quote(columns[i]);
    }
    TerminatedAvoids(fs, ',', '\n');
    forall i | 0 <= i < |data| ensures '\n' !in RowLine(data[i]) {
      TerminatedAvoids(data[i], ',', '\n');
    }
  }

  /** The output consists of exactly 1 + |data| newline-terminated lines: the
      header line, then one line per stored row, in order. */
  lemma RenderLines(columns: seq<string>, data: seq<seq<string>>)
    requires NoNewlines(columns, data)
    ensures Split(Render(columns, data), '\n') == Lines(columns, data) + [""]
    ensures |Split(Render(columns, data), '\n')| == |data| + 2
  {
    LinesHaveNoNewline(columns, data);
    SplitTerminated(Lines(columns, data), '\n');
  }

  /** Round trip: reading back the output recovers the headings and every
      stored row with its own length. */
  lemma RenderParse(columns: seq<string>, data: seq<seq<string>>)
    requires PlainTable(columns, data)
    ensures Parse(Render(columns, data)) == Some(Table(columns, data))
  {
    var lines := Lines(columns, data);
    RenderLines(columns, data);
    var all := lines + [""];
    assert all[0] == HeaderLine(columns);
    assert all[1..|all| - 1] == seq(|data|, i requires 0 <= i < |data| => RowLine(data[i]));
    FieldsHeaderLine(columns);
    UnquotedHeaderFields(columns);
    RowsRowLines(data);
  }

  /** Without escaping, a cell holding a comma is written exactly as two
      cells would be, and reads back as two cells. */
  lemma CommaInCellSplitsIt(heading: string, x: string, y: string)
    requires Plain(heading) && Plain(x) && Plain(y)
    ensures Render([heading], [[x + "," + y]]) == Render([heading], [[x, y]])
    ensures Parse(Render([heading], [[x + "," + y]])) == Some(Table([heading], [[x, y]]))
  {
    var c := x + "," + y;
    TerminatedSnoc([], c, ',');
    assert [] + [c] == [c];
    TerminatedSnoc([], x, ',');
    assert [] + [x] == [x];
    TerminatedSnoc([x], y, ',');
    assert [x] + [y] == [x, y];
    assert RowLine([c]) == RowLine([x, y]);
    assert Lines([heading], [[c]]) == Lines([heading], [[x, y]]);
    RenderParse([heading], [[x, y]]);
  }
}
