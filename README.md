# CSV table builder of OSVR-Core, in Dafny

This project models `osvr::util::CSV` (`inc/osvr/Util/CSV.h`), an in-memory
table that collects rows of named cells and writes them out as
comma-separated text.

- **Column registry.** `columns` lists the headings in the order they were
  first seen. `columnsMap` maps each heading to its index. Looking up an
  unseen heading appends it and gives it the next index. A heading seen
  before keeps its index forever.
- **Row in progress.** `latestRow` is cleared when a row starts. It is
  padded with empty strings so that it can hold a column's index, and each
  cell is written at its column's index.
- **Stored rows.** Finishing a row moves `latestRow` onto the end of `data`,
  leaving `latestRow` empty.
- **Row proxy.** `RowProxy` drives one row. Its first `Add` clears the row in
  progress (`preparedRow`). Its destructor stores the row if the proxy is
  still `active`. Moving a proxy deactivates the source, so the row is stored
  exactly once.
- **Output.** The header line is `"name",` for each column, then a newline.
  Then each stored row follows in insertion order, each cell followed by `,`,
  then a newline. Nothing is escaped, and rows shorter than the header are not
  padded. So the format is CSV-like but not the format of section 2 of
  RFC 4180.

Files:

- `csv.dfy` (module `Csv`): class `CSV` with the four fields above and its
  methods, and class `RowProxy` with the fields `csv`, `os`, `preparedRow`
  and `active`. The class invariant `CSV.Valid` says three things: the
  registry is consistent (`Indexed`), every stored row is at most
  `NumColumns()` wide, and so is the row in progress. `RowProxy.Valid` says
  the proxy's stream is empty until its first cell. So the cell written is
  exactly the formatted value.
- `rows.dfy` (module `CsvRows`): the registry invariant `Indexed` and the
  lookup step `Registered`, the row-growing functions `GrownToHold` and
  `WithCell`, and lemmas about them.
- `text.dfy` (module `CsvText`): the output text as a pure function
  `Render(columns, data)`. It also holds a reader, `Parse`, that undoes
  `Render` whenever no heading or cell holds a comma or a newline, and
  lemmas relating the two.

The output methods take the text written to the stream so far as a string,
and return it with the table appended.

## Model

| member | source | states |
|---|---|---|
| `Csv.CSV.constructor` | inc/osvr/Util/CSV.h:204-207 | a new table has no columns, no rows and an empty row in progress, and satisfies the invariant |
| `Csv.CSV.GetColumn` | inc/osvr/Util/CSV.h:138-151 | a known heading returns its stored index and leaves the registry unchanged; a new heading returns the old column count, is appended so that `columns[ret] == heading`, and the count grows by one; the invariant is kept |
| `Csv.CSV.Row` | inc/osvr/Util/CSV.h:156 | returns a fresh proxy bound to this table, active, not yet prepared, with an empty stream |
| `Csv.CSV.NumDataRows` | inc/osvr/Util/CSV.h:158 | the number of rows stored so far; when no heading or cell holds a newline, the output of `output` splits into exactly `1 + NumDataRows()` newline-terminated lines (the final empty piece after the last newline makes the count `1 + n + 1`) |
| `Csv.CSV.NumColumns` | inc/osvr/Util/CSV.h:160 | the number of columns equals the number of distinct headings in the map |
| `Csv.CSV.Output` | inc/osvr/Util/CSV.h:164 | appends exactly `Render(columns, data)` to the stream |
| `Csv.CSV.PrepareForRow` | inc/osvr/Util/CSV.h:167 | empties the row in progress and changes nothing else |
| `Csv.CSV.DataForLatestRow` | inc/osvr/Util/CSV.h:169-174 | registers the heading as `GetColumn` does, then the row in progress becomes `WithCell(old row, column, data)`; stored rows are unchanged and the invariant is kept |
| `Csv.CSV.FinalizeLatestRow` | inc/osvr/Util/CSV.h:175 | the row in progress becomes the last stored row, earlier rows are unchanged, the row count grows by one, and the row in progress is left empty |
| `Csv.CSV.EnsureLatestRowCanHoldColId` | inc/osvr/Util/CSV.h:177-181 | the row in progress becomes `GrownToHold(old row, id)`, so it can be indexed at `id`; nothing else changes |
| `Csv.CSV.OutputHeaders` | inc/osvr/Util/CSV.h:184-189 | appends `"name",` for each column in index order, then a newline |
| `Csv.CSV.OutputRow` | inc/osvr/Util/CSV.h:191-196 | appends each cell followed by `,`, then a newline |
| `Csv.CSV.OutputStoredData` | inc/osvr/Util/CSV.h:197-202 | appends the header line and then every stored row's line, in insertion order: exactly `Render(columns, data)` |
| `Csv.RowProxy.constructor` | inc/osvr/Util/CSV.h:83 | a new proxy is bound to the table, active, not prepared, with an empty stream |
| `Csv.RowProxy.Move` | inc/osvr/Util/CSV.h:89-93 | the new proxy takes the table and both flags, with a fresh stream; the source proxy becomes inactive and keeps its other fields |
| `Csv.RowProxy.Destroy` | inc/osvr/Util/CSV.h:95-99 | an active proxy stores the row in progress as the last row and leaves it empty; an inactive one changes nothing; the registry is unchanged either way |
| `Csv.RowProxy.Add` | inc/osvr/Util/CSV.h:105-109 | the stream holds exactly the cell's text; the row in progress is cleared only before the proxy's first cell, and then gets the cell at its heading's column; the registry grows as `GetColumn` says |
| `Csv.RowProxy.CommonPreAdd` | inc/osvr/Util/CSV.h:114-121 | the first call clears the row in progress and marks the proxy prepared; later calls only reset the stream; either way the stream is empty afterwards |
| `Csv.RowProxy.CommonPostAdd` | inc/osvr/Util/CSV.h:124-126 | stores the stream's text in the row in progress under the heading |
| `Csv.MovedProxyStoresOnce` | inc/osvr/Util/CSV.h:89-99 | a proxy given one cell, moved, and then both destroyed (the destination first, as C++ destroys locals in reverse order) stores exactly one row, holding that cell at its column; the registry changes only as one lookup of the heading does, and no row is left in progress |
| `Csv.EmptyProxyStoresEmptyRow` | inc/osvr/Util/CSV.h:95-99 | a proxy given no cells stores an empty row when no row was in progress; the registry is unchanged and no row is left in progress |
| `CsvRows.GrownToHold` | inc/osvr/Util/CSV.h:177-181 | the length becomes `max(old, id + 1)`, old cells are unchanged, and the added cells are empty strings |
| `CsvRows.WithCell` | inc/osvr/Util/CSV.h:169-174 | the length becomes `max(old, col + 1)`, the cell at `col` holds the data, other old cells are unchanged, and the added cells are empty |
| `CsvRows.IndexedDistinct` | inc/osvr/Util/CSV.h:204-205 | under the registry invariant, no heading appears twice in `columns` |
| `CsvRows.IndexedCardinality` | inc/osvr/Util/CSV.h:204-205 | under the registry invariant, the map's keys are exactly the headings in `columns`, and there are as many map entries as columns |
| `CsvRows.RegisteredKeepsIndices` | inc/osvr/Util/CSV.h:138-151 | a lookup keeps the registry invariant, only appends to `columns`, keeps every index handed out before, and maps a new heading to the old column count |
| `CsvRows.WithCellOverwrites` | inc/osvr/Util/CSV.h:173 | a heading written twice in one row keeps the value written last |
| `CsvRows.WithCellCommutes` | inc/osvr/Util/CSV.h:169-174 | cells for two different columns give the same row in either order |
| `CsvText.TerminatedSnoc` | inc/osvr/Util/CSV.h:185-186 | writing one more field appends that field and its terminator: the step each output loop takes |
| `CsvText.FieldsRowLine` | inc/osvr/Util/CSV.h:191-196 | a data line reads back as exactly its cells, with no padding, when no cell holds a comma |
| `CsvText.FieldsHeaderLine` | inc/osvr/Util/CSV.h:184-189 | the header line reads back as exactly the quoted headings, when no heading holds a comma |
| `CsvText.UnquotedHeaderFields` | inc/osvr/Util/CSV.h:186 | removing the quotes from the header fields gives back the headings |
| `CsvText.RenderLines` | inc/osvr/Util/CSV.h:197-202 | the output splits into exactly `1 + numDataRows()` newline-terminated lines, the header first and then each stored row in order, when no heading or cell holds a newline (commas are allowed) |
| `CsvText.RenderParse` | inc/osvr/Util/CSV.h:184-202 | reading the output back gives the headings and every stored row with its own length, when no heading or cell holds a comma or newline |
| `CsvText.CommaInCellSplitsIt` | inc/osvr/Util/CSV.h:193 | with no escaping, a cell holding a comma is written exactly like two cells, and reads back as two |

## Left out

- The `Cell` class (inc/osvr/Util/CSV.h:49-64), the `cell()` helpers and both `operator<<` overloads (inc/osvr/Util/CSV.h:210-236) are not modelled. They only pass a heading and a value to `RowProxy::add`. `Csv.RowProxy.Add` takes that pair directly.
- Formatting an arbitrary value `T` into the proxy's stream (inc/osvr/Util/CSV.h:107) is not modelled. `Add` takes the value already formatted as a string.
- `std::ostream` is modelled as the text written so far. Stream errors and flushing are not modelled.
- The private `latestRow()` accessor (inc/osvr/Util/CSV.h:182) is not modelled. The methods use the `latestRow` field directly.
- `column_id` is `std::size_t`. The model uses unbounded `nat`, so it does not model overflow of the column count. No reachable table has 2^64 columns.
- Hashing and the performance of `std::unordered_map` are not modelled. `columnsMap` is a Dafny `map`.
- Csv.RowProxy.Destroy: the language runs a destructor once per object. The model does not enforce this, so a caller could call `Destroy` twice. Inactive proxies, which is what moving produces, store nothing.
- The source warns that only one proxy per table should be alive at a time. The model does not enforce this. With two interleaved proxies, the second's first `Add` clears the first's cells, as in the source.
