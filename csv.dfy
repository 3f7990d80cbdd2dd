/** The in-memory CSV table of `osvr::util::CSV`: a registry of column
    headings, the row being filled in, the stored rows, and the proxy object
    through which one row is filled in and then stored. */
module Csv {
  import opened CsvText
  import opened CsvRows

  class CSV {
    /** `columns_`: headings in the order they were first seen. */
    var columns: seq<string>
    /** `columnsMap_`: heading to its index in `columns`. */
    var columnsMap: map<string, nat>
    /** `data_`: the stored rows, oldest first. */
    var data: seq<seq<string>>
    /** `latestRow_`: the row in progress. */
    var latestRow: seq<string>

    ghost predicate Valid()
      reads this
    {
      && Indexed(columns, columnsMap)
      && RowsFit(data, |columns|)
      && |latestRow| <= |columns|
    }

    constructor ()
      ensures Valid()
      ensures columns == [] && columnsMap == map[] && data == [] && latestRow == []
    {
      columns, columnsMap, data, latestRow := [], map[], [], [];
    }

    /** The index of `heading`, registering it first when it is new. */
    method GetColumn(heading: string) returns (ret: nat)
      requires Valid()
      modifies this
      ensures Valid()
      ensures Registered(old(columns), old(columnsMap), heading, columns, columnsMap)
      ensures heading in old(columnsMap) ==> ret == old(columnsMap[heading])
      ensures heading !in old(columnsMap) ==> ret == old(|columns|) && |columns| == old(|columns|) + 1
      ensures ret < |columns| && columns[ret] == heading && columnsMap[heading] == ret
      ensures data == old(data) && latestRow == old(latestRow)
    {
      ret := |columns|;
      if heading in columnsMap {
        ret := columnsMap[heading];
        return;
      }
      columns := columns + [heading];
      columnsMap := columnsMap[heading := ret];
      RegisteredKeepsIndices(old(columns), old(columnsMap), heading, columns, columnsMap);
    }

    /** Starts filling in a new row: a proxy bound to this table. */
    method Row() returns (proxy: RowProxy)
      ensures fresh(proxy)
      ensures proxy.csv == this && proxy.active && !proxy.preparedRow && proxy.os == ""
    {
      proxy := new RowProxy(this);
    }

    /** The number of stored rows; the output has one line per stored row
        after its header line. */
    function NumDataRows(): (n: nat)
      reads this
      ensures n == |data|
      ensures NoNewlines(columns, data) ==> |Split(Render(columns, data), '\n')| == 1 + n + 1
    {
      if NoNewlines(columns, data) then RenderLines(columns, data); |data| else |data|
    }

    /** The number of columns, which is also the number of distinct headings
        registered. */
    function NumColumns(): (n: nat)
      reads this
      requires Valid()
      ensures n == |columnsMap|
    {
      IndexedCardinality(columns, columnsMap);
      |columns|
    }

    /** Writes the table to the stream whose text so far is `os`. */
    method Output(os: string) returns (out: string)
      ensures out == os + Render(columns, data)
    {
      out := OutputStoredData(os);
    }

    method PrepareForRow()
      modifies this
      ensures latestRow == []
      ensures columns == old(columns) && columnsMap == old(columnsMap) && data == old(data)
      ensures old(Valid()) ==> Valid()
    {
      latestRow := [];
    }

    /** Stores `d` in the row in progress, under the column of `heading`. */
    method DataForLatestRow(heading: string, d: string)
      requires Valid()
      modifies this
      ensures Valid()
      ensures Registered(old(columns), old(columnsMap), heading, columns, columnsMap)
      ensures heading in columnsMap
      ensures latestRow == WithCell(old(latestRow), columnsMap[heading], d)
      ensures data == old(data)
    {
      var col := GetColumn(heading);
      EnsureLatestRowCanHoldColId(col);
      latestRow := latestRow[col := d];
    }

    /** Moves the row in progress to the end of the stored rows; the vector
        it was moved from is left empty. */
    method FinalizeLatestRow()
      requires Valid()
      modifies this
      ensures Valid()
      ensures data == old(data) + [old(latestRow)] && latestRow == []
      ensures NumDataRows() == old(NumDataRows()) + 1
      ensures columns == old(columns) && columnsMap == old(columnsMap)
    {
      data := data + [latestRow];
      latestRow := [];
    }

    method EnsureLatestRowCanHoldColId(id: nat)
      modifies this
      ensures latestRow == GrownToHold(old(latestRow), id)
      ensures id < |latestRow|
      ensures columns == old(columns) && columnsMap == old(columnsMap) && data == old(data)
    {
      if id >= |latestRow| {
        latestRow := latestRow + seq(id + 1 - |latestRow|, _ => "");
      }
    }

    /** Writes `"name",` for each heading in index order, then a newline. */
    method OutputHeaders(os: string) returns (out: string)
      ensures out == os + HeaderLine(columns) + "\n"
    {
      out := os;
      for i := 0 to |columns|
        invariant out == os + Terminated(HeaderFields(columns[..i]), ',')
      {
        out := out + "\"" + columns[i] + "\",";
        assert HeaderFields(columns[..i + 1]) == HeaderFields(columns[..i]) + [Quote(columns[i])];
        TerminatedSnoc(HeaderFields(columns[..i]), Quote(columns[i]), ',');
      }
      assert columns[..|columns|] == columns;
      out := out + "\n";
    }

    /** Writes each cell followed by a comma, then a newline. */
    method OutputRow(os: string, row: seq<string>) returns (out: string)
      ensures out == os + RowLine(row) + "\n"
    {
      out := os;
      for i := 0 to |row|
        invariant out == os + Terminated(row[..i], ',')
      {
        out := out + row[i] + ",";
        assert row[..i + 1] == row[..i] + [row[i]];
        TerminatedSnoc(row[..i], row[i], ',');
      }
      assert row[..|row|] == row;
      out := out + "\n";
    }

    /** Writes the header line, then every stored row in insertion order. */
    method OutputStoredData(os: string) returns (out: string)
      ensures out == os + Render(columns, data)
    {
      out := OutputHeaders(os);
      assert Terminated(Lines(columns, data[..0]), '\n') == HeaderLine(columns) + "\n" by {
        assert Lines(columns, data[..0]) == [HeaderLine(columns)];
      }
      for i := 0 to |data|
        invariant out == os + Terminated(Lines(columns, data[..i]), '\n')
      {
        out := OutputRow(out, data[i]);
        assert Lines(columns, data[..i + 1]) == Lines(columns, data[..i]) + [RowLine(data[i])];
        TerminatedSnoc(Lines(columns, data[..i]), RowLine(data[i]), '\n');
      }
      assert data[..|data|] == data;
    }
  }

  /** Fills in one row of a `CSV`. Each `Add` stores one cell; the
      destructor stores the row, unless the proxy was moved from. */
  class RowProxy {
    /** `csv_`: the table this proxy fills in. */
    const csv: CSV
    /** `os_`: the stream the current cell's value is formatted into. */
    var os: string
    /** `preparedRow_`: the row in progress has been cleared for this proxy. */
    var preparedRow: bool
    /** `active_`: this proxy still owns the row and stores it when destroyed. */
    var active: bool

    /** Before the first cell the stream is still empty. */
    ghost predicate Valid()
      reads this
    {
      !preparedRow ==> os == ""
    }

    constructor (csv: CSV)
      ensures this.csv == csv && os == "" && !preparedRow && active
    {
      this.csv := csv;
      os, preparedRow, active := "", false, true;
    }

    /** The move constructor: takes over `other`'s table and flags, starts
        with a fresh stream, and deactivates `other`. */
    constructor Move(other: RowProxy)
      modifies other
      ensures csv == other.csv && os == ""
      ensures preparedRow == old(other.preparedRow) && active == old(other.active)
      ensures !other.active && other.preparedRow == old(other.preparedRow) && other.os == old(other.os)
    {
      csv := other.csv;
      os, preparedRow, active := "", other.preparedRow, other.active;
      new;
      other.active := false;
    }

    /** The destructor: stores the row in progress when still active. */
    method Destroy()
      requires csv.Valid()
      modifies csv
      ensures csv.Valid()
      ensures active ==> csv.data == old(csv.data) + [old(csv.latestRow)] && csv.latestRow == []
      ensures !active ==> csv.data == old(csv.data) && csv.latestRow == old(csv.latestRow)
      ensures csv.columns == old(csv.columns) && csv.columnsMap == old(csv.columnsMap)
    {
      if active {
        csv.FinalizeLatestRow();
      }
    }

    /** Adds the cell `text` (a value already formatted as text) under
        `header`. The first cell of a proxy clears the row in progress; later
        cells accumulate in it. */
    method Add(header: string, text: string)
      requires Valid() && csv.Valid()
      modifies this, csv
      ensures Valid() && csv.Valid()
      ensures preparedRow && active == old(active) && os == text
      ensures Registered(old(csv.columns), old(csv.columnsMap), header, csv.columns, csv.columnsMap)
      ensures header in csv.columnsMap
      ensures csv.latestRow == WithCell(if old(preparedRow) then old(csv.latestRow) else [], csv.columnsMap[header], text)
      ensures csv.data == old(csv.data)
    {
      CommonPreAdd();
      os := os + text;
      CommonPostAdd(header);
    }

    method CommonPreAdd()
      requires Valid() && csv.Valid()
      modifies this, csv
      ensures csv.Valid()
      ensures preparedRow && active == old(active) && os == ""
      ensures csv.latestRow == if old(preparedRow) then old(csv.latestRow) else []
      ensures csv.columns == old(csv.columns) && csv.columnsMap == old(csv.columnsMap)
      ensures csv.data == old(csv.data)
    {
      if !preparedRow {
        csv.PrepareForRow();
        preparedRow := true;
      } else {
        os := "";
      }
    }

    method CommonPostAdd(header: string)
      requires csv.Valid()
      modifies csv
      ensures csv.Valid()
      ensures Registered(old(csv.columns), old(csv.columnsMap), header, csv.columns, csv.columnsMap)
      ensures header in csv.columnsMap
      ensures csv.latestRow == WithCell(old(csv.latestRow), csv.columnsMap[header], os)
      ensures csv.data == old(csv.data)
    {
      csv.DataForLatestRow(header, os);
    }
  }

  /** `auto r = csv.row(); r << cell(h, t); auto s = std::move(r);` and then
      both destructors: the row is stored once, by the proxy moved to. */
  method MovedProxyStoresOnce(csv: CSV, heading: string, text: string)
    requires csv.Valid()
    modifies csv
    ensures csv.Valid()
    ensures Registered(old(csv.columns), old(csv.columnsMap), heading, csv.columns, csv.columnsMap)
    ensures heading in csv.columnsMap
    ensures csv.data == old(csv.data) + [WithCell([], csv.columnsMap[heading], text)]
    ensures csv.latestRow == []
  {
    var r := csv.Row();
    r.Add(heading, text);
    var s := new RowProxy.Move(r);
    s.Destroy();
    r.Destroy();
  }

  /** A proxy given no cells stores the (empty) row in progress. */
  method EmptyProxyStoresEmptyRow(csv: CSV)
    requires csv.Valid() && csv.latestRow == []
    modifies csv
    ensures csv.Valid()
    ensures csv.data == old(csv.data) + [[]]
    ensures csv.columns == old(csv.columns) && csv.columnsMap == old(csv.columnsMap)
    ensures csv.latestRow == []
  {
    var r := csv.Row();
    r.Destroy();
  }
}
