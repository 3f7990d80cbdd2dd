/** Value-level facts about the two pieces of state `CSV` keeps besides its
    stored rows: the column registry (a vector of headings plus a
    heading-to-index map) and the row being filled in. */
module CsvRows {

  /** The registry invariant: `columnsMap[h] == i` exactly when
      `columns[i] == h`. */
  predicate Indexed(columns: seq<string>, columnsMap: map<string, nat>)
  {
    && (forall i :: 0 <= i < |columns| ==> columns[i] in columnsMap && columnsMap[columns[i]] == i)
    && (forall h :: h in columnsMap ==> columnsMap[h] < |columns| && columns[columnsMap[h]] == h)
  }

  /** What looking up `heading` does to the registry: nothing when it is
      already there, otherwise it is appended and mapped to the old count. */
  predicate Registered(columns0: seq<string>, map0: map<string, nat>, heading: string,
                       columns1: seq<string>, map1: map<string, nat>)
  {
    if heading in map0 then columns1 == columns0 && map1 == map0
    else columns1 == columns0 + [heading] && map1 == map0[heading := |columns0|]
  }

  /** Every stored row is no wider than the header. */
  predicate RowsFit(data: seq<seq<string>>, width: nat)
  {
    forall i :: 0 <= i < |data| ==> |data[i]| <= width
  }

  function Max(a: nat, b: nat): nat
  {
    if a < b then b else a
  }

  /** The row after `ensureLatestRowCanHoldColId(id)`: padded with empty
      strings up to length `id + 1` when it is shorter, otherwise as it was. */
  function GrownToHold(row: seq<string>, id: nat): (r: seq<string>)
    ensures |r| == Max(|row|, id + 1)
    ensures forall k :: 0 <= k < |row| ==> r[k] == row[k]
    ensures forall k :: |row| <= k < |r| ==> r[k] == ""
  {
    if id < |row| then row else row + seq(id + 1 - |row|, _ => "")
  }

  /** The row after `dataForLatestRow` stored `d` in column `col`. */
  function WithCell(row: seq<string>, col: nat, d: string): (r: seq<string>)
    ensures |r| == Max(|row|, col + 1)
    ensures r[col] == d
    ensures forall k :: 0 <= k < |row| && k != col ==> r[k] == row[k]
    ensures forall k :: |row| <= k < |r| && k != col ==> r[k] == ""
  {
    GrownToHold(row, col)[col := d]
  }

  // ---------------------------------------------------------------------
  // Lemmas about the registry.

  /** No heading is registered twice. */
  lemma IndexedDistinct(columns: seq<string>, columnsMap: map<string, nat>)
    requires Indexed(columns, columnsMap)
    ensures forall i, j :: 0 <= i < j < |columns| ==> columns[i] != columns[j]
  {
  }

  /** The map holds exactly the registered headings, one entry per column. */
  lemma {:induction false} IndexedCardinality(columns: seq<string>, columnsMap: map<string, nat>)
    requires Indexed(columns, columnsMap)
    ensures columnsMap.Keys == set i | 0 <= i < |columns| :: columns[i]
    ensures |columnsMap| == |columns|
    decreases |columns|
  {
    if columns == [] {
      assert forall h :: h !in columnsMap;
    } else {
      var n := |columns| - 1;
      var h := columns[n];
      var prefix := columns[..n];
      var rest := columnsMap - {h};
      forall k | k in rest ensures rest[k] < |prefix| && prefix[rest[k]] == k {
        assert columns[columnsMap[k]] == k != h;
      }
      forall i | 0 <= i < |prefix| ensures prefix[i] in rest && rest[prefix[i]] == i {
        assert columns[i] == prefix[i];
      }
      IndexedCardinality(prefix, rest);
      assert columnsMap.Keys == rest.Keys + {h};
      assert columns == prefix + [h];
      var all := set i | 0 <= i < |columns| :: columns[i];
      var before := set i | 0 <= i < |prefix| :: prefix[i];
      forall x | x in all ensures x in before + {h} {
        var i :| 0 <= i < |columns| && columns[i] == x;
        if i < n { assert prefix[i] == x; }
      }
      assert all == before + {h};
    }
  }

  /** A lookup keeps the invariant and every index handed out before, and
      leaves `heading` registered at `|columns0|` when it was new. */
  lemma RegisteredKeepsIndices(columns0: seq<string>, map0: map<string, nat>, heading: string,
                               columns1: seq<string>, map1: map<string, nat>)
    requires Indexed(columns0, map0)
    requires Registered(columns0, map0, heading, columns1, map1)
    ensures Indexed(columns1, map1)
    ensures heading in map1 && columns1[map1[heading]] == heading
    ensures heading !in map0 ==> map1[heading] == |columns0| && |columns1| == |columns0| + 1
    ensures columns0 <= columns1
    ensures forall h :: h in map0 ==> h in map1 && map1[h] == map0[h]
  {
  }

  // ---------------------------------------------------------------------
  // Lemmas about the row in progress.

  /** A heading repeated in one row keeps the value written last. */
  lemma WithCellOverwrites(row: seq<string>, col: nat, d1: string, d2: string)
    ensures WithCell(WithCell(row, col, d1), col, d2) == WithCell(row, col, d2)
  {
  }

  /** Cells for different columns may be added in either order. */
  lemma WithCellCommutes(row: seq<string>, c1: nat, d1: string, c2: nat, d2: string)
    requires c1 != c2
    ensures WithCell(WithCell(row, c1, d1), c2, d2) == WithCell(WithCell(row, c2, d2), c1, d1)
  {
  }
}
