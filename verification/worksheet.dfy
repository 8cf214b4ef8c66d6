/** The row normaliser of `WorksheetImporter.get_rows`: a worksheet becomes a list of
    records keyed by the header row, with the three address sub-maps added. */
module Worksheet {
  import opened Wrappers
  import Text

  /** A cell as read from the workbook: `None` for an empty cell. */
  type Cell = Option<string>

  /** A worksheet: its rows in order, row 1 first. */
  type Sheet = seq<seq<Cell>>

  /** The `KeyError` that `workbook[name]` raises when the workbook has no sheet of that
      name. A sheet handed over as `Option<Sheet>` is `None` in that case. */
  datatype WorkbookError = NoSuchSheet

  /** A record key is a header cell as read (headers are neither blank-filled nor stripped). */
  type Key = Option<string>

  type Columns = map<Key, string>

  type AddressMap = map<string, string>

  /** One yielded row: the header-to-value pairs and the `Physical`, `Postal` and
      `Billing` sub-maps that `get_rows` stores under those three keys. */
  datatype Record = Record(columns: Columns, addresses: map<string, AddressMap>)

  const DefaultStartRow: int := 3
  const SavepointEvery: nat := 1000
  const AddressTypes: seq<string> := ["Physical", "Postal", "Billing"]
  const AddressKeys: seq<string> := ["Address", "City", "State", "District", "Zip", "Country"]
  const AddressTypeKeys: set<Key> := {Some("Physical"), Some("Postal"), Some("Billing")}

  /** `row.get(name)`: the column's value, or `None` when the record has no such column. */
  function Lookup(r: Record, name: string): Option<string>
  {
    if Some(name) in r.columns then Some(r.columns[Some(name)]) else None
  }

  /** `str(row.get(name, ''))` on a column map. */
  function Get(columns: Columns, name: string): string
  {
    if Some(name) in columns then columns[Some(name)] else ""
  }

  function GetField(r: Record, name: string): string
  {
    Get(r.columns, name)
  }

  /** One cell's value: an empty cell becomes `''`, text loses surrounding blanks. */
  function NormalizeCell(c: Cell): (v: string)
    ensures c.None? ==> v == ""
    ensures v != "" ==> v[0] !in Text.CellBlanks && v[|v| - 1] !in Text.CellBlanks
    ensures c.Some? && (c.value == "" || (c.value[0] !in Text.CellBlanks && c.value[|c.value| - 1] !in Text.CellBlanks)) ==> v == c.value
  {
    match c
    case None => ""
    case Some(s) => Text.Strip(s, Text.CellBlanks)
  }

  /** Nothing but the end blanks goes: the value of a text cell is the slice of the text
      between its first and last character that is no blank, and it neither starts nor
      ends with a blank. */
  lemma NormalizeCellSpec(c: Cell)
    requires c.Some?
    ensures Text.StripsTo(c.value, Text.CellBlanks, NormalizeCell(c))
    ensures Text.CleanEnds(NormalizeCell(c), Text.CellBlanks)
  {
    Text.StripSpec(c.value, Text.CellBlanks);
  }

  function NormalizeCells(row: seq<Cell>): seq<string>
  {
    seq(|row|, i requires 0 <= i < |row| => NormalizeCell(row[i]))
  }

  function Min(a: int, b: int): int { if a <= b then a else b }

  function Max(a: int, b: int): int { if a >= b then a else b }

  /** `dict(zip(keys, values))`: pairs by position, drops the surplus of the longer
      list, and a repeated key keeps its last value. */
  function ZipMap(keys: seq<Key>, values: seq<string>): Columns
    decreases |keys|
  {
    var n := Min(|keys|, |values|);
    if n == 0 then map[]
    else ZipMap(keys[..n - 1], values[..n - 1])[keys[n - 1] := values[n - 1]]
  }

  /** The sub-map for one address type: empty unless a `<type>_Address` column exists,
      otherwise exactly the six parts, `''` for the missing ones. */
  function AddressOf(columns: Columns, addressType: string): AddressMap
  {
    if Some(addressType + "_Address") in columns then
      map k | k in AddressKeys :: Get(columns, addressType + "_" + k)
    else map[]
  }

  /** The record for one data row: the zipped columns, whose `Physical`, `Postal` and
      `Billing` keys are replaced by the address sub-maps. */
  function MakeRecord(headers: seq<Cell>, values: seq<string>): Record
  {
    var zipped := ZipMap(headers, values);
    Record(zipped - AddressTypeKeys, map t | t in AddressTypes :: AddressOf(zipped, t))
  }

  /** The reference definition of which rows `get_rows` yields among the first `n`:
      the 0-based index `n - 1` (row number `n`) is taken exactly when `n > 1` and
      `n > startrow`. */
  function YieldedIndices(startrow: int, n: nat): (idx: seq<nat>)
    ensures forall i :: 0 <= i < |idx| ==> idx[i] < n
  {
    if n == 0 then []
    else YieldedIndices(startrow, n - 1) + (if n > 1 && n > startrow then [n - 1] else [])
  }

  /** The record made from the row at 0-based index `k`, under the header row. */
  function DataRecord(sheet: Sheet, k: nat): Record
    requires k < |sheet|
  {
    MakeRecord(sheet[0], NormalizeCells(sheet[k]))
  }

  function RecordsAt(sheet: Sheet, idx: seq<nat>): seq<Record>
    requires forall i :: 0 <= i < |idx| ==> idx[i] < |sheet|
  {
    seq(|idx|, i requires 0 <= i < |idx| => DataRecord(sheet, idx[i]))
  }

  /** What `get_rows(startrow, sheet)` yields. */
  function Yielded(sheet: Sheet, startrow: int): seq<Record>
  {
    RecordsAt(sheet, YieldedIndices(startrow, |sheet|))
  }

  /** Normalises the cells of one row, in order. */
  method NormalizeRow(row: seq<Cell>) returns (newRow: seq<string>)
    ensures newRow == NormalizeCells(row)
  {
    newRow := [];
    for i := 0 to |row|
      invariant newRow == NormalizeCells(row[..i])
    {
      assert row[..i + 1] == row[..i] + [row[i]];
      newRow := newRow + [NormalizeCell(row[i])];
    }
    assert row[..|row|] == row;
  }

  /** `get_rows(startrow, worksheet)`: reads row 1 as the header, signals a savepoint at
      every row number divisible by 1000, skips rows up to `startrow` and yields one
      record per remaining row. */
  method GetRows(sheet: Sheet, startrow: int) returns (records: seq<Record>, ghost savepoints: nat)
    ensures records == Yielded(sheet, startrow)
    ensures savepoints == |sheet| / SavepointEvery
  {
    var headers: seq<Cell> := [];
    var rowNr := 0;
    records, savepoints := [], 0;
    while rowNr < |sheet|
      invariant 0 <= rowNr <= |sheet|
      invariant rowNr >= 1 ==> headers == sheet[0]
      invariant records == RecordsAt(sheet, YieldedIndices(startrow, rowNr))
      invariant savepoints == rowNr / SavepointEvery
    {
      var row := sheet[rowNr];
      rowNr := rowNr + 1;
      SavepointStep(rowNr - 1);
      RecordsStep(sheet, startrow, rowNr);
      if rowNr == 1 {
        headers := row;
        continue;
      }
      if rowNr % SavepointEvery == 0 {
        savepoints := savepoints + 1;
      }
      if rowNr <= startrow {
        continue;
      }
      var newRow := NormalizeRow(row);
      assert MakeRecord(headers, newRow) == DataRecord(sheet, rowNr - 1);
      records := records + [MakeRecord(headers, newRow)];
    }
    assert records == Yielded(sheet, startrow);
  }

  /** The savepoint count goes up by one exactly at the multiples of 1000. */
  lemma SavepointStep(n: nat)
    ensures (n + 1) / SavepointEvery == n / SavepointEvery + (if (n + 1) % SavepointEvery == 0 then 1 else 0)
  {
  }

  /** Reading row number `n` adds its record exactly when it is yielded. */
  lemma RecordsStep(sheet: Sheet, startrow: int, n: nat)
    requires 1 <= n <= |sheet|
    ensures RecordsAt(sheet, YieldedIndices(startrow, n))
         == RecordsAt(sheet, YieldedIndices(startrow, n - 1))
            + (if n > 1 && n > startrow then [DataRecord(sheet, n - 1)] else [])
  {
    var idx := YieldedIndices(startrow, n - 1);
    if n > 1 && n > startrow {
      assert RecordsAt(sheet, idx + [n - 1]) == RecordsAt(sheet, idx) + [DataRecord(sheet, n - 1)];
    }
  }

  // ---------------------------------------------------------------- properties

  /** Which rows are yielded: never the header, and the data rows from 0-based index
      `max(1, startrow)` on, each exactly once and in order. */
  lemma {:induction false} YieldedRows(startrow: int, n: nat)
    ensures |YieldedIndices(startrow, n)| == Max(0, n - Max(1, startrow))
    ensures forall i :: 0 <= i < |YieldedIndices(startrow, n)| ==>
              YieldedIndices(startrow, n)[i] == Max(1, startrow) + i
  {
    if n > 0 {
      YieldedRows(startrow, n - 1);
      var prev := YieldedIndices(startrow, n - 1);
      if n > 1 && n > startrow {
        var cur := YieldedIndices(startrow, n);
        assert cur == prev + [n - 1];
        forall i | 0 <= i < |cur| ensures cur[i] == Max(1, startrow) + i {
          if i < |prev| { assert cur[i] == prev[i]; }
        }
      } else {
        assert YieldedIndices(startrow, n) == prev;
      }
    }
  }

  /** Row number `k` (1-based) is yielded exactly when `k > 1` and `k > startrow`. */
  lemma RowYieldedIff(sheet: Sheet, startrow: int, k: nat)
    requires 1 <= k <= |sheet|
    ensures (k - 1 in YieldedIndices(startrow, |sheet|)) <==> k > 1 && k > startrow
  {
    YieldedRows(startrow, |sheet|);
    var idx := YieldedIndices(startrow, |sheet|);
    if k > 1 && k > startrow {
      assert idx[k - 1 - Max(1, startrow)] == k - 1;
    }
  }

  /** With the default start row 3, the first record comes from row 4. */
  lemma FirstRecordIsRowFour(sheet: Sheet)
    requires |sheet| >= 4
    ensures |Yielded(sheet, DefaultStartRow)| == |sheet| - 3
    ensures Yielded(sheet, DefaultStartRow)[0] == DataRecord(sheet, 3)
  {
    YieldedRows(DefaultStartRow, |sheet|);
  }

  /** A worksheet holding only its header row yields nothing. */
  lemma HeaderOnlyYieldsNothing(sheet: Sheet, startrow: int)
    requires |sheet| <= 1
    ensures Yielded(sheet, startrow) == []
  {
    YieldedRows(startrow, |sheet|);
  }

  lemma {:induction false} ZipMapKeys(keys: seq<Key>, values: seq<string>, k: Key)
    ensures k in ZipMap(keys, values) <==> exists i :: 0 <= i < Min(|keys|, |values|) && keys[i] == k
    decreases |keys|
  {
    var n := Min(|keys|, |values|);
    if n > 0 {
      ZipMapKeys(keys[..n - 1], values[..n - 1], k);
      if k != keys[n - 1] && k in ZipMap(keys, values) {
        var i :| 0 <= i < n - 1 && keys[..n - 1][i] == k;
        assert keys[i] == k;
      }
      if exists i :: 0 <= i < n && keys[i] == k {
        var i :| 0 <= i < n && keys[i] == k;
        if i < n - 1 { assert keys[..n - 1][i] == k; }
      }
    }
  }

  /** Pairing by position: a key that does not occur again later maps to the value
      at its own position. */
  lemma {:induction false} ZipMapValue(keys: seq<Key>, values: seq<string>, i: nat)
    requires i < Min(|keys|, |values|)
    requires forall j :: i < j < Min(|keys|, |values|) ==> keys[j] != keys[i]
    ensures keys[i] in ZipMap(keys, values) && ZipMap(keys, values)[keys[i]] == values[i]
    decreases |keys|
  {
    var n := Min(|keys|, |values|);
    if i < n - 1 {
      ZipMapValue(keys[..n - 1], values[..n - 1], i);
    }
  }

  /** The value under a data column is its normalised cell, and only headers that meet
      a cell become columns. */
  lemma RecordColumn(headers: seq<Cell>, row: seq<Cell>, i: nat)
    requires i < Min(|headers|, |row|)
    requires forall j :: i < j < Min(|headers|, |row|) ==> headers[j] != headers[i]
    requires headers[i] !in AddressTypeKeys
    ensures headers[i] in MakeRecord(headers, NormalizeCells(row)).columns
    ensures MakeRecord(headers, NormalizeCells(row)).columns[headers[i]] == NormalizeCell(row[i])
  {
    ZipMapValue(headers, NormalizeCells(row), i);
  }

  lemma RecordColumnsFromHeaders(headers: seq<Cell>, row: seq<Cell>, k: Key)
    requires k in MakeRecord(headers, NormalizeCells(row)).columns
    ensures exists i :: 0 <= i < Min(|headers|, |row|) && headers[i] == k
  {
    ZipMapKeys(headers, NormalizeCells(row), k);
  }

  /** A sub-map is empty unless its `<type>_Address` column exists, and then holds
      exactly the six parts, `''` for each part whose column is missing. */
  lemma AddressOfSpec(columns: Columns, t: string)
    ensures AddressOf(columns, t) != map[] <==> Some(t + "_Address") in columns
    ensures AddressOf(columns, t) != map[] ==> AddressOf(columns, t).Keys == {"Address", "City", "State", "District", "Zip", "Country"}
    ensures forall k :: k in AddressOf(columns, t) ==> AddressOf(columns, t)[k] == Get(columns, t + "_" + k)
  {
    if Some(t + "_Address") in columns {
      assert AddressKeys[0] == "Address";
      assert "Address" in AddressOf(columns, t);
    }
  }

  /** Every record carries the three address keys; a sub-map is empty unless a header
      `<type>_Address` meets a cell, and then holds exactly the six parts. */
  lemma RecordAddresses(headers: seq<Cell>, values: seq<string>, t: string)
    requires t in AddressTypes
    ensures MakeRecord(headers, values).addresses.Keys == {"Physical", "Postal", "Billing"}
    ensures var a := MakeRecord(headers, values).addresses[t];
      && ((exists i :: 0 <= i < Min(|headers|, |values|) && headers[i] == Some(t + "_Address"))
          <==> a != map[])
      && (a != map[] ==> a.Keys == {"Address", "City", "State", "District", "Zip", "Country"})
      && (forall k :: k in a ==> a[k] == Get(ZipMap(headers, values), t + "_" + k))
  {
    ZipMapKeys(headers, values, Some(t + "_Address"));
    AddressOfSpec(ZipMap(headers, values), t);
  }
}
