/**
 * The sheet service's conversion of parsed CSV rows into header-keyed
 * objects (`complete` callback of `fetchSheetData`). Row 0 holds the
 * column names; every later row becomes one object.
 */
module Sheets {
  import opened Cells

  /** `row[index]`: past the end of a short row the value is `undefined`. */
  function CellAt(row: seq<Cell>, i: nat): Cell {
    if i < |row| then row[i] else Undefined
  }

  /** The object after the first n iterations of `headers.forEach`. */
  function Assigned(headers: seq<Cell>, row: seq<Cell>, n: nat): Row
    requires n <= |headers|
  {
    if n == 0 then map[]
    else Assigned(headers, row, n - 1)[JsString(headers[n - 1]) := CellAt(row, n - 1)]
  }

  /** The object built for one data row; its keys are exactly the header names, duplicates merged. */
  function ZipRow(headers: seq<Cell>, row: seq<Cell>): (r: Row)
    ensures r.Keys == HeaderKeys(headers)
  {
    AssignedKeys(headers, row, |headers|);
    Assigned(headers, row, |headers|)
  }

  /** The property keys the header row names. */
  function HeaderKeys(headers: seq<Cell>): set<string> {
    set i | 0 <= i < |headers| :: JsString(headers[i])
  }

  lemma {:induction false} AssignedKeys(headers: seq<Cell>, row: seq<Cell>, n: nat)
    requires n <= |headers|
    ensures Assigned(headers, row, n).Keys == set i | 0 <= i < n :: JsString(headers[i])
  {
    if n > 0 {
      AssignedKeys(headers, row, n - 1);
      var prev := set i | 0 <= i < n - 1 :: JsString(headers[i]);
      assert (set i | 0 <= i < n :: JsString(headers[i])) == prev + {JsString(headers[n - 1])};
    }
  }

  lemma {:induction false} AssignedRightmost(headers: seq<Cell>, row: seq<Cell>, n: nat, j: nat)
    requires j < n <= |headers|
    requires forall j' :: j < j' < n ==> JsString(headers[j']) != JsString(headers[j])
    ensures JsString(headers[j]) in Assigned(headers, row, n)
    ensures Assigned(headers, row, n)[JsString(headers[j])] == CellAt(row, j)
  {
    if j < n - 1 {
      AssignedRightmost(headers, row, n - 1, j);
    }
  }

  /**
   * The value under a header is the cell in that header's column; when a
   * name repeats, the rightmost column wins. Cells beyond the header row
   * are never read, and cells missing from a short row are `undefined`.
   */
  lemma ZipRowRightmost(headers: seq<Cell>, row: seq<Cell>, j: nat)
    requires j < |headers|
    requires forall j' :: j < j' < |headers| ==> JsString(headers[j']) != JsString(headers[j])
    ensures JsString(headers[j]) in ZipRow(headers, row)
    ensures ZipRow(headers, row)[JsString(headers[j])] == CellAt(row, j)
  {
    AssignedRightmost(headers, row, |headers|, j);
  }

  /**
   * `dataRows.map(row => { const obj = {}; headers.forEach(...); return obj; })`
   * over the rows after the header row.
   */
  method ZipRows(data: seq<seq<Cell>>) returns (parsedData: seq<Row>)
    ensures |parsedData| == if data == [] then 0 else |data| - 1
    ensures forall k :: 0 <= k < |parsedData| ==> parsedData[k] == ZipRow(data[0], data[k + 1])
  {
    parsedData := [];
    if data == [] {
      return;
    }
    var headers := data[0];
    var dataRows := data[1..];
    for k := 0 to |dataRows|
      invariant |parsedData| == k
      invariant forall k' :: 0 <= k' < k ==> parsedData[k'] == ZipRow(headers, dataRows[k'])
    {
      var row := dataRows[k];
      var obj: Row := map[];
      for index := 0 to |headers|
        invariant obj == Assigned(headers, row, index)
      {
        obj := obj[JsString(headers[index]) := CellAt(row, index)];
      }
      parsedData := parsedData + [obj];
    }
  }
}
