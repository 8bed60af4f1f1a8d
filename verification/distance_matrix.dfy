/**
 The reshaping of a parsed Distance Matrix reply into the flat list of per-pair result
 records the page displays.

 The reply is origin-row-major: `rows[i][j]` is the trip from origin `i` to destination `j`.
 Both ends of a trip are looked up in the SAME location list (the component submits its list
 as both the origins and the destinations). A record's `id` is its origin row index `i`, so
 the records of one row share an id.
 */
module DistanceMatrix {
  import opened JsValues
  import opened Locations

  /** One cell of the matrix. `duration` and `distance` are the `value` fields of the
      reply's `duration` and `distance` objects, `None` when the reply leaves them out. */
  datatype Element = Element(status: string, duration: Option<Number>, distance: Option<Number>)

  /** The parsed reply: the address texts Google resolved, and the cells by origin row. */
  datatype MatrixResponse = MatrixResponse(
    originAddresses: seq<string>,
    destinationAddresses: seq<string>,
    rows: seq<seq<Element>>)

  /** One displayed result. `fromAddress` and `toAddress` are `None` where the reply's
      address arrays are too short (JavaScript yields `undefined` there, without throwing). */
  datatype DistanceRow = DistanceRow(
    id: nat,
    status: string,
    from: string,
    fromAddress: Option<string>,
    to: string,
    toAddress: Option<string>,
    duration: string,
    distance: string)

  /** A location as the `from`/`to` text: latitude, a comma, longitude. */
  function CoordText(l: Location): string {
    l.lat.text + "," + l.lng.text
  }

  /** `xs[k]` in JavaScript: `undefined` past the end. */
  function Lookup(xs: seq<string>, k: nat): Option<string> {
    if k < |xs| then Some(xs[k]) else None
  }

  /** `locations[k]["lat"] + ',' + locations[k]["lng"]`, which throws past the end. */
  function ReadCoord(locations: seq<Location>, k: nat): Outcome<string> {
    if k < |locations| then Done(CoordText(locations[k])) else Threw(UndefinedRead("lat"))
  }

  /** `element[...]["value"] + unit`, which throws when the object is missing. */
  function ReadMeasure(v: Option<Number>, unit: string): Outcome<string> {
    match v
    case Some(n) => Done(n.text + unit)
    case None => Threw(UndefinedRead("value"))
  }

  /** Cell (i, j) can be converted without an exception. */
  predicate CellReadable(m: MatrixResponse, locations: seq<Location>, i: nat, j: nat)
    requires i < |m.rows| && j < |m.rows[i]|
  {
    var e := m.rows[i][j];
    && i < |locations|
    && j < |locations|
    && (e.status == "OK" ==> e.duration.Some? && e.distance.Some?)
  }

  /** No cell of the reply throws. */
  predicate Readable(m: MatrixResponse, locations: seq<Location>) {
    forall i, j :: 0 <= i < |m.rows| && 0 <= j < |m.rows[i]| ==> CellReadable(m, locations, i, j)
  }

  /** The conversion of cell (i, j), in the order the component evaluates its parts. */
  function Cell(m: MatrixResponse, locations: seq<Location>, i: nat, j: nat): (r: Outcome<DistanceRow>)
    requires i < |m.rows| && j < |m.rows[i]|
    ensures r.Done? <==> CellReadable(m, locations, i, j)
  {
    var e := m.rows[i][j];
    var duration :- if e.status == "OK" then ReadMeasure(e.duration, " seconds") else Done("N/A");
    var distance :- if e.status == "OK" then ReadMeasure(e.distance, " meters") else Done("N/A");
    var from :- ReadCoord(locations, i);
    var to :- ReadCoord(locations, j);
    Done(DistanceRow(i, e.status, from, Lookup(m.originAddresses, i), to,
                     Lookup(m.destinationAddresses, j), duration, distance))
  }

  /** The inner `forEach`: cells j, j+1, ... of row i. */
  function RowFrom(m: MatrixResponse, locations: seq<Location>, i: nat, j: nat): Outcome<seq<DistanceRow>>
    requires i < |m.rows| && j <= |m.rows[i]|
    decreases |m.rows[i]| - j
  {
    if j == |m.rows[i]| then Done([])
    else
      var d :- Cell(m, locations, i, j);
      var rest :- RowFrom(m, locations, i, j + 1);
      Done([d] + rest)
  }

  /** The outer `forEach`: rows i, i+1, ... */
  function RowsFrom(m: MatrixResponse, locations: seq<Location>, i: nat): Outcome<seq<DistanceRow>>
    requires i <= |m.rows|
    decreases |m.rows| - i
  {
    if i == |m.rows| then Done([])
    else
      var row :- RowFrom(m, locations, i, 0);
      var rest :- RowsFrom(m, locations, i + 1);
      Done(row + rest)
  }

  /** `calcDistanceMatrix`, reading coordinates from `locations`. */
  function CalcDistanceMatrix(m: MatrixResponse, locations: seq<Location>): (r: Outcome<seq<DistanceRow>>)
    ensures r.Done? <==> Readable(m, locations)
    ensures r.Done? ==> |r.value| == CellCount(m.rows)
  {
    RowsFromDone(m, locations, 0);
    assert m.rows[0..] == m.rows;
    RowsFrom(m, locations, 0)
  }

  /** The number of cells in `rows`; `CellCount(rows[..i])` is where row i starts in the
      flat result. */
  function CellCount(rows: seq<seq<Element>>): nat {
    if rows == [] then 0 else |rows[0]| + CellCount(rows[1..])
  }

  /** In the flat list `r`, the record for cell (i, j) comes right after the records of all
      cells of rows 0..i-1 and of cells 0..j-1 of row i, and is the conversion of that cell. */
  ghost predicate RecordAt(r: seq<DistanceRow>, m: MatrixResponse, locations: seq<Location>, i: nat, j: nat)
    requires i < |m.rows| && j < |m.rows[i]|
  {
    var k := CellCount(m.rows[..i]) + j;
    && k < |r|
    && CellReadable(m, locations, i, j)
    && r[k] == Cell(m, locations, i, j).value
  }

  lemma {:induction false} RowFromDone(m: MatrixResponse, locations: seq<Location>, i: nat, j0: nat)
    requires i < |m.rows| && j0 <= |m.rows[i]|
    ensures RowFrom(m, locations, i, j0).Done? <==>
            forall j :: j0 <= j < |m.rows[i]| ==> CellReadable(m, locations, i, j)
    ensures RowFrom(m, locations, i, j0).Done? ==> |RowFrom(m, locations, i, j0).value| == |m.rows[i]| - j0
    decreases |m.rows[i]| - j0
  {
    if j0 < |m.rows[i]| {
      RowFromDone(m, locations, i, j0 + 1);
    }
  }

  lemma {:induction false} RowFromCell(m: MatrixResponse, locations: seq<Location>, i: nat, j0: nat, j: nat)
    requires i < |m.rows| && j0 <= j < |m.rows[i]|
    requires RowFrom(m, locations, i, j0).Done?
    ensures CellReadable(m, locations, i, j)
    ensures j - j0 < |RowFrom(m, locations, i, j0).value|
    ensures RowFrom(m, locations, i, j0).value[j - j0] == Cell(m, locations, i, j).value
    decreases j - j0
  {
    RowFromDone(m, locations, i, j0);
    if j0 < j {
      RowFromCell(m, locations, i, j0 + 1, j);
    }
  }

  lemma {:induction false} RowsFromDone(m: MatrixResponse, locations: seq<Location>, i0: nat)
    requires i0 <= |m.rows|
    ensures RowsFrom(m, locations, i0).Done? <==>
            forall i, j :: i0 <= i < |m.rows| && 0 <= j < |m.rows[i]| ==> CellReadable(m, locations, i, j)
    ensures RowsFrom(m, locations, i0).Done? ==> |RowsFrom(m, locations, i0).value| == CellCount(m.rows[i0..])
    decreases |m.rows| - i0
  {
    if i0 < |m.rows| {
      RowFromDone(m, locations, i0, 0);
      RowsFromDone(m, locations, i0 + 1);
      assert m.rows[i0..][1..] == m.rows[i0 + 1..];
    }
  }

  lemma {:induction false} RowsFromCell(m: MatrixResponse, locations: seq<Location>, i0: nat, i: nat, j: nat)
    requires i0 <= i < |m.rows| && j < |m.rows[i]|
    requires RowsFrom(m, locations, i0).Done?
    ensures CellReadable(m, locations, i, j)
    ensures CellCount(m.rows[i0..i]) + j < |RowsFrom(m, locations, i0).value|
    ensures RowsFrom(m, locations, i0).value[CellCount(m.rows[i0..i]) + j] == Cell(m, locations, i, j).value
    decreases i - i0
  {
    var row := RowFrom(m, locations, i0, 0).value;
    var rest := RowsFrom(m, locations, i0 + 1).value;
    var r := RowsFrom(m, locations, i0).value;
    assert r == row + rest;
    RowFromDone(m, locations, i0, 0);
    if i == i0 {
      assert m.rows[i0..i] == [];
      RowFromCell(m, locations, i0, 0, j);
      assert r[j] == row[j];
    } else {
      assert m.rows[i0..i][1..] == m.rows[i0 + 1..i];
      RowsFromCell(m, locations, i0 + 1, i, j);
      var k := CellCount(m.rows[i0 + 1..i]) + j;
      assert r[|row| + k] == rest[k];
    }
  }

  /** The reshape succeeds exactly when no cell throws. It then yields one record per cell,
      in row-major order: the cell of row i, column j sits after all cells of earlier rows. */
  lemma CalcDistanceMatrixShape(m: MatrixResponse, locations: seq<Location>)
    ensures CalcDistanceMatrix(m, locations).Done? <==> Readable(m, locations)
    ensures CalcDistanceMatrix(m, locations).Done? ==>
            var r := CalcDistanceMatrix(m, locations).value;
            && |r| == CellCount(m.rows)
            && forall i, j :: 0 <= i < |m.rows| && 0 <= j < |m.rows[i]| ==>
                 RecordAt(r, m, locations, i, j)
  {
    RowsFromDone(m, locations, 0);
    assert m.rows[0..] == m.rows;
    if CalcDistanceMatrix(m, locations).Done? {
      var r := CalcDistanceMatrix(m, locations).value;
      forall i, j | 0 <= i < |m.rows| && 0 <= j < |m.rows[i]|
        ensures RecordAt(r, m, locations, i, j)
      {
        assert m.rows[0..i] == m.rows[..i];
        RowsFromCell(m, locations, 0, i, j);
      }
      assert |r| == CellCount(m.rows);
    }
  }

  /** What the record for cell (i, j) holds: the origin row index as id, the cell's status
      verbatim, `from` and `to` built from locations i and j of the one list, and the
      formatted duration and distance, or "N/A" for both when the status is not "OK". */
  lemma CalcDistanceMatrixRecord(m: MatrixResponse, locations: seq<Location>, i: nat, j: nat)
    requires CalcDistanceMatrix(m, locations).Done?
    requires i < |m.rows| && j < |m.rows[i]|
    ensures i < |locations| && j < |locations|
    ensures CellCount(m.rows[..i]) + j < |CalcDistanceMatrix(m, locations).value|
    ensures
      var d := CalcDistanceMatrix(m, locations).value[CellCount(m.rows[..i]) + j];
      var e := m.rows[i][j];
      && d.id == i
      && d.status == e.status
      && d.from == locations[i].lat.text + "," + locations[i].lng.text
      && d.to == locations[j].lat.text + "," + locations[j].lng.text
      && d.fromAddress == (if i < |m.originAddresses| then Some(m.originAddresses[i]) else None)
      && d.toAddress == (if j < |m.destinationAddresses| then Some(m.destinationAddresses[j]) else None)
      && (e.status == "OK" ==>
            e.duration.Some? && e.distance.Some? &&
            d.duration == e.duration.value.text + " seconds" &&
            d.distance == e.distance.value.text + " meters")
      && (e.status != "OK" ==> d.duration == "N/A" && d.distance == "N/A")
  {
    CalcDistanceMatrixShape(m, locations);
    assert CellReadable(m, locations, i, j);
    assert m.rows[0..i] == m.rows[..i];
    RowsFromCell(m, locations, 0, i, j);
    var d := CalcDistanceMatrix(m, locations).value[CellCount(m.rows[..i]) + j];
    assert d == Cell(m, locations, i, j).value;
  }

  /** For two locations queried against each other, the four records carry the ids
      0, 0, 1, 1: the origin row, not the position in the result. */
  lemma SquareMatrixIds(m: MatrixResponse, locations: seq<Location>)
    requires |m.rows| == 2 && |m.rows[0]| == 2 && |m.rows[1]| == 2
    requires Readable(m, locations)
    ensures CalcDistanceMatrix(m, locations).Done?
    ensures var r := CalcDistanceMatrix(m, locations).value;
      |r| == 4 && r[0].id == 0 && r[1].id == 0 && r[2].id == 1 && r[3].id == 1
  {
    CalcDistanceMatrixShape(m, locations);
    assert m.rows[..0] == [] && m.rows[..1] == [m.rows[0]];
    assert m.rows[1..][1..] == [];
    assert CellCount(m.rows[1..]) == |m.rows[1]| + CellCount(m.rows[1..][1..]);
    assert CellCount(m.rows) == 4;
    CalcDistanceMatrixRecord(m, locations, 0, 0);
    CalcDistanceMatrixRecord(m, locations, 0, 1);
    CalcDistanceMatrixRecord(m, locations, 1, 0);
    CalcDistanceMatrixRecord(m, locations, 1, 1);
  }
}
