/**
 * The spreadsheet import of the "assign students to a course" page: the rows
 * of the first sheet, already parsed into arrays of cell values, become the
 * page's list of candidate students.
 */
module AssignStudentToCourse {
  import opened Js

  /** One parsed row: its cells, left to right. */
  type Row = seq<JsValue>

  /** `row[k]`: a cell past the end of the row reads as `undefined`. */
  function Cell(row: Row, k: nat): (v: JsValue)
    ensures k < |row| ==> v == row[k]
    ensures k >= |row| ==> v == Undefined
  {
    if k < |row| then row[k] else Undefined
  }

  /**
   * The row as the parser returns it with `defval: ""`: padded to the sheet's
   * `width`, with every empty cell read as "".
   */
  function Defval(row: Row, width: nat): (padded: Row)
    ensures |padded| == if width > |row| then width else |row|
    ensures forall k :: 0 <= k < |padded| ==> padded[k] == if Cell(row, k) == Undefined then Str("") else Cell(row, k)
  {
    seq(if width > |row| then width else |row|, k requires 0 <= k => if Cell(row, k) == Undefined then Str("") else Cell(row, k))
  }

  /** A student taken from the spreadsheet, as the page lists it. */
  datatype ExcelStudent = ExcelStudent(userId: JsValue, email: string, fullName: string, fromExcel: bool)

  const EmailDomain := "@gmail.com"
  const FallbackPrefix := "excel-"

  /** `String(v || "")`. */
  function TextOf(v: JsValue): string {
    if Truthy(v) then ToString(v) else ""
  }

  /** The id given to the data row at `index` whose first cell is falsy. */
  function FallbackId(index: nat): JsValue {
    Str(FallbackPrefix + IntToString(index))
  }

  /** The record for the data row at 0-based `index` (the header not counted). */
  function MapRow(row: Row, index: nat): ExcelStudent {
    var id := if Truthy(Cell(row, 0)) then Cell(row, 0) else FallbackId(index);
    var idNumber := Trim(TextOf(Cell(row, 1)));
    var fullName := Trim(TextOf(Cell(row, 2)));
    ExcelStudent(id, if idNumber != "" then idNumber + EmailDomain else "", fullName, true)
  }

  /**
   * Filling empty cells with "" (the parser's `defval`) changes no record:
   * reading a missing cell as `undefined` maps every field the same way.
   */
  lemma MapRowDefval(row: Row, width: nat, index: nat)
    ensures MapRow(Defval(row, width), index) == MapRow(row, index)
  {
    var padded := Defval(row, width);
    forall k: nat | k < 3
      ensures Truthy(Cell(padded, k)) == Truthy(Cell(row, k))
      ensures TextOf(Cell(padded, k)) == TextOf(Cell(row, k))
      ensures Truthy(Cell(row, k)) ==> Cell(padded, k) == Cell(row, k)
    {
    }
  }

  /** `rows.map((row, i) => ...)` with the index counted from `start`. */
  function MapRowsFrom(rows: seq<Row>, start: nat): (students: seq<ExcelStudent>)
    ensures |students| == |rows|
    ensures forall i :: 0 <= i < |rows| ==> students[i] == MapRow(rows[i], start + i)
  {
    if rows == [] then [] else [MapRow(rows[0], start)] + MapRowsFrom(rows[1..], start + 1)
  }

  /** `rows.slice(1)`: the first row is taken to be the header. */
  function DataRows(rows: seq<Row>): (data: seq<Row>)
    ensures |data| == if |rows| == 0 then 0 else |rows| - 1
    ensures forall i :: 0 <= i < |data| ==> data[i] == rows[i + 1]
  {
    if rows == [] then [] else rows[1..]
  }

  /** The students built from a parsed sheet. */
  function MapSheet(rows: seq<Row>): seq<ExcelStudent> {
    MapRowsFrom(DataRows(rows), 0)
  }

  /**
   * The header row is dropped and every other row gives one student, in
   * order: student `i` comes from row `i + 1`, numbered `i` among the data rows.
   */
  lemma MapSheetShape(rows: seq<Row>)
    ensures |MapSheet(rows)| == if |rows| == 0 then 0 else |rows| - 1
    ensures forall i :: 0 <= i < |MapSheet(rows)| ==> MapSheet(rows)[i] == MapRow(rows[i + 1], i)
  {
  }

  /** Every record is marked as coming from the spreadsheet, and its name is already trimmed. */
  lemma MapRowFields(row: Row, index: nat)
    ensures MapRow(row, index).fromExcel
    ensures Trim(MapRow(row, index).fullName) == MapRow(row, index).fullName
    ensures MapRow(row, index).userId == if Truthy(Cell(row, 0)) then Cell(row, 0) else FallbackId(index)
  {
    TrimIdempotent(TextOf(Cell(row, 2)));
  }

  /**
   * The email is empty when the trimmed second cell is, and otherwise that
   * trimmed value followed by "@gmail.com".
   */
  lemma MapRowEmail(row: Row, index: nat)
    ensures var idNumber := Trim(TextOf(Cell(row, 1)));
      MapRow(row, index).email == if idNumber == "" then "" else idNumber + EmailDomain
    ensures MapRow(row, index).email == "" || |MapRow(row, index).email| > |EmailDomain|
  {
  }

  /** Rows whose first cell is falsy get pairwise different ids, so they never share a list key. */
  lemma FallbackIdsDistinct(rows: seq<Row>, i: nat, j: nat)
    requires i < j && j + 1 < |rows|
    requires !Truthy(Cell(rows[i + 1], 0)) && !Truthy(Cell(rows[j + 1], 0))
    ensures MapSheet(rows)[i].userId != MapSheet(rows)[j].userId
  {
    MapSheetShape(rows);
    var a, b := FallbackPrefix + IntToString(i), FallbackPrefix + IntToString(j);
    if a == b {
      assert a[|FallbackPrefix|..] == IntToString(i);
      assert b[|FallbackPrefix|..] == IntToString(j);
      IntToStringInjective(i, j);
    }
  }

  /**
   * The upload handler: with no file chosen the list stays as it is,
   * otherwise it is replaced (not extended) by the students of the sheet.
   */
  function AfterUpload(excelStudents: seq<ExcelStudent>, sheet: Option<seq<Row>>): (r: seq<ExcelStudent>)
    ensures sheet.None? ==> r == excelStudents
    ensures sheet.Some? ==> r == MapSheet(sheet.value) && |r| == |DataRows(sheet.value)|
  {
    match sheet
    case None => excelStudents
    case Some(rows) => MapSheet(rows)
  }
}
