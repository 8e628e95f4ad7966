/** The "User" worksheet of the spreadsheet, held in memory. Physical row 1
    is the header `Username | Password | Role`; the record at 0-based index
    `idx` sits in physical row `idx + 2`, and its password in column 2. */
module Sheet {

  /** One record of the user table, as `get_all_records` returns it. */
  datatype User = User(username: string, password: string, role: string)

  /** One `update_cell(row, col, value)` call. */
  datatype CellWrite = CellWrite(row: int, col: int, value: string)

  /** The column of the password cell. */
  const PasswordColumn := 2

  /** The physical sheet row of the record at 0-based index `idx`: rows are
      1-based and row 1 is the header. */
  function PhysicalRow(idx: nat): nat {
    idx + 2
  }

  /** The value of column `col` (1-based) of a record. */
  function Field(u: User, col: int): string
    requires 1 <= col <= 3
  {
    if col == 1 then u.username else if col == 2 then u.password else u.role
  }

  /** The record with column `col` replaced by `value`. */
  function WithField(u: User, col: int, value: string): (v: User)
    requires 1 <= col <= 3
    ensures Field(v, col) == value
    ensures forall c :: 1 <= c <= 3 && c != col ==> Field(v, c) == Field(u, c)
  {
    if col == 1 then u.(username := value)
    else if col == 2 then u.(password := value)
    else u.(role := value)
  }

  class Worksheet {
    /** The data rows; `rows[i]` is physical row `i + 2`. */
    var rows: seq<User>
    /** Every `update_cell` call made on this worksheet, in order. */
    ghost var Writes: seq<CellWrite>

    constructor (records: seq<User>)
      ensures rows == records && Writes == []
    {
      rows := records;
      Writes := [];
    }

    /** The value in physical row `row`, column `col`. */
    function CellValue(row: int, col: int): string
      reads this
      requires 2 <= row < |rows| + 2 && 1 <= col <= 3
    {
      Field(rows[row - 2], col)
    }

    /** `update_cell(row, col, value)`: afterwards that cell holds `value`,
        every other cell holds what it held, and the call is logged. */
    method UpdateCell(row: int, col: int, value: string)
      requires 2 <= row < |rows| + 2 && 1 <= col <= 3
      modifies this
      ensures rows == old(rows)[row - 2 := WithField(old(rows)[row - 2], col, value)]
      ensures Writes == old(Writes) + [CellWrite(row, col, value)]
      ensures |rows| == old(|rows|) && CellValue(row, col) == value
      ensures forall r, c :: 2 <= r < |rows| + 2 && 1 <= c <= 3 && (r, c) != (row, col) ==>
                CellValue(r, c) == old(CellValue(r, c))
    {
      rows := rows[row - 2 := WithField(rows[row - 2], col, value)];
      Writes := Writes + [CellWrite(row, col, value)];
    }
  }
}
