/** Values as the pandas frames of the utilization tool hold them. */
module Cells {

  /** A cell that may be missing (NaN / None / NA). */
  datatype Option<+T> = None | Some(value: T) {
    function GetOr(default: T): T {
      match this
      case Some(v) => v
      case None => default
    }
  }

  /** An operation that either succeeds or raises. */
  datatype Result<+R, +E> = Ok(value: R) | Err(error: E)

  /** `str(cell)` of a text column read from a spreadsheet: a missing cell is the float
      NaN, whose string form is "nan". */
  function CellText(c: Option<string>): (r: string)
    ensures c.Some? ==> r == c.value
  {
    match c
    case Some(s) => s
    case None => "nan"
  }

  /** A utilization value as a renderer receives it through `row.get("util")`:
      a number, the float NaN (which `float()` accepts), or something `float()`
      rejects (None, pd.NA, a non-numeric string). */
  datatype UtilCell = UNum(x: real) | UNaN | UOther

  /** A float column value that may be NaN, handed to a renderer. */
  function UtilCellOf(u: Option<real>): (r: UtilCell)
    ensures u.Some? <==> r.UNum?
    ensures u.Some? ==> r.x == u.value
  {
    match u
    case Some(x) => UNum(x)
    case None => UNaN
  }
}
