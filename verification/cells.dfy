/**
 * Spreadsheet cells as the spreadsheet reader hands them to the upload
 * handler, and the two conversions of a cell the handler performs:
 * `String(c || '')` and the lower-cased, trimmed form used to recognise labels.
 */
module Cells {
  import opened JsText

  datatype Option<T> = None | Some(value: T)

  /** One cell of a row. Cells missing from a (sparse) row are `Empty`. */
  datatype Cell =
    | Empty
    | Text(text: string)
    | Num(num: int)
    | Bool(flag: bool)
    | DateCell(time: int)  // a Date object: milliseconds since 1970-01-01T00:00Z

  /** What the JavaScript host defines and the handler cannot see: how `new Date(s)`
      parses a string (None when the result is an invalid date) and how `String(d)`
      renders a Date (it depends on the host's time zone). */
  datatype Host = Host(parseDate: string -> Option<int>, dateText: int -> string)

  /** The cells that `c || ''` replaces by the empty string. */
  predicate IsFalsy(c: Cell) {
    c == Empty || c == Text("") || c == Num(0) || c == Bool(false)
  }

  /** `String(c || '')`. */
  function CellText(c: Cell, host: Host): (r: string)
    ensures IsFalsy(c) ==> r == ""
    ensures c.Num? ==> CleanNum(r) == if c.num < 0 then -c.num else c.num
  {
    match c
    case Empty => ""
    case Text(s) => s
    case Num(n) => if n == 0 then "" else CleanNumIntText(n); IntText(n)
    case Bool(b) => if b then "true" else ""
    case DateCell(t) => host.dateText(t)
  }

  /** `row[i]`: past the end of the row the value is undefined, an empty cell. */
  function CellAt(row: seq<Cell>, i: nat): Cell {
    if i < |row| then row[i] else Empty
  }

  /** `String(c || '').trim().toLowerCase()`, the form in which labels are compared. */
  function Norm(c: Cell, host: Host): string {
    Lower(Trim(CellText(c, host)))
  }

  /** The compared form is a fixed point: reading it again as a text cell gives
      it back, so it has no spaces at its ends and no ASCII capital. */
  lemma NormIdempotent(c: Cell, host: Host)
    ensures Norm(Text(Norm(c, host)), host) == Norm(c, host)
  {
    var t := Trim(CellText(c, host));
    TrimLowerTrim(CellText(c, host));
    LowerCases(t);
  }
}
