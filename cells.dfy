/**
 * Spreadsheet values as the dashboard sees them. The CSV parser runs with
 * dynamic typing, so a cell is a string, a boolean or a number; a column
 * the row lacks reads as `undefined`, and an empty cell as `null`.
 * A row is the header-keyed object built by the sheet service.
 */
module Cells {
  import opened Text

  datatype Cell = Undefined | Null | Str(s: string) | Bool(b: bool) | Num(n: int)

  /** JavaScript truthiness: `undefined`, `null`, `""`, `false` and `0` are falsy. */
  predicate Truthy(c: Cell) {
    match c
    case Undefined => false
    case Null => false
    case Str(s) => s != ""
    case Bool(b) => b
    case Num(n) => n != 0
  }

  /** `undefined` or `null`: the values on which `?.` stops. */
  predicate Nullish(c: Cell) {
    c.Undefined? || c.Null?
  }

  /**
   * `String(c)`: how a cell reads in a template literal and how it becomes
   * an object property key.
   */
  function JsString(c: Cell): string {
    match c
    case Undefined => "undefined"
    case Null => "null"
    case Str(s) => s
    case Bool(b) => if b then "true" else "false"
    case Num(n) => IntToDecimal(n)
  }

  /**
   * A key starting with a capital letter comes only from the string itself:
   * no number, boolean, `undefined` or `null` renders that way.
   */
  lemma CapitalisedKey(c: Cell, name: string)
    requires |name| > 0 && 'A' <= name[0] <= 'Z'
    ensures JsString(c) == name <==> c == Str(name)
  {
  }

  /** A spreadsheet row: column name to cell. */
  type Row = map<string, Cell>

  /** `row[col]`: a column the row lacks reads as `undefined`. */
  function Field(r: Row, col: string): Cell {
    if col in r then r[col] else Undefined
  }

  const ChurchColumn := "Church"
  const AddressColumn := "Address"
  const StageColumn := "Stage"
  const VisitColumn := "Visit?"
  const VisitDateColumn := "Visit Date"
  const VisitNotesColumn := "Visit Notes"
  const ContactColumn := "Contact"

  /** `value === true || value === 'TRUE'`: the visited test every component writes out. */
  predicate IsVisitedValue(c: Cell) {
    c == Bool(true) || c == Str("TRUE")
  }

  predicate Visited(r: Row) {
    IsVisitedValue(Field(r, VisitColumn))
  }

  /** `item.Church && (item['Visit?'] === true || item['Visit?'] === 'TRUE')`: a visit with a church named. */
  predicate NamedVisit(r: Row) {
    Truthy(Field(r, ChurchColumn)) && Visited(r)
  }

  /** The test is exact: no other spelling or type of "true" counts. */
  lemma VisitedValueIsExact()
    ensures IsVisitedValue(Bool(true)) && IsVisitedValue(Str("TRUE"))
    ensures !IsVisitedValue(Str("true")) && !IsVisitedValue(Str("True")) && !IsVisitedValue(Str(" TRUE "))
    ensures !IsVisitedValue(Str("Yes")) && !IsVisitedValue(Num(1)) && !IsVisitedValue(Bool(false))
    ensures !IsVisitedValue(Undefined) && !IsVisitedValue(Null) && !IsVisitedValue(Str(""))
  {
  }

  /** A visited value is always truthy. */
  lemma VisitedValueIsTruthy(c: Cell)
    requires IsVisitedValue(c)
    ensures Truthy(c)
  {
  }
}
