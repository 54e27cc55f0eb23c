/**
 * The JavaScript values that cross the boundary of the modelled core, and the
 * host functions the core calls but whose behaviour belongs to the browser.
 */
module JsValues {
  import opened Wrappers

  /** A JavaScript number: NaN or a finite value (held exactly). */
  datatype JsNum = NaN | Finite(value: real)

  /** A spreadsheet cell as the importer and the date parser receive it (`undefined`/`null` is Missing). */
  datatype CellValue = Missing | Num(n: real) | Str(s: string)

  /**
   * Host behaviour the core relies on, taken as given:
   *  - numberToString: `String(n)` for a number;
   *  - parseFloat: `parseFloat(s)`;
   *  - parseInt: `parseInt(s, 10)`;
   *  - parseDate: `new Date(s)` for the final fallback of the date parser,
   *    as the UTC day number of the resulting instant (see Calendar), or None
   *    for an invalid date.
   */
  datatype Host = Host(
    numberToString: real -> string,
    parseFloat: string -> JsNum,
    parseInt: string -> JsNum,
    parseDate: string -> Option<int>)

  /** `String(value)` for a cell that is present; `String(undefined)` otherwise. */
  function CellText(c: CellValue, host: Host): string {
    match c
    case Missing => "undefined"
    case Num(n) => host.numberToString(n)
    case Str(s) => s
  }
}
