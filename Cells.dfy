/** Cell values of the trip table as pandas holds them after reading the CSV. */
module Cells {

  datatype Option<+T> = None | Some(value: T)

  /** A text cell: an empty CSV field is read as a missing value (NaN). */
  datatype Cell = Missing | Text(s: string)

  /** The cash-collected cell: blank (NaN), the placeholder '-', or an already parsed amount. */
  datatype Cash = Blank | Dash | Amount(value: real)
}
