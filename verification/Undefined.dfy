/** The mark of a grid cell without a value. */
module Undefined {
  const NOTDEF: real := -999999999.0
}
