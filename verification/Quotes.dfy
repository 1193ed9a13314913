/** Where a scan of a shell line stands with respect to quotes. */
module Quotes {
  datatype Quote = Bare | Single | Double
}
