/** include/error.h; functions return the negated numbers. */
module Errors {
  const ENOIMPL: int := 1
  const EOOB: int := 2
  const EBADPKT: int := 4
  const EPAGEFAULT: int := 8
  const EOOM: int := 10
}
