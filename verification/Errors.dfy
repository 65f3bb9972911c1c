/** The error codes of inc/error.h that the modelled functions return, negated. */
module Errors {
  const E_BAD_ENV: int := 2
  const E_INVAL: int := 3
  const E_NO_MEM: int := 4
  const E_NO_FREE_ENV: int := 5
  const MAXERROR: nat := 9
}
