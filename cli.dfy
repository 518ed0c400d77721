/** What the `main` of each benchmark program decides from its command
    line before any matrix is allocated. */
module Cli {

  /** Either the program returns `code` at once, or it goes on with a matrix
      of side `size` and `workers` threads or processes (1 for the
      sequential program). */
  datatype Launch = Exit(code: int) | Run(size: nat, workers: nat)

  /** Exit status of `main` for rejected arguments. */
  const USAGE_ERROR: int := 1
}
