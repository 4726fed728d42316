/** What comes back from the prompts of the partition editors. */
module Prompts {
  import opened Extents

  /** The answer to a prompt for a number: given up, left blank for the default, not a number, or a number. */
  datatype Answer = Cancelled | Blank | Malformed | Number(n: uint64)
}
