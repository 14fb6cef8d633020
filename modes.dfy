/** The three kinds of session the timer cycles through, and their fixed lengths. */
module Modes {

  /** A session kind: the keys `focus`, `short` and `long` of the timer's duration table. */
  datatype Mode = Focus | Short | Long

  /** Length of a session of kind `m`, in seconds: 25, 5 and 15 minutes.
      Every length is positive, a whole number of minutes, and fewer than
      100 minutes, so its "MM:SS" text always has two minute digits. */
  function Duration(m: Mode): (d: int)
    ensures 0 < d && d % 60 == 0 && d / 60 < 100
  {
    match m
    case Focus => 25 * 60
    case Short => 5 * 60
    case Long => 15 * 60
  }
}
