/** What the surroundings of the program do to a single operation. */
module Environment {
  /** How one operation ended; after Died the process no longer runs. */
  datatype IoResult = Done | Failed | Died

  /** Any operation may fail, or be the last one before a crash, unless the
      surroundings are calm. */
  method Chance(calm: bool) returns (r: IoResult)
    ensures calm ==> r.Done?
  {
    r := *;
    if calm { r := Done; }
  }
}
