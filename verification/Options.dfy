/** A value that may be absent: Python's `None`, JavaScript's `undefined`. */
module Options {
  datatype Option<+T> = None | Some(value: T) {
    function GetOr(other: T): T { if Some? then value else other }
  }
}
