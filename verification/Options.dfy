/** Results that may be absent. */
module Options {

  datatype Option<+T> = None | Some(value: T) {
    function GetOr(other: T): T { if None? then other else value }
  }
}
