/** Absence values: Swift's `Optional` (`nil` / a wrapped value). */
module Optional {

  datatype Option<+T> = None | Some(value: T)

  /** What a Swift expression does: return a value, or stop the program
      (an out-of-range subscript). Used only for code modelled as written. */
  datatype Outcome<+T> = Returns(value: T) | Traps
}
