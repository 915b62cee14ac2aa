/** The JavaScript `null` / `undefined` of the component, as a value. */
module Optional {

  datatype Option<+T> = None | Some(value: T) {

    /** The value, or `default` when there is none (the `??` / default-prop pattern). */
    function GetOr(default: T): T {
      match this
      case Some(v) => v
      case None => default
    }
  }

  /** An optional index that is absent or points into a sequence of `count` entries. */
  predicate InRange(index: Option<nat>, count: nat) {
    index.None? || index.value < count
  }
}
