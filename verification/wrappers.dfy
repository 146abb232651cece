/** A value that may be missing: the model's stand-in for JavaScript's `-1` from `indexOf`,
    an absent or `undefined` field, and text that does not parse. */
module Optional {

  datatype Option<+T> = None | Some(value: T) {

    /** The three members below let `:-` stop at the first missing value. */
    predicate IsFailure() {
      !Some?
    }

    function PropagateFailure<U>(): Option<U>
      requires !Some?
    {
      None
    }

    function Extract(): T
      requires Some?
    {
      this.value
    }

    /** The value when present, `fallback` when missing: JavaScript's `x || fallback` for an
        `x` that is either a value or `undefined`. */
    function OrElse(fallback: T): T {
      if Some? then value else fallback
    }
  }
}
