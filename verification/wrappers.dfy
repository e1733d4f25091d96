/** Failure-compatible wrappers shared by the puzzle models: Rust's `Option`
    and `Result`, plus the three-way `Ordering` returned by `cmp`. */
module Wrappers {

  datatype Option<+T> = None | Some(value: T) {
    predicate IsFailure() { None? }

    function PropagateFailure<U>(): Option<U>
      requires None?
    {
      None
    }

    function Extract(): T
      requires Some?
    {
      value
    }

    function GetOr(default: T): T {
      match this
      case Some(v) => v
      case None => default
    }
  }

  datatype Result<+R, +E> = Ok(value: R) | Err(error: E) {
    predicate IsFailure() { Err? }

    function PropagateFailure<U>(): Result<U, E>
      requires Err?
    {
      Err(error)
    }

    function Extract(): R
      requires Ok?
    {
      value
    }
  }

  /** `std::cmp::Ordering`. */
  datatype Ordering = Less | Equal | Greater {
    function Reverse(): Ordering {
      match this
      case Less => Greater
      case Equal => Equal
      case Greater => Less
    }

    /** `Ordering::then_with`: the second comparison only breaks a tie. */
    function Then(next: Ordering): Ordering {
      if Equal? then next else this
    }
  }

  /** `Ord::cmp` on integers. */
  function Compare(a: int, b: int): Ordering {
    if a < b then Less else if a == b then Equal else Greater
  }
}
