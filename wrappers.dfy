/** Absent values and the outcome of a run that issues effects and may stop by throwing. */
module Wrappers {

  /** A JavaScript value that may be `undefined` or `null`. */
  datatype Option<+T> = None | Some(value: T)

  /** What a handler did: the effects it issued, in order, and whether it ran to the end
      (false: it threw after issuing `effects`). */
  datatype Run<+E> = Run(effects: seq<E>, completed: bool)
}
