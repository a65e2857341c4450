/** What one solving attempt reports back to its driver. */
module Stats {
  /** The solved flag and the node count of one attempt (the elapsed time,
      a floating-point clock reading, is not modelled). */
  datatype RunStats = RunStats(nodes: nat, solved: bool)

  /** An answer that may be missing: a solver's solution, or the library's
      "no value" (null). */
  datatype Option<T> = None | Some(value: T)
}
