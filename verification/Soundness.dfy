/** The verdict on a data structure. A value rather than a predicate, so that a proof that only passes it on
    need not look inside. */
module Soundness {
  datatype Integrity = Sound | Broken
}
