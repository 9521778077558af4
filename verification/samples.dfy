/** Recorded numeric data whose values the model never inspects. */
module Samples {

  /** One sample (a state value, a rotation, a column entry), known only by identity. */
  datatype Sample = Sample(id: int)
}
