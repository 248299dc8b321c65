/** Small result types standing in for Java's null references and thrown exceptions. */
module Wrappers {

  /** A value that may be absent: `None` stands for a Java `null`. */
  datatype Option<T> = None | Some(value: T)

  /** How a call ends: it returns a value, or it throws IllegalArgumentException
      (the only exception the graph throws). A `void` method returns `Returned(())`. */
  datatype Outcome<T> = Returned(value: T) | IllegalArgument
}
