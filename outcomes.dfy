/** The ways an operation of the resolver can end, and the result types that carry them. */
module Outcomes {

  /**
   * Every failure the model distinguishes. The source reports some of them as Go errors, ends
   * the process on others (`os.Exit`, a runtime panic) and aborts on one with a stack overflow (PointerLoop).
   */
  datatype Error =
    | OutOfBounds      // a slice or index outside the buffer: a Go runtime panic
    | PointerLoop      // a compression-pointer chain that revisits an offset: unbounded recursion
    | EmptyStack       // Pop on an empty stack
    | IdMismatch       // checkHeader: response id differs from the query id (os.Exit)
    | NoRecords        // checkHeader: no answer, authority or additional records (os.Exit)
    | TransportError   // dialling, writing to or reading from the UDP socket failed
    | Exhausted        // the stack of candidate servers ran empty
    | OutOfFuel        // the bound the model puts on the resolver's unbounded loop and recursion

  datatype Result<T> = Ok(value: T) | Err(error: Error)

  /** A check that either passes or fails with an error, carrying no value. */
  datatype Outcome = Pass | Fail(error: Error)
}
