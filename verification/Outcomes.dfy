/** Results shared by every module of the model. */
module Outcomes {

  datatype Option<+T> = None | Some(value: T)

  /** How a host operation ends.

      `Raised` is a Python exception that a caller may catch.  `Crashed` is the
      death of the process between two durable writes: no handler runs, every
      lock is freed by the kernel and the disk stays as it is.  Only `Done`
      lets the caller continue; `:-` propagates the other two. */
  datatype Outcome = Done | Raised | Crashed {

    predicate IsFailure() {
      !Done?
    }

    function PropagateFailure(): Outcome
      requires IsFailure()
    {
      this
    }
  }

  /** A call of the operating system or of another program.  On a calm machine
      none fails and nobody kills the process. */
  method Call(calm: bool) returns (o: Outcome)
    ensures calm ==> o.Done?
  {
    o := Done;
    if !calm {
      if * {
        o := Crashed;
      } else if * {
        o := Raised;
      }
    }
  }
}
