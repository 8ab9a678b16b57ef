/** Outcomes of the conversion routines.

    The converter signals failures only through the exceptions Python raises
    on a bad index, a missing dictionary key or a non-numeric integer
    conversion; `Fault` names those three, and `Result` carries either a value
    or the fault that aborted the computation. */
module Results {

  datatype Fault = IndexError | KeyError | ValueError

  datatype Option<+T> = None | Some(value: T)

  datatype Result<+T> = Ok(value: T) | Err(fault: Fault) {

    predicate IsFailure() {
      Err?
    }

    function PropagateFailure<U>(): Result<U>
      requires Err?
    {
      Err(fault)
    }

    function Extract(): T
      requires Ok?
    {
      value
    }
  }
}
