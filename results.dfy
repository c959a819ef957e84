/** Exceptions the modelled Python code can raise, and the result of an
    operation that either returns a value or raises one of them. */
module Results {

  /** KeyError: a dictionary lookup of a missing key.
      IndexError: `random.choice` on an empty list.
      RuntimeError: stands for whatever exception `torch.max` raises over
      an empty row of probabilities; its exact class is not modelled. */
  datatype Error = KeyError | IndexError | RuntimeError

  /** `None` or a value. */
  datatype Option<+T> = None | Some(value: T)

  datatype Result<+T> = Ok(value: T) | Err(error: Error)
}
