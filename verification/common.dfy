/** Values shared by every part of the model: optional values, the errors the
    Python helpers raise, complex samples and the description of a
    `np.linspace` axis. */
module Common {

  datatype Option<+T> = None | Some(value: T)

  /** The outcome of a helper that can raise: `Err` carries the exception. */
  datatype Result<+T> = Ok(value: T) | Err(error: Error) {
    predicate IsFailure() { Err? }

    function PropagateFailure<U>(): Result<U>
      requires Err?
    {
      Err(error)
    }

    function Extract(): T
      requires Ok?
    {
      value
    }
  }

  /** The exceptions raised by the modelled helpers, one constructor per cause. */
  datatype Error =
    | ShapeMismatch(size: nat, rows: nat, cols: nat)  // ValueError from np.reshape
    | EmptyMax                                        // ValueError: max() of an empty list
    | NotANumber(text: string)                        // ValueError from float() on a text field
    | BadText(tag: string, content: Option<string>)    // int()/float() of an XML element's text
    | Unbound(name: string)                           // UnboundLocalError: name never assigned
    | IndexOutOfBounds(index: nat, size: nat)         // IndexError
    | NegativeDimension(count: int)                   // ValueError from np.zeros
    | OddLength(size: nat)                            // ValueError from .view(dtype='c16')
    | NoFftPoints(points: nat)                        // ValueError from np.fft on rows of no points

  /** A complex sample: in-phase (real) and quadrature (imaginary) part. */
  datatype Complex = Complex(re: real, im: real)

  /** The arguments of `np.linspace(first, last, count)`; the axis values
      themselves are floating-point numerics and are not computed. */
  datatype Axis = Axis(first: real, last: real, count: nat)
}
