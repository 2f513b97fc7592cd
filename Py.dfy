/** Python-level values shared by the model: Python's `None`-or-value
    results, the dynamically typed arguments the source guards with
    `is None` / `type(x) is not str`, exceptions that escape a call, and
    bytes. */
module Py {

  /** `None` or a value, as returned by the source's functions. */
  datatype Option<+T> = None | Some(value: T)

  /** An argument as the source sees it: `None`, a `str`, or any other
      object (the guards only distinguish these three cases). */
  datatype PyVal = PyNone | PyStr(s: string) | PyOther

  /** The exceptions that can escape the modelled code. */
  datatype PyException = UnicodeDecodeError

  /** A Python call either returns a value or raises an exception. */
  datatype Outcome<+T> = Returned(value: T) | Raised(exc: PyException)

  /** One byte of a `bytes` object. */
  type Byte = b: int | 0 <= b < 256

  /** A `str`-or-`None` result passed on as the next call's argument. */
  function FromOption(o: Option<string>): PyVal
  {
    match o
    case None => PyNone
    case Some(s) => PyStr(s)
  }
}
