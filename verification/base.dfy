/** Shared vocabulary of the model: optional values, the failures the simulator can
    raise, and the small integer helpers the Python code takes from its builtins. */
module Base {

  /** A value that may be absent, as a Python lookup returns `None` or what it found. */
  datatype Option<+T> = None | Some(value: T)

  /** The ways the modelled code fails at run time: a dictionary lookup on a key that
      is not there (`KeyError`), a call to a method the object does not define
      (`AttributeError`), the current phase of an intersection with no phases
      (`IndexError`), and a remainder modulo a zero cycle length (`ZeroDivisionError`).
      No payload: with unordered maps the key that fails first is not determined. */
  datatype Error = MissingKey | MissingMethod | IndexOutOfRange | DivisionByZero

  /** Either the value an operation computes or the failure it raises. */
  datatype Result<+T> = Success(value: T) | Failure(error: Error)

  /** No entry of `ids` occurs twice. */
  predicate Distinct(ids: seq<string>)
  {
    forall a, b :: 0 <= a < b < |ids| ==> ids[a] != ids[b]
  }

  /** Python's `max(a, b)` on integers. */
  function Max(a: int, b: int): int
  {
    if a >= b then a else b
  }

  /** Python's `min(a, b)` on integers. */
  function Min(a: int, b: int): int
  {
    if a <= b then a else b
  }

  /** Python's `m.get(k, 0)` on a `Dict[str, int]`. */
  function GetOrZero(m: map<string, int>, k: string): int
  {
    if k in m then m[k] else 0
  }
}
