/** The payload values that every other component works on, after normalization
    (resource/normalize.go), and the result type of operations that can fail. */
module Payload {

  /** The fault categories that the modelled code tells apart (faults/types.go). */
  datatype Fault = Validation | NotFound | Conflict | Internal

  datatype Result<+T> = Ok(value: T) | Err(fault: Fault) {
    predicate IsFailure() {
      Err?
    }

    function PropagateFailure<U>(): Result<U>
      requires Err?
    {
      Err(fault)
    }

    function Extract(): T
      requires Ok?
    {
      value
    }
  }

  /** Also the result of the operations that fail in one way only, with a validation fault. */
  datatype Option<+T> = None | Some(value: T) {
    predicate IsFailure() {
      None?
    }

    function PropagateFailure<U>(): Option<U>
      requires None?
    {
      None
    }

    function Extract(): T
      requires Some?
    {
      value
    }
  }

  /** A normalized payload. Floats are finite reals; integers are Go's int64, whose
      width no modelled operation observes. */
  datatype Value =
    | Null
    | Bool(b: bool)
    | Int(i: int)
    | Float(f: real)
    | Str(s: string)
    | Bin(bytes: seq<int>)
    | Arr(items: seq<Value>)
    | Obj(fields: map<string, Value>)

  type Fields = map<string, Value>

  /** The largest Go int. No Go slice is longer. */
  const MAX_INT: int := 0x7fff_ffff_ffff_ffff

  /** Every array in the payload has a length that a Go slice can have. */
  ghost predicate Representable(v: Value) {
    match v
    case Arr(items) => |items| <= MAX_INT && forall x :: x in items ==> Representable(x)
    case Obj(fields) => forall k :: k in fields ==> Representable(fields[k])
    case _ => true
  }
}
