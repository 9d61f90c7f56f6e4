/** Failure-compatible Option and Result types and the error taxonomy of the codec. */
module Wrappers {

  datatype Option<+T> = None | Some(value: T) {
    function GetOr(default: T): T {
      match this
      case Some(v) => v
      case None => default
    }
  }

  /** Every way a parse or a write of the codec can fail.  Each constructor
      stands for one Python exception raised by the original code. */
  datatype Error =
    | Truncated                      // struct.unpack on a short read
    | IndexOutOfRange                // IndexError from a list or array subscript
    | MissingField(name: string)     // KeyError when a writer looks a field up
    | ShapeMismatch(name: string)    // a repeat field given a scalar, or the reverse
    | ArgumentCount                  // struct.pack given the wrong number of values
    | BadValue                       // struct.pack / int.to_bytes given a value it cannot encode
    | UndecodableText                // UnicodeDecodeError
    | SizeNotMultipleOf12(size: int) // general storage chunk whose size is not 12k
    | MissingTerminator              // mesh index stream not ending in -1
    | BadPolygonEnd(found: int)      // a polygon segment not ending in -22
    | BadReshape                     // reshape((-1, 3)) of a length that is not 3k
    | NoObject                       // objects[-1] on an empty object list
    | NoContour                      // contours[-1] on an empty contour list
    | NoMesh                         // meshes[-1] on an empty mesh list
    | UnwritableValue                // a short-pair or byte-quad written with '>f'
    | NotAnArray                     // pydantic refusing a list for an np.ndarray field

  datatype Result<+T> = Ok(value: T) | Err(error: Error) {
    predicate IsFailure() {
      Err?
    }

    function PropagateFailure<U>(): Result<U>
      requires Err?
    {
      Err(error)
    }

    function Extract(): T
      requires Ok?
    {
      value
    }
  }

  /** Python's `if not condition: raise error`. */
  datatype Check = Pass | Fail(error: Error) {
    predicate IsFailure() {
      Fail?
    }

    function PropagateFailure<U>(): Result<U>
      requires Fail?
    {
      Err(error)
    }
  }

  function Need(condition: bool, error: Error): (c: Check)
    ensures c.Pass? <==> condition
  {
    if condition then Pass else Fail(error)
  }
}
