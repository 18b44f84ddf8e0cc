/** Outcomes shared by every part of the model: the failures the reader can
    run into, and a Result type for the operations that can fail. */
module Errors {

  /** The failures of the reader and patcher. Each stands for the exception the
      program raises (or, where marked, for a state the model refuses to enter). */
  datatype Error =
    | BadMagic            // the file does not start with "BLENDER"
    | Truncated           // a read came back short (struct.error on unpack)
    | MissingNul          // no NUL byte terminates a name (ValueError from bytes.index)
    | NotAscii            // a name holds a byte >= 128 (UnicodeDecodeError)
    | IndexOutOfRange     // a table index past the end of its table (IndexError)
    | BadDeclaration      // a field declaration whose brackets cannot be read (ValueError)
    | NoDna               // no DNA1 block before ENDB
    | SizeMismatch        // a typed block whose size is not struct size * count (AssertionError)
    | RecursionLimit      // an embedded struct that contains itself (RecursionError)
    | StreamExhausted     // the restore stream ran short
    | Overrun             // a pointer field reaching past its element (refused by the model)
    | WidthMismatch       // a pointer field restored whose width is not PTR_SIZE (refused by the model)
    | MissingHelper       // a call to a method the class does not define (AttributeError)

  datatype Option<T> = None | Some(value: T)

  datatype Result<T> = Ok(value: T) | Err(error: Error) {
    predicate IsFailure() { Err? }

    function PropagateFailure<U>(): Result<U>
      requires Err?
    {
      Err(error)
    }

    function Extract(): T
      requires Ok?
    {
      value
    }
  }

  /** Puts `pre` in front of the items of a successful result; a failure passes through. */
  function Prepend<T>(pre: seq<T>, r: Result<seq<T>>): Result<seq<T>>
  {
    match r
    case Err(e) => Err(e)
    case Ok(items) => Ok(pre + items)
  }

  lemma PrependAppend<T>(pre: seq<T>, x: T, r: Result<seq<T>>)
    ensures Prepend(pre, Prepend([x], r)) == Prepend(pre + [x], r)
  {
    if r.Ok? {
      assert pre + ([x] + r.value) == (pre + [x]) + r.value;
    }
  }

  /** Prepend for a result that also carries the position where reading stopped. */
  function PrependAt<T>(pre: seq<T>, r: Result<(seq<T>, nat)>): Result<(seq<T>, nat)>
  {
    match r
    case Err(e) => Err(e)
    case Ok((items, end)) => Ok((pre + items, end))
  }

  lemma PrependAtAppend<T>(pre: seq<T>, x: T, r: Result<(seq<T>, nat)>)
    ensures PrependAt(pre, PrependAt([x], r)) == PrependAt(pre + [x], r)
  {
    if r.Ok? {
      assert pre + ([x] + r.value.0) == (pre + [x]) + r.value.0;
    }
  }
}
