/** Values shared by the schema reader and the translator: optional values,
    outcomes, the JSON-like values a decoded record carries, Python
    truthiness, and an order-keeping filter (a list comprehension with an
    `if` clause). */
module Common {

  datatype Option<+T> = None | Some(value: T)

  /** The ways a translation run can fail. Python raises an exception in each
      case; every one of them aborts the whole run. */
  datatype Error =
    | NoObjectField    // `next(...)` finds no schema field named `object` (StopIteration)
    | MalformedSchema  // a KeyError or TypeError while probing the schema
    | WrongValueType   // a value transform applied to a value that is not a string (TypeError)
    | DecodeFailure    // the base64 or UTF-8 decoder rejected the padded text

  datatype Result<+T> = Ok(value: T) | Err(error: Error) {
    predicate IsFailure() { Err? }

    function PropagateFailure<U>(): Result<U>
      requires Err?
    {
      Err(error)
    }

    function Extract(): T
      requires Ok?
    {
      value
    }
  }

  /** A value of a decoded record field or of an emitted operation. `Ref` is
      the `{entityType, entityName}` dict built for a relation. */
  datatype Value =
    | Str(s: string)
    | Num(n: int)
    | Bool(b: bool)
    | Null
    | Ref(entityType: string, entityName: string)

  /** Python's truth value of a value, as used by `if self.options[...] and ...`. */
  predicate Truthy(v: Value) {
    match v
    case Str(s) => s != ""
    case Num(n) => n != 0
    case Bool(b) => b
    case Null => false
    case Ref(_, _) => true
  }

  /** `[x for x in xs if keep(x)]`: the elements of `xs` that `keep` accepts,
      in their original order. */
  function Filter<T>(xs: seq<T>, keep: T -> bool): (ys: seq<T>)
    ensures |ys| <= |xs|
    ensures forall y :: y in ys ==> y in xs && keep(y)
    ensures forall y :: y in xs && keep(y) ==> y in ys
  {
    if xs == [] then []
    else
      assert forall y :: y in xs ==> y == xs[0] || y in xs[1..];
      (if keep(xs[0]) then [xs[0]] else []) + Filter(xs[1..], keep)
  }

  /** Filtering a concatenation filters each part: the kept elements of an
      earlier part always precede those of a later part. */
  lemma {:induction false} FilterAppend<T>(xs: seq<T>, zs: seq<T>, keep: T -> bool)
    ensures Filter(xs + zs, keep) == Filter(xs, keep) + Filter(zs, keep)
  {
    if xs == [] {
      assert xs + zs == zs;
    } else {
      assert (xs + zs)[0] == xs[0];
      assert (xs + zs)[1..] == xs[1..] + zs;
      FilterAppend(xs[1..], zs, keep);
    }
  }
}
