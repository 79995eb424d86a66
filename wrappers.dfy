/** Option and Result, the shapes the Rust code returns from its parsers and lookups. */
module Wrappers {

  datatype Option<+T> = None | Some(value: T) {
    predicate IsFailure() { None? }

    function PropagateFailure<U>(): Option<U>
      requires None?
    {
      None
    }

    function Extract(): T
      requires Some?
    {
      value
    }
  }

  datatype Result<+R, +E> = Ok(value: R) | Err(error: E) {
    predicate IsFailure() { Err? }

    function PropagateFailure<U>(): Result<U, E>
      requires Err?
    {
      Err(error)
    }

    function Extract(): R
      requires Ok?
    {
      value
    }

    /** Converts the error, as Rust's `?` does through a `From` impl. */
    function MapErr<E2>(f: E -> E2): Result<R, E2>
    {
      match this
      case Ok(v) => Ok(v)
      case Err(e) => Err(f(e))
    }
  }

  /** `collect::<Result<Vec<_>, _>>()`: every item parsed in order, or the error of the first item that fails. */
  function CollectAll<S, T, E>(items: seq<S>, parse: S -> Result<T, E>): (r: Result<seq<T>, E>)
    ensures r.Ok? <==> forall i | 0 <= i < |items| :: parse(items[i]).Ok?
    ensures r.Ok? ==> |r.value| == |items| && forall i | 0 <= i < |items| :: parse(items[i]) == Ok(r.value[i])
  {
    if items == [] then Ok([])
    else
      var init := items[..|items| - 1];
      assert forall i | 0 <= i < |init| :: init[i] == items[i];
      match CollectAll(init, parse)
      case Err(e) => Err(e)
      case Ok(values) =>
        match parse(items[|items| - 1])
        case Err(e) => Err(e)
        case Ok(x) => Ok(values + [x])
  }

  /** A failure is the error of the first item that does not parse. */
  lemma {:induction false} CollectAllFirstError<S, T, E>(items: seq<S>, parse: S -> Result<T, E>)
    requires CollectAll(items, parse).Err?
    ensures exists i | 0 <= i < |items| :: parse(items[i]) == Err(CollectAll(items, parse).error) && forall j | 0 <= j < i :: parse(items[j]).Ok?
  {
    var init := items[..|items| - 1];
    assert forall j | 0 <= j < |init| :: items[j] == init[j];
    if CollectAll(init, parse).Err? {
      assert CollectAll(items, parse) == CollectAll(init, parse);
      CollectAllFirstError(init, parse);
      var i :| 0 <= i < |init| && parse(init[i]) == Err(CollectAll(init, parse).error) && forall j | 0 <= j < i :: parse(init[j]).Ok?;
      assert parse(items[i]) == Err(CollectAll(items, parse).error);
    } else {
      var i := |items| - 1;
      assert parse(items[i]) == Err(CollectAll(items, parse).error);
      assert forall j | 0 <= j < i :: parse(items[j]).Ok?;
    }
  }

  /** Once a prefix fails, the whole list fails with the same error. */
  lemma {:induction false} CollectAllStickyError<S, T, E>(items: seq<S>, parse: S -> Result<T, E>, n: nat)
    requires n <= |items| && CollectAll(items[..n], parse).Err?
    ensures CollectAll(items, parse) == CollectAll(items[..n], parse)
    decreases |items| - n
  {
    if n < |items| {
      assert items[..n + 1][..n] == items[..n];
      CollectAllStickyError(items, parse, n + 1);
    } else {
      assert items[..n] == items;
    }
  }

  /** Every item mapped, or `None` as soon as one of them maps to `None`. */
  function CollectSome<S, T>(items: seq<S>, f: S -> Option<T>): (r: Option<seq<T>>)
    ensures r.Some? <==> forall i | 0 <= i < |items| :: f(items[i]).Some?
    ensures r.Some? ==> |r.value| == |items| && forall i | 0 <= i < |items| :: f(items[i]) == Some(r.value[i])
  {
    if items == [] then Some([])
    else
      var init := items[..|items| - 1];
      assert forall i | 0 <= i < |init| :: init[i] == items[i];
      match CollectSome(init, f)
      case None => None
      case Some(values) =>
        match f(items[|items| - 1])
        case None => None
        case Some(x) => Some(values + [x])
  }
}
