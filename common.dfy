/** Small value wrappers shared by every layer of the quiz API model. */
module Common {

  /** A reference that may be null: `T?` in the source. */
  datatype Option<+T> = None | Some(value: T)

  /** A nullable string (`string?` in the source). */
  type NString = Option<string>

  /**
   * What a LINQ `SingleOrDefault()` over a query yields: null when the query
   * produced nothing, the one element when it produced exactly one, and an
   * exception when it produced several.
   */
  datatype Lookup<+T> = Null | Found(value: T) | Throws

  /** LINQ `SingleOrDefault()`. */
  function SingleOrDefault<T>(xs: seq<T>): (r: Lookup<T>)
    ensures r.Null? <==> xs == []
    ensures r.Found? <==> |xs| == 1
    ensures r.Found? ==> r.value == xs[0]
    ensures r.Throws? <==> |xs| > 1
  {
    if |xs| == 0 then Null else if |xs| == 1 then Found(xs[0]) else Throws
  }

  /** Null propagation through a projection: `x == null ? null : f(x)`. */
  function MapOption<T, U>(x: Option<T>, f: T -> U): (r: Option<U>)
    ensures r.None? <==> x.None?
    ensures r.Some? ==> r.value == f(x.value)
  {
    match x
    case None => None
    case Some(v) => Some(f(v))
  }

  /** A projection applied to what `SingleOrDefault()` yields; an exception stays an exception. */
  function MapLookup<T, U>(x: Lookup<T>, f: T -> U): (r: Lookup<U>)
    ensures r.Null? <==> x.Null?
    ensures r.Throws? <==> x.Throws?
    ensures r.Found? ==> r.value == f(x.value)
  {
    match x
    case Null => Null
    case Found(v) => Found(f(v))
    case Throws => Throws
  }
}
