/** Small value wrappers and sequence predicates shared by the other modules. */
module Common {

  /** An optional value: the enumeration passes return `None` for a rejected site. */
  datatype Option<+T> = None | Some(value: T)

  /** A value or an error: used where the source can raise. */
  datatype Result<+T, +E> = Success(value: T) | Failure(error: E)

  /** The empty or one-element sequence holding what an `Option` holds. */
  function OptionToSeq<T>(o: Option<T>): (r: seq<T>)
    ensures |r| <= 1
    ensures o.Some? <==> |r| == 1
    ensures o.Some? ==> r[0] == o.value
  {
    match o
    case None => []
    case Some(v) => [v]
  }

  /** No element occurs twice. */
  predicate Distinct(s: seq<nat>)
  {
    forall a, b :: 0 <= a < b < |s| ==> s[a] != s[b]
  }

  /** Each element is larger than the ones before it. */
  predicate StrictlyIncreasing(s: seq<nat>)
  {
    forall a, b :: 0 <= a < b < |s| ==> s[a] < s[b]
  }
}
