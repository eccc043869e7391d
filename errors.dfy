/** Go's `error` results. A nil error is `None`; otherwise the result is one of the
    error values the core creates. */
module Errors {

  datatype Option<+T> = None | Some(value: T)

  /** The error values of the core: `ErrExists` is the store's exported sentinel,
      the other two are created on the spot where they are returned. */
  datatype Error = NotPartOfTrekking | TrekkingNameNotFound | ErrExists {

    /** The text Go's `Error()` method gives for each of them; it is never empty. */
    function Message(): (m: string)
      ensures |m| > 0
    {
      match this
      case NotPartOfTrekking => "not part of trekking"
      case TrekkingNameNotFound => "trekking name not found"
      case ErrExists => "name already exists"
    }
  }

  /** The three texts are pairwise distinct. The source compares `ErrExists` by identity,
      not by text, so this records a property of the literals only. */
  lemma MessagesDiffer(a: Error, b: Error)
    ensures a.Message() == b.Message() <==> a == b
  {
  }
}
