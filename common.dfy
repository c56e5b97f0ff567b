/** Definitions shared by the backend detector and the stream processor. */
module Common {

  datatype Option<+T> = None | Some(value: T)

  type ProductId = string

  /** An inbound event record: either it failed to decode, or it decoded to a
      record whose `product_id` entry may be absent. */
  datatype RawEvent = Malformed | Parsed(productId: Option<ProductId>)

  /** Both consumers skip a record with `if not product_id`: an absent key and
      an empty string are both falsy. */
  function PresentId(id: Option<ProductId>): Option<ProductId>
  {
    if id.Some? && id.value != "" then id else None
  }

  /** The product an event is counted against, if any. */
  function EventKey(ev: RawEvent): Option<ProductId>
  {
    match ev
    case Malformed => None
    case Parsed(id) => PresentId(id)
  }

  /** `root` is the non-negative square root on the non-negative reals.  It
      stands for `x ** 0.5` and `math.sqrt`, taken exactly. */
  ghost predicate IsSqrt(root: real -> real) {
    forall x :: 0.0 <= x ==> 0.0 <= root(x) && root(x) * root(x) == x
  }

  /** No element occurs twice (the keys of a Python dict, in insertion order). */
  ghost predicate Distinct<T>(s: seq<T>) {
    forall i, j :: 0 <= i < j < |s| ==> s[i] != s[j]
  }
}
