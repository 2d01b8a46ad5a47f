/**
 Sequences of service calls on an existing catalogue. The mutating
 operations other than AddAsync never create rows, never change a row's id,
 and keep stocks non-negative as long as no call sets or adds a negative
 amount.
 */
module ServiceTraces {
  import opened ProductModel
  import ProductService

  /** One mutating service call, with its arguments. */
  datatype Call =
    | Update(id: int, body: Product)
    | Delete(id: int)
    | DecrementStock(id: int, quantity: int)
    | AddToStock(id: int, quantity: int)

  /** The store after one call. */
  function Apply(s: Store, c: Call): Store
  {
    match c
    case Update(id, body) => ProductService.Update(s, id, body).store
    case Delete(id) => ProductService.Delete(s, id).store
    case DecrementStock(id, q) => ProductService.DecrementStock(s, id, q).store
    case AddToStock(id, q) => ProductService.AddToStock(s, id, q).store
  }

  /** The store after the calls, in order. */
  function ApplyAll(s: Store, calls: seq<Call>): Store
    decreases |calls|
  {
    if |calls| == 0 then s else ApplyAll(Apply(s, calls[0]), calls[1..])
  }

  /** A call that cannot introduce a negative stock: an update whose body
      stock is non-negative, or an addition of a non-negative amount.
      Deletes and decrements never can. */
  predicate KeepsStockNonNegative(c: Call)
  {
    match c
    case Update(_, body) => body.stock >= 0
    case AddToStock(_, q) => q >= 0
    case _ => true
  }

  /** No call creates a row, and every surviving row keeps its id. */
  lemma {:induction false} ApplyAllKeepsRowsAndIds(s: Store, calls: seq<Call>)
    ensures ApplyAll(s, calls).Keys <= s.Keys
    ensures forall k | k in ApplyAll(s, calls) :: ApplyAll(s, calls)[k].id == s[k].id
    decreases |calls|
  {
    if |calls| > 0 {
      var s1 := Apply(s, calls[0]);
      assert s1.Keys <= s.Keys;
      assert forall k | k in s1 :: s1[k].id == s[k].id;
      ApplyAllKeepsRowsAndIds(s1, calls[1..]);
    }
  }

  /** The primary-key invariant survives any sequence of calls. */
  lemma {:induction false} ApplyAllPreservesKeyed(s: Store, calls: seq<Call>)
    requires Keyed(s)
    ensures Keyed(ApplyAll(s, calls))
    decreases |calls|
  {
    if |calls| > 0 {
      var s1 := Apply(s, calls[0]);
      assert Keyed(s1);
      ApplyAllPreservesKeyed(s1, calls[1..]);
    }
  }

  /** Stocks stay non-negative under calls that cannot introduce a negative
      stock; in particular any sequence of decrements keeps them so. */
  lemma {:induction false} ApplyAllPreservesNonNegativeStock(s: Store, calls: seq<Call>)
    requires AllStockNonNegative(s)
    requires forall i | 0 <= i < |calls| :: KeepsStockNonNegative(calls[i])
    ensures AllStockNonNegative(ApplyAll(s, calls))
    decreases |calls|
  {
    if |calls| > 0 {
      var s1 := Apply(s, calls[0]);
      assert KeepsStockNonNegative(calls[0]);
      assert AllStockNonNegative(s1);
      ApplyAllPreservesNonNegativeStock(s1, calls[1..]);
    }
  }
}
