/**
 The catalogue's data model: the Product record and the abstract store the
 service reads and writes. The store is a map from primary key to record; the
 relational table behind it has `Id` as its key, so in every reachable state
 each entry's `id` equals the key it is stored under (`Keyed`).
 */
module ProductModel {

  /** An optional value, standing in for the C# `null` a lookup may return. */
  datatype Option<+T> = None | Some(value: T)

  /** A catalogue entry. `price` is a decimal amount that the core only copies,
      so it is modelled as an exact `real`; `id` and `stock` are unbounded. */
  datatype Product = Product(id: int, name: string, price: real, stock: int)

  /** The product table, keyed by product id. */
  type Store = map<int, Product>

  /** Every entry is stored under its own id (the table's primary key). */
  predicate Keyed(s: Store)
  {
    forall k | k in s :: s[k].id == k
  }

  /** Some stored product carries `id` as its `Id` column. */
  predicate HasProductWithId(s: Store, id: int)
  {
    exists k | k in s :: s[k].id == id
  }

  /** No entry of the store has a negative stock. */
  predicate AllStockNonNegative(s: Store)
  {
    forall k | k in s :: s[k].stock >= 0
  }

  /** `s'` differs from `s` at most in the `stock` field of the entry at `id`:
      same keys, every other entry identical, and that entry's id, name and
      price unchanged. */
  predicate OnlyStockChanged(s: Store, s': Store, id: int)
  {
    && id in s
    && s'.Keys == s.Keys
    && s'[id].id == s[id].id
    && s'[id].name == s[id].name
    && s'[id].price == s[id].price
    && forall k | k in s && k != id :: s'[k] == s[k]
  }

  /** In a keyed store, a product id is present exactly when it is a key. */
  lemma KeyedIdsAreKeys(s: Store, id: int)
    requires Keyed(s)
    ensures HasProductWithId(s, id) <==> id in s
  {
  }

  /** A set without members is the empty set. */
  lemma EmptyWithoutMembers(ks: set<int>)
    ensures (forall x :: x !in ks) ==> ks == {}
  {
    if forall x :: x !in ks {
      assert ks == {};
    }
  }

  /** A key of a non-empty store. */
  lemma SomeKey(s: Store) returns (k: int)
    requires |s| > 0
    ensures k in s
  {
    EmptyWithoutMembers(s.Keys);
    k :| k in s.Keys;
  }
}
