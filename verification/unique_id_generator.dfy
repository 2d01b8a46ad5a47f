/**
 The unique-id allocator. A candidate id is drawn with `Random.Next(100000,
 999999)`, whose upper bound is exclusive, and redrawn until it is neither in
 the cache of recently claimed ids nor the `Id` of a stored product; the
 winner is then added to the cache and returned.

 The cache is a plain set (its ten-minute expiry is not modelled), the store
 is only read, and the random draw is either a nondeterministic choice among
 the free ids (`GenerateUniqueId`) or an explicit stream of draws consumed by
 the retry loop (`GenerateFromDraws`).
 */
module UniqueIdGenerator {
  import opened ProductModel

  /** Inclusive lower bound of `Random.Next(100000, 999999)`. */
  const MinId: int := 100000
  /** Exclusive upper bound of `Random.Next(100000, 999999)`. */
  const MaxIdExclusive: int := 999999

  /** The values the random draw can produce: 100000 through 999998. */
  predicate InRange(id: int)
  {
    MinId <= id < MaxIdExclusive
  }

  /** The loop's exit condition: the candidate is neither cached nor stored. */
  predicate Unclaimed(id: int, cache: set<int>, s: Store)
  {
    id !in cache && !HasProductWithId(s, id)
  }

  /** Some drawable id is unclaimed: without this the retry loop never exits. */
  ghost predicate SpaceAvailable(cache: set<int>, s: Store)
  {
    exists id :: InRange(id) && Unclaimed(id, cache, s)
  }

  /** What one claim promises: `id` is drawable, was unclaimed on entry, is
      not the id of any stored product, and is now in the cache. */
  ghost predicate Claimed(cache: set<int>, s: Store, id: int, cache': set<int>)
  {
    && InRange(id)
    && id !in cache
    && (forall k | k in s :: s[k].id != id)
    && cache' == cache + {id}
  }

  /** One call of the generator, with the random draw as a choice among the
      ids the loop would accept. */
  method GenerateUniqueId(cache: set<int>, s: Store) returns (id: int, cache': set<int>)
    requires SpaceAvailable(cache, s)
    ensures MinId <= id <= 999998
    ensures id !in cache
    ensures forall k | k in s :: s[k].id != id
    ensures cache' == cache + {id}
  {
    id :| InRange(id) && Unclaimed(id, cache, s);
    cache' := cache + {id};
  }

  /** The do-while retry loop over an explicit stream of random draws: it
      returns the first draw that is unclaimed, and `tries` is its index. */
  method GenerateFromDraws(cache: set<int>, s: Store, draws: seq<int>)
    returns (id: int, cache': set<int>, tries: nat)
    requires forall i | 0 <= i < |draws| :: InRange(draws[i])
    requires exists i | 0 <= i < |draws| :: Unclaimed(draws[i], cache, s)
    ensures tries < |draws| && id == draws[tries]
    ensures forall j | 0 <= j < tries :: !Unclaimed(draws[j], cache, s)
    ensures Claimed(cache, s, id, cache')
  {
    tries := 0;
    id := draws[0];
    while !Unclaimed(id, cache, s)
      invariant tries < |draws| && id == draws[tries]
      invariant forall j | 0 <= j < tries :: !Unclaimed(draws[j], cache, s)
      invariant exists i | tries <= i < |draws| :: Unclaimed(draws[i], cache, s)
      decreases |draws| - tries
    {
      tries := tries + 1;
      id := draws[tries];
    }
    cache' := cache + {id};
  }

  /** Two successive calls with no expiry in between: the first id is cached
      by the time of the second draw, so the two ids differ. */
  method GenerateTwice(cache: set<int>, s: Store)
    returns (first: int, second: int, cache'': set<int>)
    requires exists a, b :: a != b && InRange(a) && InRange(b)
                             && Unclaimed(a, cache, s) && Unclaimed(b, cache, s)
    ensures first != second
    ensures InRange(first) && InRange(second)
    ensures first !in cache && second !in cache
    ensures cache'' == cache + {first, second}
  {
    var cache';
    first, cache' := GenerateUniqueId(cache, s);
    var a, b :| a != b && InRange(a) && InRange(b)
                && Unclaimed(a, cache, s) && Unclaimed(b, cache, s);
    var c := if a != first then a else b;
    assert InRange(c) && Unclaimed(c, cache', s);
    second, cache'' := GenerateUniqueId(cache', s);
  }

  /** Whenever the retry loop over a stream of draws can finish, the choice
      model's precondition holds too, so `GenerateUniqueId` covers every
      state in which the source loop returns. */
  lemma LoopPreconditionGivesSpace(cache: set<int>, s: Store, draws: seq<int>)
    requires forall i | 0 <= i < |draws| :: InRange(draws[i])
    requires exists i | 0 <= i < |draws| :: Unclaimed(draws[i], cache, s)
    ensures SpaceAvailable(cache, s)
  {
  }

  /** The integers lo through hi - 1, as a set with its size. */
  function IdRange(lo: int, hi: int): (r: set<int>)
    requires lo <= hi
    ensures forall id :: id in r <==> lo <= id < hi
    ensures |r| == hi - lo
    decreases hi - lo
  {
    if lo == hi then {} else {lo} + IdRange(lo + 1, hi)
  }

  /** The loop is guaranteed to find an id whenever fewer than 899,999 ids
      are taken in all, counting cached ids and stored products together. */
  lemma SpaceAvailableWhenNotFull(cache: set<int>, s: Store)
    requires Keyed(s)
    requires |cache| + |s| < MaxIdExclusive - MinId
    ensures SpaceAvailable(cache, s)
  {
    var all := IdRange(MinId, MaxIdExclusive);
    var taken := cache + s.Keys;
    assert |taken| <= |cache| + |s.Keys|;
    var free := all - taken;
    assert |free| >= |all| - |taken|;
    assert |free| > 0;
    var id :| id in free;
    KeyedIdsAreKeys(s, id);
    assert InRange(id) && Unclaimed(id, cache, s);
  }
}
