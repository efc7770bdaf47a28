/** The least-recently-used cache in front of the inline-reference extraction. */
module InlineRefCache {

  import opened Recency
  import opened Sequences

  const INLINE_REF_CACHE_LIMIT := 500

  /**
   * `extractInlineRefs` with its module-level `Map`, whose iteration order is insertion order:
   * `order` lists the keys, oldest insertion first.  `parse` stands for the extraction proper
   * and `hasMarker` for the test that a body can contain a reference at all.
   */
  class Cache<Refs> {
    const parse: string -> seq<Refs>
    const hasMarker: string -> bool
    var order: seq<string>
    var refs: map<string, seq<Refs>>
    /** The bodies that reached the cache so far. */
    ghost var history: seq<string>

    /** Every hit is what a fresh parse would give, and the keys are the most recently used
        ones, the next to be evicted first. */
    ghost predicate Valid()
      reads this
    {
      && (forall c :: c in refs <==> c in order)
      && (forall c :: c in refs ==> refs[c] == parse(c))
      && Reverse(order) == Cap(Recent(history), INLINE_REF_CACHE_LIMIT)
    }

    constructor (parse: string -> seq<Refs>, hasMarker: string -> bool)
      ensures Valid() && history == [] && this.parse == parse && this.hasMarker == hasMarker
    {
      this.parse, this.hasMarker := parse, hasMarker;
      order, refs, history := [], map[], [];
    }

    /** `Map.prototype.delete`. */
    method Delete(key: string)
      modifies this`order, this`refs
      ensures order == Without(old(order), key) && refs == old(refs) - {key}
    {
      order, refs := Without(order, key), refs - {key};
    }

    /** `Map.prototype.set`: a new key goes to the end, a known one keeps its place. */
    method Set(key: string, value: seq<Refs>)
      modifies this`order, this`refs
      ensures order == (if key in old(refs) then old(order) else old(order) + [key]) && refs == old(refs)[key := value]
    {
      if key !in refs { order := order + [key]; }
      refs := refs[key := value];
    }

    /** The cache is invisible: the answer never depends on what was asked before. */
    method ExtractInlineRefs(rawContent: string) returns (r: seq<Refs>)
      requires Valid()
      modifies this
      ensures Valid()
      ensures r == if rawContent == "" || !hasMarker(rawContent) then [] else parse(rawContent)
      ensures history == if rawContent == "" || !hasMarker(rawContent) then old(history)
              else old(history) + [rawContent]
    {
      if rawContent == "" || !hasMarker(rawContent) {
        return [];
      }
      ghost var before := order;
      PushCapped(history, rawContent, INLINE_REF_CACHE_LIMIT);
      OrderIsDistinct(before, history);
      if rawContent in refs {
        r := refs[rawContent];
        Delete(rawContent);
        Set(rawContent, r);
        HitMovesToEnd(before, rawContent);
      } else {
        r := parse(rawContent);
        Set(rawContent, r);
        MissAppends(before, rawContent);
        if |order| > INLINE_REF_CACHE_LIMIT {
          EvictFirst(order);
          Delete(order[0]);
        }
      }
      history := history + [rawContent];
    }
  }

  lemma OrderIsDistinct(order: seq<string>, history: seq<string>)
    requires Reverse(order) == Cap(Recent(history), INLINE_REF_CACHE_LIMIT)
    ensures Distinct(order) && Distinct(Reverse(order)) && |order| == |Reverse(order)| <= INLINE_REF_CACHE_LIMIT
  {
    RecentIsDistinct(history);
    ReverseKeepsDistinct(order);
    ReverseSize(order);
  }

  lemma HitMovesToEnd(order: seq<string>, key: string)
    requires Distinct(order) && key in order && |order| <= INLINE_REF_CACHE_LIMIT
    ensures var order' := Without(order, key) + [key];
            && Reverse(order') == Cap([key] + Without(Reverse(order), key), INLINE_REF_CACHE_LIMIT)
            && forall c :: c in order' <==> c in order
  {
    var rest := Without(order, key);
    assert (rest + [key])[..|rest|] == rest;
    ReverseWithout(order, key);
    WithoutKeepsDistinct(order, key);
    ReverseSize(rest);
    forall c ensures c in rest + [key] <==> c in order { WithoutMembers(order, key, c); }
  }

  lemma MissAppends(order: seq<string>, key: string)
    requires key !in order
    ensures Reverse(order + [key]) == [key] + Without(Reverse(order), key)
  {
    assert (order + [key])[..|order|] == order;
    ReverseSize(order);
    WithoutAbsent(Reverse(order), key);
  }

  /** The first key in insertion order is the least recently used; deleting it is capping. */
  lemma EvictFirst(order: seq<string>)
    requires Distinct(order) && |order| == INLINE_REF_CACHE_LIMIT + 1
    ensures Reverse(Without(order, order[0])) == Cap(Reverse(order), INLINE_REF_CACHE_LIMIT)
    ensures forall c :: c in Without(order, order[0]) <==> c in order && c != order[0]
  {
    assert order[0] !in order[1..];
    WithoutAbsent(order[1..], order[0]);
    assert Without(order, order[0]) == order[1..];
    ReverseTail(order);
    ReverseSize(order);
    forall c ensures c in Without(order, order[0]) <==> c in order && c != order[0] {
      WithoutMembers(order, order[0], c);
    }
  }

  /** After any history, the cache holds the bodies used last, at most 500 of them. */
  lemma HoldsTheLatest<Refs>(cache: Cache<Refs>, c: string)
    requires cache.Valid()
    ensures c in cache.refs <==> c in Cap(Recent(cache.history), INLINE_REF_CACHE_LIMIT)
    ensures |cache.order| <= INLINE_REF_CACHE_LIMIT
  {
    ReverseSize(cache.order);
  }

  /** Which bodies are cached: at most 500; one that was used and is not cached was used before
      all of those that are, and then the cache is full. */
  lemma CacheIs<Refs>(cache: Cache<Refs>, c: string, d: string)
    requires cache.Valid()
    ensures |cache.order| <= 500 && Distinct(cache.order) && (c in cache.refs <==> c in cache.order)
    ensures c in cache.refs ==> c in cache.history
    ensures c in cache.history && c !in cache.refs ==> |cache.order| == 500
    ensures c in cache.history && c !in cache.refs && d in cache.refs ==>
              LastUse(cache.history, d) > LastUse(cache.history, c)
  {
    CappedRecentIs(cache.history, INLINE_REF_CACHE_LIMIT);
    OrderIsDistinct(cache.order, cache.history);
    ReverseSize(cache.order);
  }
}
