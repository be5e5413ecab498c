/**
 * The acronym record both components store, and the two list operations
 * they share: the search filter and "drop every record with this key".
 * The `related` field is an array of keys in the `.js` component and a
 * free-text string in the `.jsx` one, so the record is generic in it.
 */
module Records {
  import opened Text
  import opened Lists

  datatype Record<R> = Record(acronym: string, full: string, description: string, category: string, related: R)

  /** The category given to every extracted candidate. */
  const ToReview: string := "To Review"

  /**
   * The search test: the lower-cased query occurs in the lower-cased
   * acronym, full form or description. Category and related are not searched.
   */
  predicate IsHit<R>(r: Record<R>, query: string)
    ensures IsHit(r, query) ==> |query| <= |r.acronym| || |query| <= |r.full| || |query| <= |r.description|
  {
    var q := Lower(query);
    Contains(Lower(r.acronym), q) || Contains(Lower(r.full), q) || Contains(Lower(r.description), q)
  }

  /** The test `item => ...includes(search.toLowerCase()) || ...`. */
  function HitsFor<R>(query: string): Record<R> -> bool {
    (x: Record<R>) => IsHit(x, query)
  }

  /** `acronyms.filter(item => ...includes(search.toLowerCase()) || ...)`. */
  function Search<R(!new)>(store: seq<Record<R>>, query: string): (r: seq<Record<R>>)
    ensures forall x :: x in r <==> x in store && IsHit(x, query)
  {
    Filter(store, HitsFor(query))
  }

  /** The search keeps every occurrence of a hit, drops every other record, and keeps store order. */
  lemma SearchKeepsOrder<R(!new)>(store: seq<Record<R>>, query: string)
    ensures forall x :: multiset(Search(store, query))[x] == if IsHit(x, query) then multiset(store)[x] else 0
    ensures IsSubsequence(Search(store, query), store)
  {
    FilterCounts(store, HitsFor(query));
    FilterOrder(store, HitsFor(query));
  }

  /** `list.some(existing => existing.acronym === key)`. */
  predicate HasKey<R>(store: seq<Record<R>>, key: string)
    ensures HasKey(store, key) <==> exists r :: r in store && r.acronym == key
  {
    exists i :: 0 <= i < |store| && store[i].acronym == key
  }

  /** The test `a => a.acronym === key`. */
  function KeyIs<R>(key: string): Record<R> -> bool {
    (x: Record<R>) => x.acronym == key
  }

  /** The test `a => a.acronym !== key`. */
  function KeyIsNot<R>(key: string): Record<R> -> bool {
    (x: Record<R>) => x.acronym != key
  }

  /** `list.filter(a => a.acronym !== key)`. */
  function WithoutKey<R(!new)>(xs: seq<Record<R>>, key: string): (r: seq<Record<R>>)
    ensures forall x :: x in r <==> x in xs && x.acronym != key
    ensures !HasKey(r, key)
  {
    var r := Filter(xs, KeyIsNot(key));
    assert forall i :: 0 <= i < |r| ==> r[i] in r;
    r
  }

  /** Dropping a key keeps every occurrence of the other records, in list order. */
  lemma WithoutKeyOrder<R(!new)>(xs: seq<Record<R>>, key: string)
    ensures forall x :: multiset(WithoutKey(xs, key))[x] == if x.acronym != key then multiset(xs)[x] else 0
    ensures IsSubsequence(WithoutKey(xs, key), xs)
  {
    FilterCounts(xs, KeyIsNot(key));
    FilterOrder(xs, KeyIsNot(key));
  }

  /** Dropping a key a second time changes nothing. */
  lemma WithoutKeyIdempotent<R(!new)>(xs: seq<Record<R>>, key: string)
    ensures WithoutKey(WithoutKey(xs, key), key) == WithoutKey(xs, key)
  {
    FilterIdempotent(xs, KeyIsNot(key));
  }

  /** The records carrying `key`. */
  function WithKey<R(!new)>(xs: seq<Record<R>>, key: string): (r: seq<Record<R>>)
    ensures forall x :: x in r <==> x in xs && x.acronym == key
  {
    Filter(xs, KeyIs(key))
  }

  /** Dropping a key removes exactly the records that carry it, no more. */
  lemma WithoutKeyCount<R(!new)>(xs: seq<Record<R>>, key: string)
    ensures |WithoutKey(xs, key)| == |xs| - |WithKey(xs, key)|
  {
    FilterPartition(xs, KeyIs(key), KeyIsNot(key));
  }

  /** The empty query matches every record: the whole store, in order. */
  lemma SearchEmptyQuery<R(!new)>(store: seq<Record<R>>)
    ensures Search(store, "") == store
  {
    forall x | x in store ensures IsHit(x, "") {
      ContainsTrivial(Lower(x.acronym));
    }
    FilterKeepsAll(store, x => IsHit(x, ""));
  }

  /** Every record is found by its own acronym. */
  lemma HitsOwnAcronym<R>(r: Record<R>)
    ensures IsHit(r, r.acronym)
  {
    ContainsTrivial(Lower(r.acronym));
  }

  /** Appending a record extends each search result by that record, if it matches, at the end. */
  lemma SearchAppend<R(!new)>(store: seq<Record<R>>, item: Record<R>, query: string)
    ensures Search(store + [item], query) == Search(store, query) + (if IsHit(item, query) then [item] else [])
  {
    FilterConcat(store, [item], x => IsHit(x, query));
  }

  /** A record just appended is found by searching for its acronym, as the last result. */
  lemma SearchFindsAppended<R(!new)>(store: seq<Record<R>>, item: Record<R>)
    ensures var r := Search(store + [item], item.acronym); r != [] && r[|r| - 1] == item
  {
    HitsOwnAcronym(item);
    SearchAppend(store, item, item.acronym);
  }

  /** The query's case does not matter. */
  lemma SearchIgnoresCase<R(!new)>(store: seq<Record<R>>, query: string)
    ensures Search(store, Lower(query)) == Search(store, query)
  {
    LowerIdempotent(query);
    FilterCongruent(store, x => IsHit(x, Lower(query)), x => IsHit(x, query));
  }
}
