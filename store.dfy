/**
 * The `JpaRepository` behind both services: an ordered table of rows, an
 * identity counter for `save`, and `Where`, the filter every `@Query` is.
 */
module Store {
  import opened Optional
  import opened Tweet

  /** The rows of the table in insertion order, each with an id and a creation time. */
  class TweetStore {
    var rows: seq<AirdropTweet>
    var nextId: nat

    ghost predicate Valid()
      reads this
    {
      && (forall i :: 0 <= i < |rows| ==> rows[i].id.Some? && rows[i].id.value < nextId)
      && (forall i :: 0 <= i < |rows| ==> IsPersistable(rows[i]))
      && (forall i, j :: 0 <= i < j < |rows| ==> rows[i].id != rows[j].id)
    }

    constructor ()
      ensures Valid() && rows == [] && nextId == 1
    {
      rows, nextId := [], 1;
    }

    /**
     * `save` of a new entity: runs the `@PrePersist` hook, assigns the next
     * identity and appends the row; returns the managed copy.
     */
    method Save(t: AirdropTweet, now: Timestamp) returns (saved: AirdropTweet)
      requires Valid()
      requires t.id.None?
      modifies this
      ensures Valid()
      ensures saved == PrePersist(t, now).(id := Some(old(nextId)))
      ensures rows == old(rows) + [saved]
      ensures nextId == old(nextId) + 1
    {
      saved := PrePersist(t, now).(id := Some(nextId));
      rows := rows + [saved];
      nextId := nextId + 1;
    }
  }

  /** The rows of `store` that satisfy `keep`, in store order (a `SELECT ... WHERE`). */
  function Where(store: seq<AirdropTweet>, keep: AirdropTweet -> bool): (r: seq<AirdropTweet>)
    ensures forall t :: t in r <==> t in store && keep(t)
    ensures multiset(r) <= multiset(store)
  {
    if store == [] then []
    else
      var rest := Where(store[1..], keep);
      assert store == [store[0]] + store[1..];
      if keep(store[0]) then [store[0]] + rest else rest
  }

  /** Two filters that agree on every row select the same rows. */
  lemma {:induction false} WhereExtensional(store: seq<AirdropTweet>, p: AirdropTweet -> bool, q: AirdropTweet -> bool)
    requires forall t :: p(t) == q(t)
    ensures Where(store, p) == Where(store, q)
  {
    if store != [] {
      WhereExtensional(store[1..], p, q);
    }
  }

  /** A filter that rejects every row selects nothing. */
  lemma {:induction false} WhereNone(store: seq<AirdropTweet>, p: AirdropTweet -> bool)
    requires forall t :: !p(t)
    ensures Where(store, p) == []
  {
    if store != [] {
      WhereNone(store[1..], p);
    }
  }
}
