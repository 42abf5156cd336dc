/**
 * The `AirdropTweet` entity: a persisted airdrop announcement, and its
 * `@PrePersist` hook `onCreate`, which stamps the creation time.
 */
module Tweet {
  import opened Optional

  /** An instant as read from the clock; the clock itself is a parameter. */
  datatype Timestamp = Timestamp(ticks: int)

  /**
   * The record with Lombok `@Data` value equality. `id` and `createdAt` are
   * `None` until the store persists the record; `tasks` may stay `None`.
   * title, source, link and rawText are Java strings that may not be null,
   * which a Dafny `string` never is.
   */
  datatype AirdropTweet = AirdropTweet(
    id: Option<nat>,
    title: string,
    source: string,
    link: string,
    tasks: Option<string>,
    rawText: string,
    createdAt: Option<Timestamp>)

  /** The builder call of `processTweet`: no id and no creation time yet. */
  function Build(title: string, source: string, link: string, tasks: Option<string>, rawText: string): (t: AirdropTweet)
    ensures t.id.None? && t.createdAt.None?
    ensures t.title == title && t.source == source && t.link == link
    ensures t.tasks == tasks && t.rawText == rawText
  {
    AirdropTweet(None, title, source, link, tasks, rawText, None)
  }

  /** What the database demands of a stored row: the non-null `createdAt` column is set. */
  predicate IsPersistable(t: AirdropTweet) {
    t.createdAt.Some?
  }

  /** The effect of `onCreate` on the record's value. */
  function PrePersist(t: AirdropTweet, now: Timestamp): (r: AirdropTweet)
    ensures IsPersistable(r)
    ensures t.createdAt.None? ==> r.createdAt == Some(now)
    ensures t.createdAt.Some? ==> r == t
    ensures r.(createdAt := t.createdAt) == t
  {
    if t.createdAt.None? then t.(createdAt := Some(now)) else t
  }

  /** The entity object whose field `onCreate` sets in place. */
  class TweetEntity {
    var id: Option<nat>
    var title: string
    var source: string
    var link: string
    var tasks: Option<string>
    var rawText: string
    var createdAt: Option<Timestamp>

    constructor (t: AirdropTweet)
      ensures Value() == t
    {
      id, title, source, link := t.id, t.title, t.source, t.link;
      tasks, rawText, createdAt := t.tasks, t.rawText, t.createdAt;
    }

    /** The record value held by the object's fields. */
    function Value(): AirdropTweet
      reads this
    {
      AirdropTweet(id, title, source, link, tasks, rawText, createdAt)
    }

    /** `onCreate`: sets `createdAt` to the clock reading when it is still unset. */
    method OnCreate(now: Timestamp)
      modifies this`createdAt
      ensures old(createdAt).None? ==> createdAt == Some(now)
      ensures old(createdAt).Some? ==> createdAt == old(createdAt)
      ensures Value() == PrePersist(old(Value()), now)
    {
      if createdAt.None? {
        createdAt := Some(now);
      }
    }
  }
}
