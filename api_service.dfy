/**
 * The configurable `AirdropDiscoveryService`: keyword lists and the webhook
 * switch come from the configuration properties, tweets are classified,
 * given a title and a task list and saved, and `getFilteredAirdrops` merges
 * one filtered query per positive keyword.
 */
module ApiService {
  import opened Optional
  import opened Tweet
  import opened Store
  import opened Classification
  import opened Title
  import opened Tasks
  import ApiRepository

  /** `AirdropDiscoveryProperties.Keywords`. */
  datatype Keywords = Keywords(positive: seq<string>, negative: seq<string>)

  /** `AirdropDiscoveryProperties.Integration`; a null URL is `None`. */
  datatype Integration = Integration(webhookEnabled: bool, webhookUrl: Option<string>)

  /** The parts of `AirdropDiscoveryProperties` the service reads. */
  datatype Properties = Properties(keywords: Keywords, integration: Integration)

  /** The property defaults: five positive and two negative keywords, webhook off, no URL. */
  const DefaultProperties := Properties(Keywords(DefaultPositive, DefaultNegative), Integration(false, None))

  /** What the service does outside the repository, in order. */
  datatype Event = WebhookNotified(title: string, url: string) | Saved(id: nat)

  /** The webhook notification `processTweet` sends for a tweet with this title, if any. */
  function WebhookEvents(properties: Properties, title: string): (r: seq<Event>)
    ensures |r| <= 1
    ensures r != [] <==> properties.integration.webhookEnabled && properties.integration.webhookUrl.Some?
    ensures forall e :: e in r ==> e == WebhookNotified(title, properties.integration.webhookUrl.value)
  {
    if properties.integration.webhookEnabled && properties.integration.webhookUrl.Some? then
      [WebhookNotified(title, properties.integration.webhookUrl.value)]
    else []
  }

  /** How many negative keywords the filtered query has placeholders for. */
  const NegativeSlots := 5

  /** The `i`-th negative placeholder: the keyword when the list has one there, else "". */
  function Placeholder(negative: seq<string>, i: nat): (r: string)
    ensures i < |negative| ==> r == negative[i]
    ensures i >= |negative| ==> r == ""
  {
    if |negative| > i then negative[i] else ""
  }

  /**
   * One iteration's query in `getFilteredAirdrops`: the positive keyword, the
   * list itself or null when empty, and the five placeholders.
   */
  function KeywordQuery(rows: seq<AirdropTweet>, keyword: string, negative: seq<string>): (r: seq<AirdropTweet>)
    ensures forall t :: t in r ==> t in rows
  {
    var list := if negative == [] then None else Some(negative);
    ApiRepository.FindTweetsByKeywordFiltered(rows, keyword, list,
      Placeholder(negative, 0), Placeholder(negative, 1), Placeholder(negative, 2),
      Placeholder(negative, 3), Placeholder(negative, 4))
  }

  /**
   * A row passes one keyword's query when it contains the keyword and, for a
   * list of at least five negatives, none of the first five.
   */
  lemma KeywordQueryMembers(rows: seq<AirdropTweet>, keyword: string, negative: seq<string>, t: AirdropTweet)
    requires negative == [] || |negative| >= NegativeSlots
    ensures t in KeywordQuery(rows, keyword, negative)
        <==> && t in rows && MentionsKeyword(t.rawText, keyword)
             && forall j :: 0 <= j < NegativeSlots && j < |negative| ==> !MentionsKeyword(t.rawText, negative[j])
  {
    if negative != [] {
      assert [Placeholder(negative, 0), Placeholder(negative, 1), Placeholder(negative, 2),
              Placeholder(negative, 3), Placeholder(negative, 4)] == negative[..NegativeSlots];
    }
  }

  /**
   * With one to four negative keywords an unused placeholder is "", which
   * every text contains, so the query returns nothing.
   */
  lemma FewNegativesQueryEmpty(rows: seq<AirdropTweet>, keyword: string, negative: seq<string>)
    requires 0 < |negative| < NegativeSlots
    ensures KeywordQuery(rows, keyword, negative) == []
  {
    ApiRepository.EmptyPlaceholderExcludesAll(rows, keyword, negative,
      Placeholder(negative, 0), Placeholder(negative, 1), Placeholder(negative, 2),
      Placeholder(negative, 3), Placeholder(negative, 4));
  }

  predicate NoDuplicates(s: seq<AirdropTweet>) {
    forall i, j :: 0 <= i < j < |s| ==> s[i] != s[j]
  }

  /** The inner loop: append each row of `batch` that `results` does not contain yet. */
  function AddUnique(results: seq<AirdropTweet>, batch: seq<AirdropTweet>): (r: seq<AirdropTweet>)
    ensures results <= r
    ensures forall t :: t in r <==> t in results || t in batch
    ensures NoDuplicates(results) ==> NoDuplicates(r)
  {
    if batch == [] then results
    else
      var before := AddUnique(results, batch[..|batch| - 1]);
      var t := batch[|batch| - 1];
      assert forall u :: u in batch <==> u in batch[..|batch| - 1] || u == t by {
        assert batch == batch[..|batch| - 1] + [t];
      }
      if t in before then before else before + [t]
  }

  /** The outer loop over the positive keywords, from an empty result list. */
  function Collected(rows: seq<AirdropTweet>, positive: seq<string>, negative: seq<string>): (r: seq<AirdropTweet>)
    ensures NoDuplicates(r)
    ensures forall t :: t in r ==> t in rows
  {
    if positive == [] then []
    else AddUnique(Collected(rows, positive[..|positive| - 1], negative), KeywordQuery(rows, positive[|positive| - 1], negative))
  }

  /** One more keyword merges its query's rows into what the keywords before it collected. */
  lemma CollectedStep(rows: seq<AirdropTweet>, positive: seq<string>, negative: seq<string>, i: nat)
    requires i < |positive|
    ensures Collected(rows, positive[..i + 1], negative)
            == AddUnique(Collected(rows, positive[..i], negative), KeywordQuery(rows, positive[i], negative))
  {
    assert positive[..i + 1][..i] == positive[..i];
  }

  /** What `getFilteredAirdrops` returns for the stored rows and the configured keyword lists. */
  function FilteredAirdrops(rows: seq<AirdropTweet>, positive: seq<string>, negative: seq<string>): (r: seq<AirdropTweet>)
    ensures positive == [] ==> forall t :: t in r <==> t in rows && IsAirdrop(Some(t.rawText), DefaultPositive, DefaultNegative)
  {
    if positive == [] then ApiRepository.FindFilteredAirdrops(rows) else Collected(rows, positive, negative)
  }

  /** A row is collected exactly when the query of one of the positive keywords returns it. */
  lemma {:induction false} CollectedMembers(rows: seq<AirdropTweet>, positive: seq<string>, negative: seq<string>, t: AirdropTweet)
    ensures t in Collected(rows, positive, negative)
        <==> exists kw :: kw in positive && t in KeywordQuery(rows, kw, negative)
  {
    if positive != [] {
      var init := positive[..|positive| - 1];
      var last := positive[|positive| - 1];
      assert positive == init + [last];
      CollectedMembers(rows, init, negative, t);
      assert t in Collected(rows, positive, negative) <==> t in Collected(rows, init, negative) || t in KeywordQuery(rows, last, negative);
      if exists kw :: kw in positive && t in KeywordQuery(rows, kw, negative) {
        var kw :| kw in positive && t in KeywordQuery(rows, kw, negative);
        assert kw in init || kw == last;
      }
    }
  }

  /** Results of an earlier keyword keep their place when later keywords are processed. */
  lemma {:induction false} CollectedPrefix(rows: seq<AirdropTweet>, positive: seq<string>, negative: seq<string>, n: nat)
    requires n <= |positive|
    ensures Collected(rows, positive[..n], negative) <= Collected(rows, positive, negative)
  {
    if n < |positive| {
      var init := positive[..|positive| - 1];
      assert init[..n] == positive[..n];
      CollectedPrefix(rows, init, negative, n);
    } else {
      assert positive[..n] == positive;
    }
  }

  /** `AnyKeyword` over a list is "some keyword of the list is mentioned". */
  lemma AnyKeywordMember(text: string, keywords: seq<string>)
    ensures AnyKeyword(text, keywords) <==> exists kw :: kw in keywords && MentionsKeyword(text, kw)
  {
    if AnyKeyword(text, keywords) {
      var k :| 0 <= k < |keywords| && MentionsKeyword(text, keywords[k]);
      assert keywords[k] in keywords;
    }
    if exists kw :: kw in keywords && MentionsKeyword(text, kw) {
      var kw :| kw in keywords && MentionsKeyword(text, kw);
      var k :| 0 <= k < |keywords| && keywords[k] == kw;
    }
  }

  /** With no negative keywords the result is every row containing some positive keyword. */
  lemma NoNegativesIsKeywordUnion(rows: seq<AirdropTweet>, positive: seq<string>, t: AirdropTweet)
    requires positive != []
    ensures t in FilteredAirdrops(rows, positive, [])
        <==> t in rows && exists kw :: kw in positive && MentionsKeyword(t.rawText, kw)
  {
    CollectedMembers(rows, positive, [], t);
    forall kw ensures t in KeywordQuery(rows, kw, []) <==> t in rows && MentionsKeyword(t.rawText, kw) {
      KeywordQueryMembers(rows, kw, [], t);
    }
  }

  /**
   * With one to four negative keywords the unused placeholders are "", which
   * every text contains, so every per-keyword query and the merge are empty.
   */
  lemma {:induction false} FewNegativesListNothing(rows: seq<AirdropTweet>, positive: seq<string>, negative: seq<string>)
    requires positive != [] && 0 < |negative| < NegativeSlots
    ensures FilteredAirdrops(rows, positive, negative) == []
  {
    CollectedEmpty(rows, positive, negative);
  }

  lemma {:induction false} CollectedEmpty(rows: seq<AirdropTweet>, positive: seq<string>, negative: seq<string>)
    requires 0 < |negative| < NegativeSlots
    ensures Collected(rows, positive, negative) == []
  {
    if positive != [] {
      CollectedEmpty(rows, positive[..|positive| - 1], negative);
      FewNegativesQueryEmpty(rows, positive[|positive| - 1], negative);
    }
  }

  /** In particular the default properties, with two negative keywords, list nothing. */
  lemma DefaultsListNothing(rows: seq<AirdropTweet>)
    ensures FilteredAirdrops(rows, DefaultProperties.keywords.positive, DefaultProperties.keywords.negative) == []
  {
    FewNegativesListNothing(rows, DefaultPositive, DefaultNegative);
  }

  /** One keyword's query sees only the first five negative keywords. */
  lemma KeywordQueryFirstFive(rows: seq<AirdropTweet>, keyword: string, n1: seq<string>, n2: seq<string>)
    requires |n1| >= NegativeSlots && |n2| >= NegativeSlots && n1[..NegativeSlots] == n2[..NegativeSlots]
    ensures KeywordQuery(rows, keyword, n1) == KeywordQuery(rows, keyword, n2)
  {
    forall j | 0 <= j < NegativeSlots ensures Placeholder(n1, j) == Placeholder(n2, j) {
      assert n1[..NegativeSlots][j] == n2[..NegativeSlots][j];
    }
    var list1, list2 := Some(n1), Some(n2);
    var p1, p2 := Placeholder(n1, 0), Placeholder(n1, 1);
    var p3, p4, p5 := Placeholder(n1, 2), Placeholder(n1, 3), Placeholder(n1, 4);
    WhereExtensional(rows,
      (t: AirdropTweet) => ApiRepository.KeywordFilter(t.rawText, keyword, list1, p1, p2, p3, p4, p5),
      (t: AirdropTweet) => ApiRepository.KeywordFilter(t.rawText, keyword, list2, p1, p2, p3, p4, p5));
  }

  lemma {:induction false} CollectedFirstFive(rows: seq<AirdropTweet>, positive: seq<string>, n1: seq<string>, n2: seq<string>)
    requires |n1| >= NegativeSlots && |n2| >= NegativeSlots && n1[..NegativeSlots] == n2[..NegativeSlots]
    ensures Collected(rows, positive, n1) == Collected(rows, positive, n2)
  {
    if positive != [] {
      CollectedFirstFive(rows, positive[..|positive| - 1], n1, n2);
      KeywordQueryFirstFive(rows, positive[|positive| - 1], n1, n2);
    }
  }

  /** Only the first five negative keywords reach the queries. */
  lemma OnlyFirstFiveNegatives(rows: seq<AirdropTweet>, positive: seq<string>, n1: seq<string>, n2: seq<string>)
    requires |n1| >= NegativeSlots && |n2| >= NegativeSlots && n1[..NegativeSlots] == n2[..NegativeSlots]
    ensures FilteredAirdrops(rows, positive, n1) == FilteredAirdrops(rows, positive, n2)
  {
    CollectedFirstFive(rows, positive, n1, n2);
  }

  /**
   * A row the service would save under these lists is listed again, as long
   * as the negative list is empty or has at least five entries.
   */
  lemma SavedRowIsListed(rows: seq<AirdropTweet>, positive: seq<string>, negative: seq<string>, t: AirdropTweet)
    requires t in rows && IsAirdrop(Some(t.rawText), positive, negative)
    requires |negative| == 0 || |negative| >= NegativeSlots
    ensures t in FilteredAirdrops(rows, positive, negative)
  {
    var k :| 0 <= k < |positive| && MentionsKeyword(t.rawText, positive[k]);
    KeywordQueryMembers(rows, positive[k], negative, t);
    if |negative| >= NegativeSlots {
      forall j | 0 <= j < NegativeSlots && j < |negative| ensures !MentionsKeyword(t.rawText, negative[j]) {
      }
    }
    assert t in KeywordQuery(rows, positive[k], negative);
    CollectedMembers(rows, positive, negative, t);
  }

  /**
   * The evident intent of the per-keyword query: exclude a row only when it
   * contains one of the configured negative keywords.
   */
  function IntendedKeywordQuery(rows: seq<AirdropTweet>, keyword: string, negative: seq<string>): (r: seq<AirdropTweet>)
    ensures forall t :: t in r <==> t in rows && MentionsKeyword(t.rawText, keyword) && !AnyKeyword(t.rawText, negative)
  {
    Where(rows, (t: AirdropTweet) => MentionsKeyword(t.rawText, keyword) && !AnyKeyword(t.rawText, negative))
  }

  /** The merge of the intended per-keyword queries, in keyword order. */
  function IntendedCollected(rows: seq<AirdropTweet>, positive: seq<string>, negative: seq<string>): (r: seq<AirdropTweet>)
    ensures NoDuplicates(r)
    ensures forall t :: t in r ==> t in rows
  {
    if positive == [] then []
    else AddUnique(IntendedCollected(rows, positive[..|positive| - 1], negative),
                   IntendedKeywordQuery(rows, positive[|positive| - 1], negative))
  }

  /**
   * `getFilteredAirdrops` as evidently intended: the fixed query when no
   * positive keyword is configured (unchanged), else the intended merge.
   */
  function IntendedFilteredAirdrops(rows: seq<AirdropTweet>, positive: seq<string>, negative: seq<string>): (r: seq<AirdropTweet>)
    ensures positive == [] ==> forall t :: t in r <==> t in rows && IsAirdrop(Some(t.rawText), DefaultPositive, DefaultNegative)
    ensures positive != [] ==> NoDuplicates(r)
  {
    if positive == [] then ApiRepository.FindFilteredAirdrops(rows) else IntendedCollected(rows, positive, negative)
  }

  lemma {:induction false} IntendedMembers(rows: seq<AirdropTweet>, positive: seq<string>, negative: seq<string>, t: AirdropTweet)
    ensures t in IntendedCollected(rows, positive, negative)
        <==> exists kw :: kw in positive && t in IntendedKeywordQuery(rows, kw, negative)
  {
    if positive != [] {
      var init := positive[..|positive| - 1];
      var last := positive[|positive| - 1];
      assert positive == init + [last];
      IntendedMembers(rows, init, negative, t);
      if exists kw :: kw in positive && t in IntendedKeywordQuery(rows, kw, negative) {
        var kw :| kw in positive && t in IntendedKeywordQuery(rows, kw, negative);
        assert kw in init || kw == last;
      }
    }
  }

  /**
   * The intended listing holds exactly the stored rows that `processTweet`
   * classifies as airdrops: under the configured lists, or under the default
   * lists of the fixed query when no positive keyword is configured. Rows
   * with empty text are never saved, so they are not considered.
   */
  lemma IntendedIsClassification(rows: seq<AirdropTweet>, positive: seq<string>, negative: seq<string>, t: AirdropTweet)
    requires t.rawText != ""
    ensures positive != [] ==>
      (t in IntendedFilteredAirdrops(rows, positive, negative) <==> t in rows && IsAirdrop(Some(t.rawText), positive, negative))
    ensures positive == [] ==>
      (t in IntendedFilteredAirdrops(rows, positive, negative) <==> t in rows && IsAirdrop(Some(t.rawText), DefaultPositive, DefaultNegative))
  {
    IntendedMembers(rows, positive, negative, t);
    AnyKeywordMember(t.rawText, positive);
    if t in rows && IsAirdrop(Some(t.rawText), positive, negative) {
      var kw :| kw in positive && MentionsKeyword(t.rawText, kw);
      assert t in IntendedKeywordQuery(rows, kw, negative);
    }
  }

  /** `AirdropDiscoveryService` over its repository and properties. */
  class AirdropDiscoveryService {
    const repository: TweetStore
    const properties: Properties
    /** Webhook notifications and saves, in the order they happened. */
    ghost var trace: seq<Event>

    /** The repository's invariant; the service accepts any properties. */
    ghost predicate Valid()
      reads this, repository
    {
      repository.Valid()
    }

    constructor (repository: TweetStore, properties: Properties)
      requires repository.Valid()
      ensures Valid() && this.repository == repository && this.properties == properties && trace == []
    {
      this.repository := repository;
      this.properties := properties;
      trace := [];
    }

    /**
     * `processTweet`: a tweet the configured keywords classify as an airdrop
     * is given a title and a task list, announced to the webhook when one is
     * configured, and saved; any other tweet changes nothing.
     */
    method ProcessTweet(tweetText: Option<string>, source: string, link: string, now: Timestamp)
      returns (result: Option<AirdropTweet>)
      requires Valid()
      requires AllWordKeywords(properties.keywords.positive)
      modifies this, repository
      ensures Valid()
      ensures !IsAirdrop(tweetText, properties.keywords.positive, properties.keywords.negative) ==>
        && result == None && repository.rows == old(repository.rows)
        && repository.nextId == old(repository.nextId) && trace == old(trace)
      ensures IsAirdrop(tweetText, properties.keywords.positive, properties.keywords.negative) ==>
        var text := tweetText.value;
        var title := ExtractTitle(text);
        var saved := PrePersist(Build(title, source, link, TasksOf(text, properties.keywords.positive), text), now)
                     .(id := Some(old(repository.nextId)));
        && result == Some(saved)
        && repository.rows == old(repository.rows) + [saved]
        && repository.nextId == old(repository.nextId) + 1
        && trace == old(trace) + WebhookEvents(properties, title) + [Saved(old(repository.nextId))]
    {
      if tweetText.None? || tweetText.value == "" {
        return None;
      }
      var text := tweetText.value;
      var positive := properties.keywords.positive;
      var negative := properties.keywords.negative;
      var containsAirdropKeyword := AnyKeyword(text, positive);
      var containsExclusionKeyword := AnyKeyword(text, negative);
      if containsAirdropKeyword && !containsExclusionKeyword {
        assert IsAirdrop(tweetText, positive, negative);
        var title := ExtractTitle(text);
        var tasks := ExtractTasks(text, positive);
        var airdropTweet := Build(title, source, link, tasks, text);
        if properties.integration.webhookEnabled && properties.integration.webhookUrl.Some? {
          trace := trace + [WebhookNotified(title, properties.integration.webhookUrl.value)];
        }
        assert trace == old(trace) + WebhookEvents(properties, title);
        var saved := repository.Save(airdropTweet, now);
        trace := trace + [Saved(saved.id.value)];
        return Some(saved);
      }
      return None;
    }

    /**
     * `getFilteredAirdrops`: the fixed legacy query when no positive keyword
     * is configured, otherwise the duplicate-free merge of one filtered query
     * per positive keyword, in keyword order.
     */
    method GetFilteredAirdrops() returns (results: seq<AirdropTweet>)
      requires Valid()
      ensures results == FilteredAirdrops(repository.rows, properties.keywords.positive, properties.keywords.negative)
    {
      var rows := repository.rows;
      var positive := properties.keywords.positive;
      var negative := properties.keywords.negative;
      if |positive| == 0 {
        return ApiRepository.FindFilteredAirdrops(rows);
      }
      results := [];
      for i := 0 to |positive|
        invariant results == Collected(rows, positive[..i], negative)
      {
        var keywordResults := QueryKeyword(rows, positive[i], negative);
        CollectedStep(rows, positive, negative, i);
        results := AppendUnique(results, keywordResults);
      }
      assert positive[..|positive|] == positive;
    }

    /** The body of the keyword loop up to the query: up to five negative placeholders, "" for the missing ones. */
    static method QueryKeyword(rows: seq<AirdropTweet>, positiveKeyword: string, negative: seq<string>)
      returns (keywordResults: seq<AirdropTweet>)
      ensures keywordResults == KeywordQuery(rows, positiveKeyword, negative)
    {
      var neg1 := if |negative| > 0 then negative[0] else "";
      var neg2 := if |negative| > 1 then negative[1] else "";
      var neg3 := if |negative| > 2 then negative[2] else "";
      var neg4 := if |negative| > 3 then negative[3] else "";
      var neg5 := if |negative| > 4 then negative[4] else "";
      var list := if |negative| == 0 then None else Some(negative);
      keywordResults := ApiRepository.FindTweetsByKeywordFiltered(rows, positiveKeyword, list,
                                                                  neg1, neg2, neg3, neg4, neg5);
    }

    /** The "add unique results" loop: append each row `results` does not contain yet. */
    static method AppendUnique(results: seq<AirdropTweet>, batch: seq<AirdropTweet>) returns (merged: seq<AirdropTweet>)
      ensures merged == AddUnique(results, batch)
    {
      merged := results;
      for j := 0 to |batch|
        invariant merged == AddUnique(results, batch[..j])
      {
        var tweet := batch[j];
        assert batch[..j + 1][..j] == batch[..j];
        if tweet !in merged {
          merged := merged + [tweet];
        }
      }
      assert batch[..|batch|] == batch;
    }

    /** `searchByKeyword`: the stored rows whose text contains the keyword, ignoring case. */
    method SearchByKeyword(keyword: string) returns (results: seq<AirdropTweet>)
      requires Valid()
      ensures forall t :: t in results <==> t in repository.rows && MentionsKeyword(t.rawText, keyword)
      ensures multiset(results) <= multiset(repository.rows)
    {
      results := ApiRepository.FindByKeyword(repository.rows, keyword);
    }
  }
}
