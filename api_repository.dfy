/**
 * The configurable repository's queries as filters over the stored rows.
 * `LIKE LOWER(CONCAT('%', k, '%'))` on `LOWER(a.rawText)` is containment of
 * the lower-cased keyword in the lower-cased text.
 */
module ApiRepository {
  import opened Optional
  import opened Text
  import opened Tweet
  import opened Store
  import opened Classification
  import LegacyRepository

  /** `findByKeyword`: rows whose text contains the keyword, ignoring case. */
  function FindByKeyword(store: seq<AirdropTweet>, keyword: string): (r: seq<AirdropTweet>)
    ensures forall t :: t in r <==> t in store && MentionsKeyword(t.rawText, keyword)
    ensures multiset(r) <= multiset(store)
  {
    Where(store, (t: AirdropTweet) => MentionsKeyword(t.rawText, keyword))
  }

  /** The WHERE clause of `findTweetsByKeywordFiltered` for one row's text. */
  predicate KeywordFilter(rawText: string, positiveKeyword: string, negativeKeywords: Option<seq<string>>,
                          n1: string, n2: string, n3: string, n4: string, n5: string)
  {
    && MentionsKeyword(rawText, positiveKeyword)
    && (negativeKeywords.None? ||
          (&& !MentionsKeyword(rawText, n1) && !MentionsKeyword(rawText, n2) && !MentionsKeyword(rawText, n3)
           && !MentionsKeyword(rawText, n4) && !MentionsKeyword(rawText, n5)))
  }

  /**
   * `findTweetsByKeywordFiltered`: rows containing the positive keyword and,
   * unless the negative list is null, none of the five negative placeholders.
   */
  function FindTweetsByKeywordFiltered(store: seq<AirdropTweet>, positiveKeyword: string,
                                       negativeKeywords: Option<seq<string>>,
                                       n1: string, n2: string, n3: string, n4: string, n5: string): (r: seq<AirdropTweet>)
    ensures forall t :: t in r ==> t in store && MentionsKeyword(t.rawText, positiveKeyword)
    ensures negativeKeywords.None? ==> forall t :: t in r <==> t in store && MentionsKeyword(t.rawText, positiveKeyword)
    ensures negativeKeywords.Some? ==>
      forall t :: t in r <==> && t in store && MentionsKeyword(t.rawText, positiveKeyword)
                              && (forall n :: n in [n1, n2, n3, n4, n5] ==> !MentionsKeyword(t.rawText, n))
    ensures multiset(r) <= multiset(store)
  {
    Where(store, (t: AirdropTweet) => KeywordFilter(t.rawText, positiveKeyword, negativeKeywords, n1, n2, n3, n4, n5))
  }

  /** With a null negative list the filtered query is the plain keyword search. */
  lemma NullNegativesIsKeywordSearch(store: seq<AirdropTweet>, positiveKeyword: string,
                                     n1: string, n2: string, n3: string, n4: string, n5: string)
    ensures FindTweetsByKeywordFiltered(store, positiveKeyword, None, n1, n2, n3, n4, n5) == FindByKeyword(store, positiveKeyword)
  {
    WhereExtensional(store, (t: AirdropTweet) => KeywordFilter(t.rawText, positiveKeyword, None, n1, n2, n3, n4, n5),
                     (t: AirdropTweet) => MentionsKeyword(t.rawText, positiveKeyword));
  }

  /** An empty placeholder is contained in every text, so it rejects every row. */
  lemma EmptyPlaceholderExcludesAll(store: seq<AirdropTweet>, positiveKeyword: string, negativeKeywords: seq<string>,
                                    n1: string, n2: string, n3: string, n4: string, n5: string)
    requires "" in [n1, n2, n3, n4, n5]
    ensures FindTweetsByKeywordFiltered(store, positiveKeyword, Some(negativeKeywords), n1, n2, n3, n4, n5) == []
  {
    forall t: AirdropTweet ensures !KeywordFilter(t.rawText, positiveKeyword, Some(negativeKeywords), n1, n2, n3, n4, n5) {
      ContainsEmpty(Lower(t.rawText));
      assert Lower("") == "";
    }
    WhereNone(store, (t: AirdropTweet) => KeywordFilter(t.rawText, positiveKeyword, Some(negativeKeywords), n1, n2, n3, n4, n5));
  }

  /**
   * `findFilteredAirdrops`: the same fixed predicate as the legacy repository,
   * which is the classification with the default keyword lists.
   */
  function FindFilteredAirdrops(store: seq<AirdropTweet>): (r: seq<AirdropTweet>)
    ensures forall t :: t in r <==> t in store && IsAirdrop(Some(t.rawText), DefaultPositive, DefaultNegative)
    ensures multiset(r) <= multiset(store)
  {
    forall t: AirdropTweet { LegacyRepository.LegacyFilterIsClassification(t.rawText); }
    LegacyRepository.FindFilteredAirdrops(store)
  }
}
