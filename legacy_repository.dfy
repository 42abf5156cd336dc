/** The legacy repository: one fixed JPQL predicate over `rawText`. */
module LegacyRepository {
  import opened Optional
  import opened Text
  import opened Tweet
  import opened Store
  import opened Classification

  /** The WHERE clause of `findFilteredAirdrops`, literal by literal, on `LOWER(a.rawText)`. */
  predicate LegacyFilter(rawText: string) {
    var l := Lower(rawText);
    && (Contains(l, "follow") || Contains(l, "mint") || Contains(l, "galxe") || Contains(l, "zk") || Contains(l, "claim"))
    && !Contains(l, "scam")
    && !Contains(l, "ended")
  }

  /** `findFilteredAirdrops`: the stored rows whose text passes the fixed keyword filter. */
  function FindFilteredAirdrops(store: seq<AirdropTweet>): (r: seq<AirdropTweet>)
    ensures forall t :: t in r <==> t in store && LegacyFilter(t.rawText)
    ensures multiset(r) <= multiset(store)
  {
    Where(store, (t: AirdropTweet) => LegacyFilter(t.rawText))
  }

  /** Unfolds `anyMatch` once on a lower-case keyword. */
  lemma AnyKeywordCons(text: string, k: string, ks: seq<string>)
    requires Lower(k) == k
    ensures AnyKeyword(text, [k] + ks) == (Contains(Lower(text), k) || AnyKeyword(text, ks))
  {
    assert ([k] + ks)[1..] == ks;
  }

  /** The last three default positive keywords. */
  lemma PositiveTailUnfolds(rawText: string)
    ensures var l := Lower(rawText);
      AnyKeyword(rawText, ["galxe", "zk", "claim"]) == (Contains(l, "galxe") || Contains(l, "zk") || Contains(l, "claim"))
  {
    LowerOfLowerCase("galxe");
    LowerOfLowerCase("zk");
    LowerOfLowerCase("claim");
    AnyKeywordCons(rawText, "claim", []);
    AnyKeywordCons(rawText, "zk", ["claim"]);
    AnyKeywordCons(rawText, "galxe", ["zk", "claim"]);
  }

  /** The positive half of the query is `anyMatch` over the default positive keywords. */
  lemma DefaultPositiveUnfolds(rawText: string)
    ensures var l := Lower(rawText);
      AnyKeyword(rawText, DefaultPositive)
      == (Contains(l, "follow") || Contains(l, "mint") || Contains(l, "galxe") || Contains(l, "zk") || Contains(l, "claim"))
  {
    LowerOfLowerCase("follow");
    LowerOfLowerCase("mint");
    PositiveTailUnfolds(rawText);
    AnyKeywordCons(rawText, "mint", ["galxe", "zk", "claim"]);
    AnyKeywordCons(rawText, "follow", ["mint", "galxe", "zk", "claim"]);
    assert ["follow"] + ["mint", "galxe", "zk", "claim"] == DefaultPositive;
  }

  /** The negative half of the query is `anyMatch` over the default negative keywords. */
  lemma DefaultNegativeUnfolds(rawText: string)
    ensures var l := Lower(rawText);
      AnyKeyword(rawText, DefaultNegative) == (Contains(l, "scam") || Contains(l, "ended"))
  {
    LowerOfLowerCase("scam");
    LowerOfLowerCase("ended");
    AnyKeywordCons(rawText, "ended", []);
    AnyKeywordCons(rawText, "scam", ["ended"]);
    assert ["scam"] + ["ended"] == DefaultNegative;
  }

  /** The query's predicate is the classification with the default keyword lists. */
  lemma LegacyFilterIsClassification(rawText: string)
    ensures LegacyFilter(rawText) == IsAirdrop(Some(rawText), DefaultPositive, DefaultNegative)
  {
    DefaultPositiveUnfolds(rawText);
    DefaultNegativeUnfolds(rawText);
    if rawText == "" {
      assert Lower(rawText) == "";
      assert !Contains("", "follow") && !Contains("", "mint") && !Contains("", "galxe");
      assert !Contains("", "zk") && !Contains("", "claim");
    }
  }
}
