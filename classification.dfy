/**
 * The airdrop decision of `processTweet`: a text is an airdrop announcement
 * when some positive keyword occurs in it and no negative keyword does,
 * both compared on lower-cased text by plain substring containment.
 */
module Classification {
  import opened Optional
  import opened Text

  /** Default positive keywords (the configuration default and the legacy constant list). */
  const DefaultPositive: seq<string> := ["follow", "mint", "galxe", "zk", "claim"]

  /** Default negative keywords (the configuration default and the legacy constant list). */
  const DefaultNegative: seq<string> := ["scam", "ended"]

  /** `text.toLowerCase().contains(keyword.toLowerCase())` */
  predicate MentionsKeyword(text: string, keyword: string) {
    Contains(Lower(text), Lower(keyword))
  }

  /** `keywords.stream().anyMatch(...)`, scanning the list front to back. */
  function AnyKeyword(text: string, keywords: seq<string>): (r: bool)
    ensures r <==> exists k :: 0 <= k < |keywords| && MentionsKeyword(text, keywords[k])
  {
    if keywords == [] then false
    else MentionsKeyword(text, keywords[0]) || AnyKeyword(text, keywords[1..])
  }

  /**
   * The classification: null or empty text is rejected outright; otherwise
   * the text needs a positive keyword and no negative keyword.
   */
  function IsAirdrop(text: Option<string>, positive: seq<string>, negative: seq<string>): (r: bool)
    ensures r <==> && text.Some? && text.value != ""
                   && (exists k :: 0 <= k < |positive| && MentionsKeyword(text.value, positive[k]))
                   && (forall k :: 0 <= k < |negative| ==> !MentionsKeyword(text.value, negative[k]))
  {
    match text
    case None => false
    case Some(t) => t != "" && AnyKeyword(t, positive) && !AnyKeyword(t, negative)
  }

  /** With no positive keyword configured nothing is ever classified positive. */
  lemma NoPositiveKeywordsNoAirdrop(text: Option<string>, negative: seq<string>)
    ensures !IsAirdrop(text, [], negative)
  {
  }

  /** `anyMatch` depends only on the set of keywords scanned. */
  lemma {:induction false} AnyKeywordBySet(text: string, ps: seq<string>, qs: seq<string>)
    requires forall k :: k in ps <==> k in qs
    ensures AnyKeyword(text, ps) == AnyKeyword(text, qs)
  {
    if AnyKeyword(text, ps) {
      var k :| 0 <= k < |ps| && MentionsKeyword(text, ps[k]);
      assert ps[k] in qs;
      var j :| 0 <= j < |qs| && qs[j] == ps[k];
    }
    if AnyKeyword(text, qs) {
      var k :| 0 <= k < |qs| && MentionsKeyword(text, qs[k]);
      assert qs[k] in ps;
      var j :| 0 <= j < |ps| && ps[j] == qs[k];
    }
  }

  /** The decision depends only on which keywords are configured, not on their order or repetition. */
  lemma OrderIrrelevant(text: Option<string>, p1: seq<string>, n1: seq<string>, p2: seq<string>, n2: seq<string>)
    requires forall k :: k in p1 <==> k in p2
    requires forall k :: k in n1 <==> k in n2
    ensures IsAirdrop(text, p1, n1) == IsAirdrop(text, p2, n2)
  {
    if text.Some? {
      AnyKeywordBySet(text.value, p1, p2);
      AnyKeywordBySet(text.value, n1, n2);
    }
  }

  /** The decision ignores ASCII case in the text. */
  lemma CaseInsensitive(text: string, positive: seq<string>, negative: seq<string>)
    ensures IsAirdrop(Some(Lower(text)), positive, negative) == IsAirdrop(Some(text), positive, negative)
  {
    LowerIdempotent(text);
  }

  /** Keywords of the default lists are already lower-case. */
  lemma DefaultKeywordsLowerCase()
    ensures forall k :: 0 <= k < |DefaultPositive| ==> Lower(DefaultPositive[k]) == DefaultPositive[k]
    ensures forall k :: 0 <= k < |DefaultNegative| ==> Lower(DefaultNegative[k]) == DefaultNegative[k]
  {
  }

  /** "ended" or "scam" anywhere in the text, in any case, blocks the default configuration. */
  lemma NegativeKeywordBlocks(text: string)
    requires Contains(Lower(text), "ended") || Contains(Lower(text), "scam")
    ensures !IsAirdrop(Some(text), DefaultPositive, DefaultNegative)
  {
    DefaultKeywordsLowerCase();
    if Contains(Lower(text), "scam") {
      assert MentionsKeyword(text, DefaultNegative[0]);
    } else {
      assert MentionsKeyword(text, DefaultNegative[1]);
    }
  }

  /** A keyword inside a longer word still counts ("zk" in "buzzkill"): containment, not whole words. */
  lemma SubstringNotWholeWord()
    ensures IsAirdrop(Some("buzzkill"), DefaultPositive, DefaultNegative)
  {
    var t := "buzzkill";
    DefaultKeywordsLowerCase();
    assert forall c | c in t :: c == 'b' || c == 'u' || c == 'z' || c == 'k' || c == 'i' || c == 'l';
    LowerOfLowerCase(t);
    assert "zk" <= t[3..];
    assert MentionsKeyword(t, DefaultPositive[3]);
    MissingFirstChar(t, "scam");
    MissingFirstChar(t, "ended");
  }
}
