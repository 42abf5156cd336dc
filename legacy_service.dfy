/**
 * The original `AirdropDiscoveryService`: the keyword lists are fixed
 * constants, there is no webhook, and `getFilteredAirdrops` is the fixed
 * query of the legacy repository.
 */
module LegacyService {
  import opened Optional
  import opened Text
  import opened Tweet
  import opened Store
  import opened Classification
  import opened Title
  import opened TaskPatterns
  import opened Tasks
  import LegacyRepository

  /** The default positive keywords are plain words, as the `\b` patterns need. */
  lemma DefaultPositiveAreWords()
    ensures AllWordKeywords(DefaultPositive)
  {
    forall k | 0 <= k < |DefaultPositive| ensures IsWordKeyword(DefaultPositive[k]) {
      var w := DefaultPositive[k];
      assert forall i :: 0 <= i < |w| ==> IsWordChar(w[i]);
    }
  }

  class LegacyAirdropDiscoveryService {
    const repository: TweetStore
    /** `AIRDROP_KEYWORDS` and `EXCLUSION_KEYWORDS`. */
    const airdropKeywords: seq<string>
    const exclusionKeywords: seq<string>

    ghost predicate Valid()
      reads this, repository
    {
      && repository.Valid()
      && airdropKeywords == DefaultPositive && exclusionKeywords == DefaultNegative
      && AllWordKeywords(airdropKeywords)
    }

    constructor (repository: TweetStore)
      requires repository.Valid()
      ensures Valid() && this.repository == repository
    {
      this.repository := repository;
      airdropKeywords := DefaultPositive;
      exclusionKeywords := DefaultNegative;
      new;
      DefaultPositiveAreWords();
    }

    /**
     * `processTweet`: a tweet the fixed keyword lists classify as an airdrop
     * is given a title and a task list and saved; any other tweet changes
     * nothing.
     */
    method ProcessTweet(tweetText: Option<string>, source: string, link: string, now: Timestamp)
      returns (result: Option<AirdropTweet>)
      requires Valid()
      modifies repository
      ensures Valid()
      ensures !IsAirdrop(tweetText, airdropKeywords, exclusionKeywords) ==>
        result == None && repository.rows == old(repository.rows) && repository.nextId == old(repository.nextId)
      ensures IsAirdrop(tweetText, airdropKeywords, exclusionKeywords) ==>
        var text := tweetText.value;
        var saved := PrePersist(Build(ExtractTitle(text), source, link, TasksOf(text, airdropKeywords), text), now)
                     .(id := Some(old(repository.nextId)));
        && result == Some(saved)
        && repository.rows == old(repository.rows) + [saved]
        && repository.nextId == old(repository.nextId) + 1
    {
      if tweetText.None? || tweetText.value == "" {
        return None;
      }
      var text := tweetText.value;
      var containsAirdropKeyword := AnyKeyword(text, airdropKeywords);
      var containsExclusionKeyword := AnyKeyword(text, exclusionKeywords);
      if containsAirdropKeyword && !containsExclusionKeyword {
        var title := ExtractTitle(text);
        var tasks := ExtractTasks(text, airdropKeywords);
        var airdropTweet := Build(title, source, link, tasks, text);
        var saved := repository.Save(airdropTweet, now);
        return Some(saved);
      }
      return None;
    }

    /** `getFilteredAirdrops`: the legacy repository's fixed query. */
    method GetFilteredAirdrops() returns (results: seq<AirdropTweet>)
      requires Valid()
      ensures forall t :: t in results <==> t in repository.rows && IsAirdrop(Some(t.rawText), airdropKeywords, exclusionKeywords)
      ensures multiset(results) <= multiset(repository.rows)
    {
      results := LegacyRepository.FindFilteredAirdrops(repository.rows);
      forall t | t in repository.rows
        ensures t in results <==> IsAirdrop(Some(t.rawText), airdropKeywords, exclusionKeywords)
      {
        LegacyRepository.LegacyFilterIsClassification(t.rawText);
      }
    }
  }

  /** Every row the legacy service saves is one its `getFilteredAirdrops` lists. */
  lemma SavedRowIsListed(rows: seq<AirdropTweet>, t: AirdropTweet)
    requires t in rows && IsAirdrop(Some(t.rawText), DefaultPositive, DefaultNegative)
    ensures t in LegacyRepository.FindFilteredAirdrops(rows)
  {
    LegacyRepository.LegacyFilterIsClassification(t.rawText);
  }
}
