# Airdrop discovery core, in Dafny

This project models the core of `crypto-airdrop-discovery-api`. That core decides whether a social-media text announces a
crypto airdrop, derives a title and a task list from it, and saves it to a tweet store. It also answers the listing
queries over the stored tweets. The repository holds two versions of the service:

- The configurable starter (`airdrop-discovery-api/...`) reads its keyword lists and webhook switch from properties.
  Its `getFilteredAirdrops` merges one filtered query per positive keyword.
- The original service (`src/main/...`) uses fixed keyword lists and one fixed query.

Both versions share one classification engine (`Classification`), one title extractor (`Title`) and one task extractor
(`Tasks`, over the hand-written regular-expression matchers of `TaskPatterns`). The legacy service instantiates them with
its constant lists.

Modules, by file:

- `optional.dfy`: `Option`, for Java's `null`.
- `text.dfy`: the Java string operations the core relies on.
  - `String.trim`: strips every character `<= ' '`.
  - ASCII `toLowerCase`.
  - `contains`.
- `tweet.dfy`: the `AirdropTweet` record and its `@PrePersist` hook `onCreate`.
  - The hook is a function on the record's value.
  - It is also a method on an entity object that updates `createdAt` in place.
- `store.dfy`: the JPA repository as a class.
  - It holds the rows and an identity counter; `Save` runs the hook and assigns the id.
  - `Where` is the meaning of every `@Query` filter.
- `legacy_repository.dfy`, `api_repository.dfy`: the JPQL queries as filters over the stored rows.
  - `LIKE LOWER(CONCAT('%', k, '%'))` on `LOWER(rawText)` is containment of the lower-cased keyword.
- `classification.dfy`: the airdrop decision of `processTweet`.
- `title.dfy`: `extractTitle`.
  - `split("\\r?\\n")` with Java's removal of trailing empty strings.
  - The first non-blank trimmed line, and the cut to 100 characters plus `"..."`.
- `task_patterns.dfy`: the two regular expressions of `extractTasks`, as matchers with `java.util.regex` semantics.
  - `(?m)^\s*(?:[0-9]+\.|[•\-*])\s*(.+)$`: multiline `^` and `$`, greedy `\s*` that may cross a line break and then
    backtracks so that `.+` can match.
  - `(?i)\b<keyword>\b.{0,50}`: ASCII word boundaries. Java's `.` does not match a line terminator, so the context
    stops at the end of the line.
- `tasks.dfy`: `extractTasks`.
  - Successive `find()` calls, the `StringBuilder` loops as methods, and the null/trim result.
  - Each method is proved equal to a specification function.
- `api_service.dfy`: the configurable `AirdropDiscoveryService`.
  - `processTweet` records the webhook notification in a ghost event trace, ahead of the save.
  - `getFilteredAirdrops` has nested loops and a duplicate check, specified by `FilteredAirdrops`.
- `legacy_service.dfy`: the original `AirdropDiscoveryService`.

Where the code and its own comments disagree, the model follows the code:

- The comment on the title fallback says "first 50 characters"; the code cuts at 100.

Source paths in the table are relative to the repository root.

## Model

| member | source | states |
|---|---|---|
| Tweet.Build | src/main/java/com/azerite/cryptoairdropdiscovery/model/AirdropTweet.java:22-42 | A freshly built record has no id and no creation time, and carries exactly the given title, source, link, tasks and raw text. |
| Tweet.PrePersist | src/main/java/com/azerite/cryptoairdropdiscovery/model/AirdropTweet.java:44-49 | After the hook `createdAt` is set; an unset one becomes `now`, a set one is kept; no other field changes. |
| Tweet.TweetEntity.OnCreate | src/main/java/com/azerite/cryptoairdropdiscovery/model/AirdropTweet.java:44-49 | Updates only the `createdAt` field in place: set to `now` when it was null, otherwise unchanged; the entity's value is `PrePersist` of the old value. |
| Tweet.TweetEntity.constructor | src/main/java/com/azerite/cryptoairdropdiscovery/model/AirdropTweet.java:18-20 | The entity object holds the fields of the given record. |
| Store.TweetStore.constructor | src/main/java/com/azerite/cryptoairdropdiscovery/repository/AirdropTweetRepository.java:14 | An empty store whose identity counter starts at 1. |
| Store.TweetStore.Save | src/main/java/com/azerite/cryptoairdropdiscovery/model/AirdropTweet.java:22-24 | Saving a new record runs the pre-persist hook, assigns the next identity, and appends exactly that row. Ids stay distinct and every row has a creation time. |
| Store.Where | airdrop-discovery-api/src/main/java/com/azerite/cryptoairdropdiscovery/repository/AirdropTweetRepository.java:23 | A query returns exactly the stored rows that satisfy its predicate, as a sub-multiset of the store. |
| Store.WhereExtensional | airdrop-discovery-api/src/main/java/com/azerite/cryptoairdropdiscovery/repository/AirdropTweetRepository.java:34-42 | Two WHERE clauses that agree on every row select the same rows. |
| Store.WhereNone | airdrop-discovery-api/src/main/java/com/azerite/cryptoairdropdiscovery/repository/AirdropTweetRepository.java:37-41 | A WHERE clause that rejects every row selects nothing. |
| Text.LowerChar | airdrop-discovery-api/src/main/java/com/azerite/cryptoairdropdiscovery/service/AirdropDiscoveryService.java:57 | A lower-cased character is never upper-case; non-upper-case characters are kept; word characters stay word characters. |
| Text.Lower | airdrop-discovery-api/src/main/java/com/azerite/cryptoairdropdiscovery/service/AirdropDiscoveryService.java:57 | `toLowerCase` keeps the length and lower-cases character by character. |
| Text.LowerIdempotent | airdrop-discovery-api/src/main/java/com/azerite/cryptoairdropdiscovery/service/AirdropDiscoveryService.java:57 | Lower-casing twice is lower-casing once, so the case-insensitive test gives the same answer on text that is already lower-cased. |
| Text.LowerOfLowerCase | airdrop-discovery-api/src/main/java/com/azerite/cryptoairdropdiscovery/repository/AirdropTweetRepository.java:59-65 | Lower-casing a text without capitals changes nothing. |
| Text.MissingFirstChar | airdrop-discovery-api/src/main/java/com/azerite/cryptoairdropdiscovery/service/AirdropDiscoveryService.java:61 | A keyword whose first character never occurs in the text is not contained in it. |
| Text.Contains | airdrop-discovery-api/src/main/java/com/azerite/cryptoairdropdiscovery/service/AirdropDiscoveryService.java:57 | `String.contains`: the keyword occurs at some index of the text. |
| Text.ContainsIsSlice | airdrop-discovery-api/src/main/java/com/azerite/cryptoairdropdiscovery/service/AirdropDiscoveryService.java:57 | `contains` holds iff the keyword equals some slice of the text. |
| Text.ContainsEmpty | airdrop-discovery-api/src/main/java/com/azerite/cryptoairdropdiscovery/repository/AirdropTweetRepository.java:37-41 | The empty string is contained in every text. |
| Text.Trim | airdrop-discovery-api/src/main/java/com/azerite/cryptoairdropdiscovery/service/AirdropDiscoveryService.java:156 | `trim()` gives the empty string exactly for blank text, and is never longer than its input. Otherwise its first and last characters are ones `trim()` keeps. |
| Text.TrimIsSlice | airdrop-discovery-api/src/main/java/com/azerite/cryptoairdropdiscovery/service/AirdropDiscoveryService.java:156 | `trim()` returns a contiguous slice of its input, and everything cut off before and after that slice is blank. |
| Classification.MentionsKeyword | airdrop-discovery-api/src/main/java/com/azerite/cryptoairdropdiscovery/service/AirdropDiscoveryService.java:57-61 | The `anyMatch` lambda: the lower-cased keyword is contained in the lower-cased text. |
| Classification.AnyKeyword | airdrop-discovery-api/src/main/java/com/azerite/cryptoairdropdiscovery/service/AirdropDiscoveryService.java:56-57 | `anyMatch` holds iff some keyword of the list, lower-cased, occurs in the lower-cased text. |
| Classification.IsAirdrop | airdrop-discovery-api/src/main/java/com/azerite/cryptoairdropdiscovery/service/AirdropDiscoveryService.java:46-63 | A text is an airdrop iff it is non-null and non-empty, some positive keyword occurs in it, and no negative keyword does, all ignoring case. |
| Classification.NoPositiveKeywordsNoAirdrop | airdrop-discovery-api/src/main/java/com/azerite/cryptoairdropdiscovery/service/AirdropDiscoveryService.java:56-63 | With an empty positive list nothing is ever classified as an airdrop. |
| Classification.AnyKeywordBySet | airdrop-discovery-api/src/main/java/com/azerite/cryptoairdropdiscovery/service/AirdropDiscoveryService.java:56-61 | `anyMatch` depends only on the set of keywords, not on their order or repetition. |
| Classification.OrderIrrelevant | airdrop-discovery-api/src/main/java/com/azerite/cryptoairdropdiscovery/service/AirdropDiscoveryService.java:52-63 | The decision is the same for keyword lists with the same members. |
| Classification.CaseInsensitive | airdrop-discovery-api/src/main/java/com/azerite/cryptoairdropdiscovery/service/AirdropDiscoveryService.java:57 | Lower-casing the text first does not change the decision. |
| Classification.DefaultKeywordsLowerCase | airdrop-discovery-api/src/main/java/com/azerite/cryptoairdropdiscovery/config/AirdropDiscoveryProperties.java:45-50 | The default keywords are already lower-case. |
| Classification.NegativeKeywordBlocks | airdrop-discovery-api/src/test/java/com/azerite/cryptoairdropdiscovery/service/AirdropDiscoveryServiceTest.java:77-89 | A text containing "ended" or "scam" in any case is never an airdrop under the default lists. |
| Classification.SubstringNotWholeWord | src/main/java/com/azerite/cryptoairdropdiscovery/service/AirdropDiscoveryService.java:47-48 | Classification is substring containment, not whole words: "buzzkill" is an airdrop because it contains "zk". |
| LegacyRepository.LegacyFilter | src/main/java/com/azerite/cryptoairdropdiscovery/repository/AirdropTweetRepository.java:21-28 | The WHERE clause for one row: its lower-cased text contains one of the five literals and neither `scam` nor `ended`. |
| LegacyRepository.FindFilteredAirdrops | src/main/java/com/azerite/cryptoairdropdiscovery/repository/AirdropTweetRepository.java:21-29 | The fixed query returns exactly the stored rows passing the literal WHERE clause, as a sub-multiset of the store. |
| LegacyRepository.AnyKeywordCons | src/main/java/com/azerite/cryptoairdropdiscovery/repository/AirdropTweetRepository.java:22-26 | An OR chain of `LIKE` tests is `anyMatch` over the keyword list, one keyword at a time. |
| LegacyRepository.DefaultPositiveUnfolds | src/main/java/com/azerite/cryptoairdropdiscovery/repository/AirdropTweetRepository.java:22-26 | The five `LIKE` alternatives are `anyMatch` over the default positive list. |
| LegacyRepository.DefaultNegativeUnfolds | src/main/java/com/azerite/cryptoairdropdiscovery/repository/AirdropTweetRepository.java:27-28 | The two `NOT LIKE` tests are the negation of `anyMatch` over the default negative list. |
| LegacyRepository.LegacyFilterIsClassification | src/main/java/com/azerite/cryptoairdropdiscovery/repository/AirdropTweetRepository.java:21-28 | The query's WHERE clause accepts a row iff `processTweet` with the default lists would save its text. |
| ApiRepository.FindByKeyword | airdrop-discovery-api/src/main/java/com/azerite/cryptoairdropdiscovery/repository/AirdropTweetRepository.java:23-24 | Exactly the stored rows whose lower-cased text contains the lower-cased keyword. |
| ApiRepository.KeywordFilter | airdrop-discovery-api/src/main/java/com/azerite/cryptoairdropdiscovery/repository/AirdropTweetRepository.java:34-42 | The WHERE clause for one row: the text mentions the positive keyword and, unless the list is null, none of the five placeholders. |
| ApiRepository.FindTweetsByKeywordFiltered | airdrop-discovery-api/src/main/java/com/azerite/cryptoairdropdiscovery/repository/AirdropTweetRepository.java:34-50 | Every row returned contains the positive keyword. With a null list, exactly those rows. Otherwise exactly those rows that contain none of the five placeholders. |
| ApiRepository.NullNegativesIsKeywordSearch | airdrop-discovery-api/src/main/java/com/azerite/cryptoairdropdiscovery/repository/AirdropTweetRepository.java:36 | With a null negative list the filtered query equals `findByKeyword`. |
| ApiRepository.EmptyPlaceholderExcludesAll | airdrop-discovery-api/src/main/java/com/azerite/cryptoairdropdiscovery/repository/AirdropTweetRepository.java:37-41 | With a non-null list, an empty placeholder makes the query return nothing. |
| ApiRepository.FindFilteredAirdrops | airdrop-discovery-api/src/main/java/com/azerite/cryptoairdropdiscovery/repository/AirdropTweetRepository.java:58-66 | The fixed query returns exactly the stored rows the default classification accepts. |
| Title.NextNewline | airdrop-discovery-api/src/main/java/com/azerite/cryptoairdropdiscovery/service/AirdropDiscoveryService.java:154 | The next `\n` at or after a position, or the end. |
| Title.Pieces | airdrop-discovery-api/src/main/java/com/azerite/cryptoairdropdiscovery/service/AirdropDiscoveryService.java:154 | Splitting at `\r?\n` gives at least one piece, and no piece contains `\n`. |
| Title.PiecesRoundTrip | airdrop-discovery-api/src/main/java/com/azerite/cryptoairdropdiscovery/service/AirdropDiscoveryService.java:154 | Splitting loses nothing. The pieces, glued back together with the separators between them, give back the text. Each separator is `\r\n`, or `\n` after a piece not ending in `\r`. So the pieces are exactly the segments between the `\r?\n` matches. |
| Title.DropTrailingEmpty | airdrop-discovery-api/src/main/java/com/azerite/cryptoairdropdiscovery/service/AirdropDiscoveryService.java:154 | Removes exactly the trailing empty pieces: the result is a prefix whose last piece is non-empty, and everything dropped was empty. |
| Title.SplitLines | airdrop-discovery-api/src/main/java/com/azerite/cryptoairdropdiscovery/service/AirdropDiscoveryService.java:154 | No line contains `\n`. A text without `\n` is its own only line. Otherwise the lines are the split pieces with the trailing empty ones removed. |
| Title.Truncate | airdrop-discovery-api/src/main/java/com/azerite/cryptoairdropdiscovery/service/AirdropDiscoveryService.java:158 | At most 103 characters. A string of at most 100 is unchanged; a longer one becomes its first 100 characters plus "...". |
| Title.FirstNonBlank | airdrop-discovery-api/src/main/java/com/azerite/cryptoairdropdiscovery/service/AirdropDiscoveryService.java:155-160 | The index of the first line not made only of characters `trim()` strips, with all earlier lines blank; none when every line is blank. |
| Title.ExtractTitle | airdrop-discovery-api/src/main/java/com/azerite/cryptoairdropdiscovery/service/AirdropDiscoveryService.java:152-166 | At most 103 characters and non-empty for non-empty text. It is the truncated trim of the first non-blank line, or the truncated whole text when every line is blank. |
| Title.NonBlankPiece | airdrop-discovery-api/src/main/java/com/azerite/cryptoairdropdiscovery/service/AirdropDiscoveryService.java:154-157 | A character that `trim()` keeps lies in a non-blank piece of the split. |
| Title.FallbackOnlyForBlankText | airdrop-discovery-api/src/main/java/com/azerite/cryptoairdropdiscovery/service/AirdropDiscoveryService.java:162-165 | The whole-text fallback happens only for text made entirely of characters `trim()` strips. |
| Title.SingleLineTitle | src/main/java/com/azerite/cryptoairdropdiscovery/service/AirdropDiscoveryService.java:94-108 | A non-blank text without a line break is titled by its own trimmed, truncated self. |
| TaskPatterns.IsLineStart | airdrop-discovery-api/src/main/java/com/azerite/cryptoairdropdiscovery/service/AirdropDiscoveryService.java:178 | `(?m)^`: the start of the text, or a position after a line terminator that is not inside `\r\n`, and never the end of the text. |
| TaskPatterns.SkipSpace | airdrop-discovery-api/src/main/java/com/azerite/cryptoairdropdiscovery/service/AirdropDiscoveryService.java:178 | Greedy `\s*` consumes the maximal run of regex whitespace. |
| TaskPatterns.SkipDigits | airdrop-discovery-api/src/main/java/com/azerite/cryptoairdropdiscovery/service/AirdropDiscoveryService.java:178 | The maximal run of digits. |
| TaskPatterns.LineEnd | airdrop-discovery-api/src/main/java/com/azerite/cryptoairdropdiscovery/service/AirdropDiscoveryService.java:178 | Greedy `.*` stops at the first line terminator or at the end. |
| TaskPatterns.MarkerEnd | airdrop-discovery-api/src/main/java/com/azerite/cryptoairdropdiscovery/service/AirdropDiscoveryService.java:178 | A found marker `(?:[0-9]+\.\|[•\-*])` ends after one bullet, or after one or more digits and a dot. With no result, the position holds no bullet. |
| TaskPatterns.MarkerEndExact | airdrop-discovery-api/src/main/java/com/azerite/cryptoairdropdiscovery/service/AirdropDiscoveryService.java:178 | The marker at a position is unique. The result is a marker, and whenever some marker ends at `e`, the result is `e`. So there is no result exactly when no bullet and no digits-then-dot start there. |
| TaskPatterns.BodyStart | airdrop-discovery-api/src/main/java/com/azerite/cryptoairdropdiscovery/service/AirdropDiscoveryService.java:178 | After the backtracking `\s*`, group 1 starts at the last non-terminator the whitespace run reached; there is no match when there is none. |
| TaskPatterns.MatchTaskLine | airdrop-discovery-api/src/main/java/com/azerite/cryptoairdropdiscovery/service/AirdropDiscoveryService.java:178 | A match starts at a line start and has a non-empty group 1 free of line terminators, ending at a terminator or the end of text. |
| TaskPatterns.PrefixForced | airdrop-discovery-api/src/main/java/com/azerite/cryptoairdropdiscovery/service/AirdropDiscoveryService.java:178 | Markers are not whitespace, so in any such prefix the first `\s*` takes its greedy run. The marker is the unique one there, and the second `\s*` ends within its greedy run. |
| TaskPatterns.MatchTaskLineShape | airdrop-discovery-api/src/main/java/com/azerite/cryptoairdropdiscovery/service/AirdropDiscoveryService.java:178 | The pattern matches at a position iff it starts a line and is followed by spaces, a marker, spaces and a character other than a line terminator. Group 1 starts at the last position where such a prefix can end, which is where the backtracking second `\s*` stops. |
| TaskPatterns.FindTaskLine | airdrop-discovery-api/src/main/java/com/azerite/cryptoairdropdiscovery/service/AirdropDiscoveryService.java:181 | `find()` returns the leftmost match at or after the position, or none when no later position matches. |
| TaskPatterns.IsBoundary | airdrop-discovery-api/src/main/java/com/azerite/cryptoairdropdiscovery/service/AirdropDiscoveryService.java:188 | `\b`: a word character on exactly one side of the position. |
| TaskPatterns.MatchesIgnoringCase | airdrop-discovery-api/src/main/java/com/azerite/cryptoairdropdiscovery/service/AirdropDiscoveryService.java:188 | `(?i)` applied to the keyword: each keyword character equals the text character at the same offset, up to case. |
| TaskPatterns.MatchKeyword | airdrop-discovery-api/src/main/java/com/azerite/cryptoairdropdiscovery/service/AirdropDiscoveryService.java:188 | Matches iff there is a word boundary, the keyword ignoring case, and a boundary. The context is at most 50 characters and has no line terminator; it stops short only at a terminator or the end. |
| TaskPatterns.FindKeyword | airdrop-discovery-api/src/main/java/com/azerite/cryptoairdropdiscovery/service/AirdropDiscoveryService.java:191 | `find()` returns the leftmost keyword match at or after the position, or none when no later position matches. |
| Tasks.Render | airdrop-discovery-api/src/main/java/com/azerite/cryptoairdropdiscovery/service/AirdropDiscoveryService.java:182 | The buffer of entries each followed by `\n`: at least one character per entry, empty iff there are no entries. |
| Tasks.RenderAppend | airdrop-discovery-api/src/main/java/com/azerite/cryptoairdropdiscovery/service/AirdropDiscoveryService.java:181-194 | Appending entries in two batches gives the buffer of all of them. |
| Tasks.TaskLines | airdrop-discovery-api/src/main/java/com/azerite/cryptoairdropdiscovery/service/AirdropDiscoveryService.java:181-183 | Successive `find()` results lie within the text, in order, without overlap. |
| Tasks.TaskLinesMatch | airdrop-discovery-api/src/main/java/com/azerite/cryptoairdropdiscovery/service/AirdropDiscoveryService.java:181 | Each task line found is a match of the pattern. |
| Tasks.TaskLinesOrdered | airdrop-discovery-api/src/main/java/com/azerite/cryptoairdropdiscovery/service/AirdropDiscoveryService.java:181-183 | Task lines come in document order: each ends before any later one starts. |
| Tasks.TaskLinesComplete | airdrop-discovery-api/src/main/java/com/azerite/cryptoairdropdiscovery/service/AirdropDiscoveryService.java:181 | No match is skipped: every position where the pattern matches is found or lies inside an earlier match. |
| Tasks.TaskLineEntry | airdrop-discovery-api/src/main/java/com/azerite/cryptoairdropdiscovery/service/AirdropDiscoveryService.java:182 | A phase 1 entry starts with the dash marker. |
| Tasks.TaskLineEntries | airdrop-discovery-api/src/main/java/com/azerite/cryptoairdropdiscovery/service/AirdropDiscoveryService.java:181-183 | One entry per task line, in the same order. |
| Tasks.TaskLineStep | airdrop-discovery-api/src/main/java/com/azerite/cryptoairdropdiscovery/service/AirdropDiscoveryService.java:181-183 | One `find()` moves past the match and appends exactly its entry and a newline toward the final buffer. |
| Tasks.StructuredEntries | airdrop-discovery-api/src/main/java/com/azerite/cryptoairdropdiscovery/service/AirdropDiscoveryService.java:178-183 | Phase 1 yields one dash entry per task line. |
| Tasks.KeywordHits | airdrop-discovery-api/src/main/java/com/azerite/cryptoairdropdiscovery/service/AirdropDiscoveryService.java:191-194 | Successive keyword matches lie within the text, in order, without overlap. |
| Tasks.KeywordHitsMatch | airdrop-discovery-api/src/main/java/com/azerite/cryptoairdropdiscovery/service/AirdropDiscoveryService.java:191 | Each keyword hit found is a match of the pattern. |
| Tasks.KeywordHitsComplete | airdrop-discovery-api/src/main/java/com/azerite/cryptoairdropdiscovery/service/AirdropDiscoveryService.java:191 | No keyword match is skipped: each one is found or lies inside an earlier hit. |
| Tasks.KeywordHitEntry | airdrop-discovery-api/src/main/java/com/azerite/cryptoairdropdiscovery/service/AirdropDiscoveryService.java:192-193 | A phase 2 entry starts with the dash marker and ends with "...". |
| Tasks.KeywordHitEntries | airdrop-discovery-api/src/main/java/com/azerite/cryptoairdropdiscovery/service/AirdropDiscoveryService.java:191-194 | One entry per hit, in text order. |
| Tasks.KeywordHitStep | airdrop-discovery-api/src/main/java/com/azerite/cryptoairdropdiscovery/service/AirdropDiscoveryService.java:191-194 | One `find()` moves strictly forward and appends exactly its entry and a newline toward the final buffer. |
| Tasks.EntriesOfKeyword | airdrop-discovery-api/src/main/java/com/azerite/cryptoairdropdiscovery/service/AirdropDiscoveryService.java:188-194 | Every entry of one keyword ends with the ellipsis. |
| Tasks.KeywordEntries | airdrop-discovery-api/src/main/java/com/azerite/cryptoairdropdiscovery/service/AirdropDiscoveryService.java:187-195 | Phase 2 entries, keyword by keyword in list order, all ending with the ellipsis. |
| Tasks.KeywordEntriesAppend | airdrop-discovery-api/src/main/java/com/azerite/cryptoairdropdiscovery/service/AirdropDiscoveryService.java:187 | Phase 2 over a concatenated keyword list is phase 2 over the first part followed by the second. |
| Tasks.KeywordEntriesStep | airdrop-discovery-api/src/main/java/com/azerite/cryptoairdropdiscovery/service/AirdropDiscoveryService.java:187-195 | One more keyword appends exactly that keyword's entries. |
| Tasks.TaskEntries | airdrop-discovery-api/src/main/java/com/azerite/cryptoairdropdiscovery/service/AirdropDiscoveryService.java:186 | Phase 1 entries whenever there are any; otherwise only phase 2 entries, all ending with the ellipsis. |
| Tasks.TasksOf | airdrop-discovery-api/src/main/java/com/azerite/cryptoairdropdiscovery/service/AirdropDiscoveryService.java:198 | Null iff no entry was produced; otherwise a non-empty string starting with the dash marker. |
| Tasks.TrimKeepsFirst | airdrop-discovery-api/src/main/java/com/azerite/cryptoairdropdiscovery/service/AirdropDiscoveryService.java:198 | Trimming a buffer that starts with a kept character leaves it first. |
| Tasks.ExtractTasks | airdrop-discovery-api/src/main/java/com/azerite/cryptoairdropdiscovery/service/AirdropDiscoveryService.java:174-199 | The `StringBuilder` loops return exactly `TasksOf` of the text and keyword list. |
| Tasks.AppendTaskLines | airdrop-discovery-api/src/main/java/com/azerite/cryptoairdropdiscovery/service/AirdropDiscoveryService.java:178-183 | The phase 1 loop leaves exactly the rendered phase 1 entries in the buffer. |
| Tasks.AppendKeywordEntries | airdrop-discovery-api/src/main/java/com/azerite/cryptoairdropdiscovery/service/AirdropDiscoveryService.java:188-194 | The inner phase 2 loop appends exactly the rendered entries of that keyword. |
| Tasks.GreedySpaceMatch | airdrop-discovery-api/src/main/java/com/azerite/cryptoairdropdiscovery/service/AirdropDiscoveryService.java:178 | In `"- \n- b"` the first match starts at 0 and its group 1 is `"- b"` on the next line. |
| Tasks.GreedySpaceEntries | airdrop-discovery-api/src/main/java/com/azerite/cryptoairdropdiscovery/service/AirdropDiscoveryService.java:178-183 | `"- \n- b"` yields the single phase 1 entry `"- - b"`. |
| Tasks.GreedySpaceCrossesLine | airdrop-discovery-api/src/main/java/com/azerite/cryptoairdropdiscovery/service/AirdropDiscoveryService.java:174-199 | `extractTasks("- \n- b")` is `"- - b"`: two marker lines yield one task. |
| ApiService.WebhookEvents | airdrop-discovery-api/src/main/java/com/azerite/cryptoairdropdiscovery/service/AirdropDiscoveryService.java:82-85 | At most one notification, present iff webhooks are enabled and the URL is non-null, carrying the title and URL. |
| ApiService.Placeholder | airdrop-discovery-api/src/main/java/com/azerite/cryptoairdropdiscovery/service/AirdropDiscoveryService.java:113-117 | `neg1`..`neg5`: the `i`-th negative keyword when the list has one there, otherwise `""`. |
| ApiService.KeywordQuery | airdrop-discovery-api/src/main/java/com/azerite/cryptoairdropdiscovery/service/AirdropDiscoveryService.java:113-122 | Each per-keyword query returns only stored rows. |
| ApiService.KeywordQueryMembers | airdrop-discovery-api/src/main/java/com/azerite/cryptoairdropdiscovery/service/AirdropDiscoveryService.java:113-122 | With no negatives, or at least five, a row is returned iff it contains the keyword and none of the first five negatives. |
| ApiService.FewNegativesQueryEmpty | airdrop-discovery-api/src/main/java/com/azerite/cryptoairdropdiscovery/service/AirdropDiscoveryService.java:113-122 | With one to four negatives the "" placeholders make each per-keyword query empty. |
| ApiService.AddUnique | airdrop-discovery-api/src/main/java/com/azerite/cryptoairdropdiscovery/service/AirdropDiscoveryService.java:125-129 | Extends the results (they stay a prefix) with exactly the new rows, and keeps them duplicate-free. |
| ApiService.Collected | airdrop-discovery-api/src/main/java/com/azerite/cryptoairdropdiscovery/service/AirdropDiscoveryService.java:109-130 | The merged result has no duplicates and holds only stored rows. |
| ApiService.FilteredAirdrops | airdrop-discovery-api/src/main/java/com/azerite/cryptoairdropdiscovery/service/AirdropDiscoveryService.java:104-106 | With no positive keyword it is the fixed query: exactly the rows the default classification accepts. |
| ApiService.CollectedMembers | airdrop-discovery-api/src/main/java/com/azerite/cryptoairdropdiscovery/service/AirdropDiscoveryService.java:111-130 | A row is in the merge iff some positive keyword's query returns it. |
| ApiService.CollectedPrefix | airdrop-discovery-api/src/main/java/com/azerite/cryptoairdropdiscovery/service/AirdropDiscoveryService.java:111-130 | First-seen order: the results after the first keywords are a prefix of the final results. |
| ApiService.AnyKeywordMember | airdrop-discovery-api/src/main/java/com/azerite/cryptoairdropdiscovery/service/AirdropDiscoveryService.java:56-57 | `anyMatch` holds iff some member of the list is mentioned. |
| ApiService.NoNegativesIsKeywordUnion | airdrop-discovery-api/src/main/java/com/azerite/cryptoairdropdiscovery/service/AirdropDiscoveryService.java:111-130 | With no negatives, the listing is exactly the stored rows mentioning some positive keyword. |
| ApiService.FewNegativesListNothing | airdrop-discovery-api/src/main/java/com/azerite/cryptoairdropdiscovery/service/AirdropDiscoveryService.java:113-122 | With positive keywords and one to four negatives, the listing is empty. |
| ApiService.CollectedEmpty | airdrop-discovery-api/src/main/java/com/azerite/cryptoairdropdiscovery/service/AirdropDiscoveryService.java:111-130 | With one to four negatives, merging any keyword queries gives nothing. |
| ApiService.DefaultsListNothing | airdrop-discovery-api/src/main/java/com/azerite/cryptoairdropdiscovery/config/AirdropDiscoveryProperties.java:45-50 | Under the default properties (two negatives) the listing is always empty. |
| ApiService.KeywordQueryFirstFive | airdrop-discovery-api/src/main/java/com/azerite/cryptoairdropdiscovery/service/AirdropDiscoveryService.java:113-117 | A per-keyword query depends only on the first five negatives. |
| ApiService.CollectedFirstFive | airdrop-discovery-api/src/main/java/com/azerite/cryptoairdropdiscovery/service/AirdropDiscoveryService.java:111-122 | The merge depends only on the first five negatives. |
| ApiService.OnlyFirstFiveNegatives | airdrop-discovery-api/src/main/java/com/azerite/cryptoairdropdiscovery/service/AirdropDiscoveryService.java:113-117 | Negatives after the fifth are never consulted. |
| ApiService.SavedRowIsListed | airdrop-discovery-api/src/main/java/com/azerite/cryptoairdropdiscovery/service/AirdropDiscoveryService.java:100-133 | A stored row the same keyword lists classify as an airdrop is listed, if the negative list is empty or has at least five entries. |
| ApiService.IntendedKeywordQuery | airdrop-discovery-api/src/main/java/com/azerite/cryptoairdropdiscovery/service/AirdropDiscoveryService.java:112-122 | Corrected per-keyword query: rows containing the keyword and none of the negatives. |
| ApiService.IntendedCollected | airdrop-discovery-api/src/main/java/com/azerite/cryptoairdropdiscovery/service/AirdropDiscoveryService.java:109-130 | The corrected merge has no duplicates and holds only stored rows. |
| ApiService.IntendedFilteredAirdrops | airdrop-discovery-api/src/main/java/com/azerite/cryptoairdropdiscovery/service/AirdropDiscoveryService.java:100-133 | Corrected `getFilteredAirdrops`. With no positive keyword it keeps the fixed query, holding exactly the rows the default classification accepts. Otherwise the merge has no duplicates. |
| ApiService.IntendedMembers | airdrop-discovery-api/src/main/java/com/azerite/cryptoairdropdiscovery/service/AirdropDiscoveryService.java:111-130 | A row is in the corrected merge iff some corrected per-keyword query returns it. |
| ApiService.IntendedIsClassification | airdrop-discovery-api/src/main/java/com/azerite/cryptoairdropdiscovery/service/AirdropDiscoveryService.java:100-133 | Membership in the corrected listing, for a row with non-empty text (`processTweet` never saves another). With positive keywords, the row is listed iff it is stored and `processTweet` classifies it as an airdrop under the same lists. With none, iff the default lists of the fixed query do. |
| ApiService.AirdropDiscoveryService.constructor | airdrop-discovery-api/src/main/java/com/azerite/cryptoairdropdiscovery/service/AirdropDiscoveryService.java:31-34 | Holds the given repository and properties, with an empty event trace. |
| ApiService.AirdropDiscoveryService.ProcessTweet | airdrop-discovery-api/src/main/java/com/azerite/cryptoairdropdiscovery/service/AirdropDiscoveryService.java:45-92 | Null, empty or unclassified text returns null and changes neither the store nor the trace. Otherwise exactly one row is appended: the built record with extracted title and tasks, stamped and given the next id, and it is returned. The webhook notification, when configured, precedes the save in the trace. |
| ApiService.AirdropDiscoveryService.GetFilteredAirdrops | airdrop-discovery-api/src/main/java/com/azerite/cryptoairdropdiscovery/service/AirdropDiscoveryService.java:100-133 | The nested loops return exactly `FilteredAirdrops` of the stored rows and configured lists. |
| ApiService.AirdropDiscoveryService.QueryKeyword | airdrop-discovery-api/src/main/java/com/azerite/cryptoairdropdiscovery/service/AirdropDiscoveryService.java:113-122 | The placeholder preparation and query call return exactly `KeywordQuery`. |
| ApiService.AirdropDiscoveryService.AppendUnique | airdrop-discovery-api/src/main/java/com/azerite/cryptoairdropdiscovery/service/AirdropDiscoveryService.java:125-129 | The `contains`-guarded loop returns exactly `AddUnique`. |
| ApiService.AirdropDiscoveryService.SearchByKeyword | airdrop-discovery-api/src/main/java/com/azerite/cryptoairdropdiscovery/service/AirdropDiscoveryService.java:142-144 | Exactly the stored rows whose text contains the keyword, ignoring case. |
| LegacyService.DefaultPositiveAreWords | src/main/java/com/azerite/cryptoairdropdiscovery/service/AirdropDiscoveryService.java:26 | The fixed positive keywords are plain words, so their `\b` patterns are well-formed. |
| LegacyService.LegacyAirdropDiscoveryService.constructor | src/main/java/com/azerite/cryptoairdropdiscovery/service/AirdropDiscoveryService.java:23-29 | Holds the repository and the constant keyword lists. |
| LegacyService.LegacyAirdropDiscoveryService.ProcessTweet | src/main/java/com/azerite/cryptoairdropdiscovery/service/AirdropDiscoveryService.java:40-76 | Text the fixed lists reject returns null and saves nothing. Otherwise exactly one row is appended, the built record with extracted title and tasks, and it is returned; there is no notification path. |
| LegacyService.LegacyAirdropDiscoveryService.GetFilteredAirdrops | src/main/java/com/azerite/cryptoairdropdiscovery/service/AirdropDiscoveryService.java:84-86 | Exactly the stored rows the fixed classification accepts. |
| LegacyService.SavedRowIsListed | src/main/java/com/azerite/cryptoairdropdiscovery/service/AirdropDiscoveryService.java:54-86 | Every row the legacy service saves is listed by its `getFilteredAirdrops`. |

## Left out

- Tasks.ExtractTasks: requires every keyword to be non-empty ASCII word characters. Java splices the keyword into the regular expression unescaped, so other keywords change the pattern or make it invalid; that general regex behaviour is not modelled.
- ApiService.AirdropDiscoveryService.ProcessTweet: requires the same of the configured positive keywords, for the same reason. The constructor, `GetFilteredAirdrops` and `SearchByKeyword` accept any keywords, as the source does.
- Store.TweetStore.Save: requires a record without an id. The `merge` path of `save` for an existing id is not modelled, because the services only save fresh records.
- Store.Where: returns rows in store order. The JPQL queries have no `ORDER BY`, so a database may return any order; store order is one admissible order.
- Text.Lower: lower-cases ASCII letters only. Java's `toLowerCase` is Unicode- and locale-aware.
- TaskPatterns.MatchKeyword: `\b` counts only ASCII letters, digits and `_` as word characters. Java's `Pattern` counts every `Character.isLetterOrDigit` character. On text such as "zkä", Java finds no boundary after "zk" but the model does. Results about keyword hits hold for ASCII text.
- Text.Trim, `\s`, `\b` and the classification are modelled over characters. Supplementary characters are not treated as surrogate pairs.
- Title.Truncate: the 100-character test and the cut count code points. Java's `length()` and `substring` count UTF-16 units. A line of 95 characters holding six emoji is 101 units long, so Java cuts it (possibly inside a surrogate pair) but the model keeps it whole.
- Title.ExtractTitle: its 103-character bound and the cut it inherits from `Truncate` are counted in code points, not UTF-16 units, for the same reason.
- ApiRepository.FindByKeyword: `LIKE` treats `%` and `_` in the keyword as wildcards; the model treats the keyword literally.
- ApiRepository.FindTweetsByKeywordFiltered: the same holds for its positive keyword and its five negative placeholders. With keyword "a_c", the query returns a row "abc", but the model does not.
- `LocalDateTime.now()` is the `now` parameter of `ProcessTweet`, `Save` and `OnCreate`.
- Webhook delivery and logging: the source only logs; the model records a ghost `WebhookNotified` event. Log lines are not modelled.
- `@Transactional` rollback and read-only semantics, the JPA persistence context and entity identity are not modelled. The store holds record values, so the returned record is a copy, not the managed instance.
- Null `source` or `link` arguments, and the resulting constraint violation on `@Column(nullable = false)`: Dafny strings are never null.
- `:negativeKeywords IS NULL` on a list parameter is read as "the list is null", not as a provider-specific test on collections.
- The controllers, the auto-configuration, the `enabled` and `database.tableName` properties and application startup are not part of this model.

## Findings

| source | as written | input that shows it | evidently intended | confidence | as-written member | corrected member |
|---|---|---|---|---|---|---|
| airdrop-discovery-api/src/main/java/com/azerite/cryptoairdropdiscovery/service/AirdropDiscoveryService.java:113-122 | With positive keywords and one to four negatives, the missing negatives are passed as `""`. `NOT LIKE '%%'` then rejects every text, so nothing is ever listed | The default properties: five positive keywords, negatives `["scam", "ended"]`, any stored rows | Exclude a row only when it contains one of the configured negative keywords | high; not executed | ApiService.DefaultsListNothing | ApiService.IntendedIsClassification |

`ApiService.AirdropDiscoveryService.GetFilteredAirdrops` keeps the behaviour as written. The corrected definition
`ApiService.IntendedFilteredAirdrops` stands beside it. Its fallback for an empty positive list is unchanged.
`ApiService.IntendedIsClassification` proves that a row with non-empty text is in the corrected listing iff
`processTweet` would classify it as an airdrop.
