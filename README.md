# Therapy Q&A scraper: a verified model of its core

`main.py` defines `TherapyDataScraper`. It reads posts and their top-level
comments from eight therapy subreddits. Each comment that passes a quality
filter becomes a question/answer record: the cleaned post text, the cleaned
comment, a few keyword-derived tags, and the identifier `<post id>_<comment id>`.
A record is stored in a MongoDB collection unless a record with that
identifier is already there.

This project models that decision and text-processing layer in Dafny and
proves properties of it. It has one module per part of the scraper:

- `Text`: character classes, lower-casing, substring search, `str.split()` and `str.strip()`.
- `Cleaning`: `clean_text` and its four regular-expression passes.
- `Validation`: `is_valid_qa`.
- `Classification`: `categorize_content` (a loop, so a method), `get_therapeutic_modality`,
  `assess_complexity` and `get_modality_specific_tag`.
- `Records`: the posts and comments the scraper reads, and `extract_qa_pair`.
- `Storage`: the `qa_pairs` collection as a class with the documents it holds,
  its count-then-insert step, and the functions that specify it.
- `Scraping`: the `TherapyDataScraper` class with `scrape_subreddit` and
  `scrape_all_subreddits` as methods with loops. The three nested loops of
  `scrape_subreddit` (listings, posts, comments) are one method each:
  `ScrapeSubreddit`, `ScrapeListing` and `ScrapeComments`. Reddit is replaced by the
  listings it would serve: a `Feed` per subreddit, holding the hot, top and new listings.

The stateful operations are proved against specification functions:

- `ScrapeSubreddit` returns exactly `SubredditPairs(feed, postLimit)`.
- It leaves the store as `SaveAll(old documents, returned pairs)`.
- `ScrapeAllSubreddits` stops as `scrape_all_subreddits` does.

The lemmas then prove what these functions mean: where each record comes
from, that ids stay unique, and that a repeated offer is a no-op.

Behaviour of the code that a reader might not expect, and that the model
keeps:

- The text normalizer is not idempotent: the whitespace collapse runs before
  the special-character strip, so removing a character can leave two spaces
  side by side for a second run to collapse. `Cleaning.CleanTextNotIdempotent`
  proves this for every text such as `"a @ b"`: two word characters around
  any character that the strip removes, each separated by one space.
- Only the raw title and comment lengths are checked (main.py:84, main.py:204).
  The stored `question_text` and `answer_text` are the cleaned texts, and a
  cleaned text can be shorter than the minimum or even empty
  (`Cleaning.UrlAloneCleansToEmpty`).
- A markdown link whose target is a URL keeps its text: `"[see](https://x.org)"`
  cleans to `"see"`, not to the empty text. The URL pass runs first and, since
  `\S+` runs up to whitespace, takes `https://x.org)` with the closing
  parenthesis, so the link pass finds no link left and the character strip
  drops `[`, `]` and `(` (`Cleaning.LinkToUrlKeepsText`).
- `scrape_all_subreddits` passes `target_count // 8` to `scrape_subreddit` as
  `post_limit`, which limits posts, not records: each listing takes
  `post_limit // 3` posts. A forum's contribution is therefore not capped, and
  the stop test runs only between forums.
- The rate-limiting `time.sleep(2)` runs after every post, not after each
  listing. Delays are not modelled.
- The returned list `qa_pairs` receives each pair before the duplicate check.
  The counts that drive the stop rule therefore include records the store
  dropped as duplicates. A post served within the limit in both the hot and
  the top listing has its records returned once per listing, so each occurs
  at least twice in the list (`Scraping.RepeatedThreadCountedTwice`), while
  a store that started with unique ids holds each of their ids exactly once
  (`Scraping.RepeatedThreadStoredOnce`).

## Model

| member | source | states |
|---|---|---|
| Text.Lower | main.py:95 | lower-casing keeps the length and maps each character through the ASCII case map |
| Text.ContainsIff | main.py:95 | the scan behind `t in s` succeeds exactly when `t` occurs at some position of `s` |
| Text.ContainsAcrossSpace | main.py:126 | a keyword without a space occurs in `q + " " + a` exactly when it occurs in `q` or in `a` |
| Text.WordsOfWord | main.py:163-165 | a non-empty run without whitespace is split into exactly one word, itself |
| Text.WordsSplitAtSpace | main.py:163-165 | `split()` breaks at every whitespace character: the words of `x + c + y` are those of `x` then those of `y` |
| Text.WordsKeepNonSpaces | main.py:163-165 | the words `str.split()` returns are, concatenated, the text with its whitespace removed |
| Text.Strip | main.py:79 | `strip()` gives the middle slice of the text, with only whitespace cut from either end and no whitespace left at either end |
| Text.StripWithoutEdgeSpace | main.py:79 | text that neither starts nor ends with whitespace is left unchanged by `strip()` |
| Cleaning.UrlLength | main.py:72 | a positive length is the longest match of `http[s]?://\S+` at the front (`http` or `https`, `://`, a run of non-whitespace ending at whitespace or the end); 0 means no prefix matches |
| Cleaning.RemoveUrls | main.py:72 | the URL pass only deletes: its result is a subsequence of its input |
| Cleaning.RemoveUrlsLeavesNoUrl | main.py:72 | no match of the URL pattern starts at any position of the pass's output |
| Cleaning.RemoveUrlsWithoutScheme | main.py:72 | text without `://` is left unchanged by the URL pass |
| Cleaning.UrlLengthBeforeSpace | main.py:72 | a URL match never reaches across whitespace: the match at the front of `x`, a whitespace character and `y` is the match at the front of `x` |
| Cleaning.RemoveUrlsSplitAtSpace | main.py:72 | the URL pass treats the text on either side of a whitespace character independently and keeps that character |
| Cleaning.RemoveUrlsKeepsPrefix | main.py:72 | characters at whose positions no URL starts are kept, in order, in front of the rest of the pass's output |
| Cleaning.NoUrlBeforeParen | main.py:72 | no URL starts at a position followed by a `(` with no `:` in between |
| Cleaning.FindLinkTextEnd | main.py:74 | finds the first `](` on the current line, or reports that there is none |
| Cleaning.FindCloseParen | main.py:74 | finds the first `)` on the current line, or reports that there is none |
| Cleaning.LinkLength | main.py:74 | a positive length is a lazy match of `\[.*?\]\(.*?\)` at the start: the first `](` and then the first `)` |
| Cleaning.LinkLengthFindsEveryLink | main.py:74 | whenever any match of the link pattern starts at the front, the lazy matcher finds one |
| Cleaning.RemoveLinks | main.py:74 | the link pass only deletes: its result is a subsequence of its input |
| Cleaning.RemoveLinksLeavesNoLink | main.py:74 | no match of the link pattern starts at any position of the pass's output |
| Cleaning.RemoveLinksWithoutBracket | main.py:74 | text without `[` is left unchanged by the link pass |
| Cleaning.RemoveLinksWithoutLinkEnd | main.py:74 | text without `](` is left unchanged by the link pass |
| Cleaning.RemoveLinksWithoutParen | main.py:74 | text without `)` is left unchanged by the link pass |
| Cleaning.RemoveLinksBeforeBracket | main.py:74 | text before the first `[` is kept as it is in front of the pass's output on the rest |
| Cleaning.FindLinkTextEndBeforeNewline | main.py:74 | the search for `](` stops at a newline: what follows it does not change the result |
| Cleaning.FindCloseParenBeforeNewline | main.py:74 | the search for `)` stops at a newline: what follows it does not change the result |
| Cleaning.LinkLengthBeforeNewline | main.py:74 | `.` does not match a newline, so a link match never reaches across one |
| Cleaning.RemoveLinksSplitAtNewline | main.py:74 | the link pass treats the lines on either side of a newline independently and keeps the newline |
| Cleaning.NoUrlOrLink | main.py:72-74 | text without `:` and `[` passes both removal passes unchanged |
| Cleaning.CollapseSpaces | main.py:76 | the collapse is empty exactly for empty text, keeps whether the text starts and whether it ends with whitespace, leaves only plain spaces and never two whitespace characters in a row |
| Cleaning.CollapseWithoutSpace | main.py:76 | text without whitespace is left unchanged by the collapse |
| Cleaning.CollapseKeepsWords | main.py:76 | collapsing whitespace leaves the `split()` words unchanged |
| Cleaning.StripSpecial | main.py:78 | the strip pass only deletes, keeping the characters it keeps in their order (a subsequence); it keeps only `\w`, whitespace and `.,!?-`, and introduces no new whitespace kind |
| Cleaning.StripSpecialConcat | main.py:78 | the strip decides each character alone: the strip of a concatenation is the concatenation of the strips |
| Cleaning.StripSpecialOfKept | main.py:78 | text made only of kept characters is left unchanged by the strip |
| Cleaning.StripSpecialCounts | main.py:78 | every kept character keeps its number of occurrences, and every other character disappears |
| Cleaning.StripOfCollapsedIsClean | main.py:76-79 | the last two passes and `strip()` produce clean text |
| Cleaning.CleanText | main.py:66-79 | empty text gives empty text; the result is no longer than the input and is clean: only word characters, plain spaces and `.,!?-`, with no space at either end |
| Cleaning.CleanTextHasNoUrl | main.py:66-79 | no output of `clean_text` contains `://` or `](` |
| Cleaning.UrlAloneCleansToEmpty | main.py:68-79 | a non-empty text that is one URL cleans to the empty text |
| Cleaning.LinkAloneCleansToEmpty | main.py:68-79 | a non-empty text without `://` that is one markdown link cleans to the empty text |
| Cleaning.LinkExample | main.py:74 | `[see](here)` is one link match of length 11, and cleans to the empty text |
| Cleaning.LinkToUrlKeepsText | main.py:72-79 | a link `[w](https://d)` whose text `w` is made of word characters and whose target has no whitespace cleans to `w`, not to the empty text |
| Cleaning.CleanTextFirstRun | main.py:66-79 | any character that the strip removes, between two spaced word characters, as in `"a @ b"` or `"a : b"`, cleans to `"a  b"`, with two spaces |
| Cleaning.CleanTextSecondRun | main.py:66-79 | two word characters separated by two spaces, as in `"a  b"`, clean to `"a b"` |
| Cleaning.CleanTextNotIdempotent | main.py:66-79 | cleaning twice can differ from cleaning once |
| Validation.IsValidQa | main.py:81-97 | a title under 20 characters, a comment under 50 characters, or a removal marker in the self text or the comment means rejection |
| Validation.IsValidQaIff | main.py:84-97 | a pair is accepted exactly when both lengths are met, no removal marker occurs, and a question indicator occurs in the lower-cased title |
| Validation.TitleCaseIgnored | main.py:95 | upper- and lower-case titles are judged alike |
| Validation.QuestionMarkSuffices | main.py:81-97 | a `?` anywhere in a title of at least 20 characters, with a comment of at least 50 characters and no removal marker in the self text or the comment, is accepted |
| Classification.CategorizeContent | main.py:99-116 | the loop returns exactly the categories of the fixed table whose keywords occur in the lower-cased text, in table order |
| Classification.MatchingCategoriesIff | main.py:112-114 | a category name is listed exactly when some table entry with that name has a keyword in the text |
| Classification.MatchingCategoriesOrdered | main.py:112-114 | the listed categories keep the table's order |
| Classification.MatchingCategoriesNoDuplicates | main.py:112-114 | with distinct table names, no category is listed twice |
| Classification.CategoryNamesDistinct | main.py:103-109 | the five category names are distinct |
| Classification.CategoriesOfText | main.py:99-116 | for the scraper's table: no duplicates, table order, and each category is listed exactly when one of its keywords occurs |
| Classification.TherapeuticModality | main.py:151-159 | CBT exactly when `cbt` occurs in either lower-cased text; Unknown exactly when neither `cbt` nor `dbt` occurs; DBT otherwise |
| Classification.ModalityOfJoinedText | main.py:153-156 | the modality of the two texts is the modality of their space-joined text |
| Classification.ModalityImpliesTherapyCategory | main.py:153-156 | a recognised modality puts `therapy_types` among the categories of the joined text |
| Classification.AssessComplexity | main.py:161-168 | Low exactly when the question has under 30 words and the answer under 100; High exactly when the question has 50 or more words or the answer 200 or more |
| Classification.ComplexityMonotone | main.py:163-168 | more words never give a lower tier |
| Classification.ComplexityBoundaries | main.py:163-168 | the tier changes at 30/100 and at 50/200 words |
| Classification.ModalitySpecificTag | main.py:170-176 | "Parts Work" exactly when `parts` occurs in either lower-cased text |
| Classification.TagOfJoinedText | main.py:172 | the tag can be read off the space-joined text |
| Records.QuestionId | main.py:129 | the id is the post id, `_`, then the comment id |
| Records.SplitQuestionId | main.py:129 | any split of an id at its first `_` gives back the two parts |
| Records.SplitQuestionIdRoundTrip | main.py:129 | a post id without `_` is recovered from the id, and so is the comment id |
| Records.QuestionIdInjective | main.py:129 | for post ids without `_`, as Reddit's base-36 ids are, different post/comment pairs get different ids |
| Records.QuestionSource | main.py:121 | the question is the title when the self text is empty, and otherwise the title, `"\n\n"`, then the self text |
| Records.QuestionSourceWords | main.py:121 | the blank line separates: the question's words are the title's words followed by the self text's |
| Records.ExtractQaPair | main.py:118-149 | the id is `post_comment`; the question is the cleaned question source and the answer the cleaned comment body, both clean and no longer than their sources; modality, complexity and tag are computed from the cleaned texts; subreddit, source `reddit`, creation time and the `https://reddit.com` permalink URL |
| Records.RecordTextsHaveNoUrl | main.py:122-124 | neither stored text carries a URL scheme `://` or markdown link syntax `](` |
| Records.RecordModalityImpliesTherapyCategory | main.py:126-130 | a record with a modality would be categorized under `therapy_types` |
| Storage.CountWithId | main.py:212 | the count is zero exactly when no stored document has the id |
| Storage.SaveIfAbsentEffect | main.py:212-215 | the record is appended exactly when its id is absent, and otherwise nothing changes |
| Storage.SaveIfAbsentKeepsUnique | main.py:212-213 | count-then-insert keeps ids unique |
| Storage.UniqueCountAtMostOne | main.py:212 | with unique ids, no id is counted more than once |
| Storage.SaveTwice | main.py:212-215 | inserting the same id twice stores one record; the second attempt is a no-op |
| Storage.SaveAllKeepsUniqueAndPrefix | main.py:211-215 | a batch of inserts keeps ids unique, keeps the earlier documents in place, and adds at most one document per offer |
| Storage.SaveAllIds | main.py:212-213 | after a batch, an id is stored exactly when it was stored before or came in the batch |
| Storage.SaveAllPresent | main.py:212-215 | a batch whose ids are all stored changes nothing |
| Storage.SaveAllTwice | main.py:212-215 | offering the same batch twice stores it once |
| Storage.SaveAllConcat | main.py:211-215 | two batches in turn store what their concatenation stores |
| Storage.QaCollection.constructor | main.py:31 | a new collection holds no documents |
| Storage.QaCollection.CountDocuments | main.py:212 | the count is zero exactly when no document has the id |
| Storage.QaCollection.InsertOne | main.py:213 | the record is appended and nothing else changes |
| Scraping.ListingLimit | main.py:189-194 | `post_limit // 3` is the floor of a third |
| Scraping.PairsPerSubreddit | main.py:235 | `target_count // 8` is the floor of an eighth |
| Scraping.Take | main.py:189-194 | a listing with limit `n` serves its first `n` posts, and none when `n` is not positive |
| Scraping.CommentPairsSource | main.py:202-208 | each returned record was built from an admitted comment of the post |
| Scraping.CommentPairsComplete | main.py:202-208 | each admitted comment's record is returned |
| Scraping.CommentPairsIff | main.py:202-208 | a record is returned for a post exactly when one of its comments passes every filter and builds it |
| Scraping.ListingPairsProvenance | main.py:196-208 | each record of a listing comes from an admitted comment of a listed, eligible post, and its id is that post id `_` comment id |
| Scraping.ListingPairsComplete | main.py:195-208 | each admitted comment of an eligible listed post gives its record in the listing's records |
| Scraping.ListingPairsIff | main.py:195-208 | a record is among a listing's records exactly when an admitted comment of an eligible listed post builds it |
| Scraping.IneligibleThreadYieldsNothing | main.py:196 | a pinned post or one without comments contributes nothing |
| Scraping.PostsPerSubredditBound | main.py:189-194 | for a `post_limit` that is not negative, the three listings together show at most `post_limit` posts |
| Scraping.ListingPairsConcat | main.py:195-208 | the records of a listing are those of its parts, in order |
| Scraping.CommentPairsCount | main.py:201-208 | a post gives exactly one record per admitted comment: the list's length is the number of admitted comments |
| Scraping.SubredditPairsSplit | main.py:187-208 | the loop over the listing kinds hot, top and new, each listing cut to `post_limit // 3`, gives exactly `SubredditPairs`: hot's records, then top's, then new's |
| Scraping.RepeatedThreadCountedTwice | main.py:187-209 | a post served within the limit in both hot and top has its records returned once per listing, in place, so each of them occurs at least twice in the returned list |
| Scraping.RepeatedThreadStoredOnce | main.py:187-215 | whatever else the listings serve, a post served within the limit in both hot and top leaves each of its records' ids stored exactly once, starting from a store with unique ids |
| Scraping.RunPairsPrefix | main.py:237-239 | the records of fewer subreddits are a prefix of those of more |
| Scraping.EarlierTotalsBelowTarget | main.py:237-243 | when the total before the last scraped subreddit is below the target, every earlier total is too |
| Scraping.TherapyDataScraper.constructor | main.py:24-53 | a new scraper has a fresh, empty collection |
| Scraping.TherapyDataScraper.ScrapeSubreddit | main.py:178-230 | returns exactly the records of the admitted comments of eligible posts, listing by listing with each cut to `post_limit // 3`; the store becomes the count-then-insert of those records into the old store |
| Scraping.TherapyDataScraper.ScrapeListing | main.py:195-208 | the post loop returns exactly the records of the admitted comments of the listing's eligible posts, in order; the store becomes the count-then-insert of those records into the old store |
| Scraping.TherapyDataScraper.ScrapeComments | main.py:201-215 | the comment loop of one post returns exactly the records of its admitted comments, in comment order, and inserts each one whose id is not yet stored |
| Scraping.TherapyDataScraper.ScrapeAllSubreddits | main.py:232-249 | scrapes subreddits in order with `target_count // 8`; stops after the first whose running total reaches the target, or after all eight; returns that total; the store holds the count-then-insert of every returned record |

## Left out

- Connection setup and index creation (main.py:26-64): the MongoDB client, `server_info()`,
  `_setup_indexes` and the praw client need a live network and credentials. The model starts from an empty collection.
- The unique index on `question_id`, and the `DuplicateKeyError` it would raise, are not modelled.
  Only the count-then-insert check is modelled, and in a single-threaded run it alone keeps ids unique.
- Reddit itself: listings, `comment_sort`, `replace_more` and attribute access become the `Feed`,
  `Thread` and `Comment` values the scraper is given. A comment placeholder without `body` is `body == None`.
- `time.sleep`, all logging (including the every-hundred-pairs progress line), and the exception handlers
  are left out. They change no value the scraper computes on the success path.
- Export to JSON (`export_to_json`) and `main()` are file and process I/O.
- `datetime.fromtimestamp(...).isoformat()` and `str(post.subreddit)` are opaque strings stored unchanged
  (`createdUtc` and `subreddit`).
- Text.IsSpace, Text.IsWordChar and Text.LowerChar approximate Python's Unicode classes `\s`, `\w`
  and `str.lower()` over ASCII (whitespace is space, 9-13 and 28-31). Non-ASCII letters and whitespace are out of scope.
- Cleaning.UrlLength and Cleaning.LinkLength match the two removal patterns by hand (Text.Contains is Python's `in`).
  They are not a general regex engine, and only the `.` never matches a newline rule is modelled.
- `categorize_content`'s result is computed in `extract_qa_pair` but is not stored in the record,
  so `Records.ExtractQaPair` does not compute it.
- Scraping.TherapyDataScraper.ScrapeAllSubreddits: returns the total it logs and, as a ghost, how many
  subreddits it scraped. In the source the method returns nothing.
