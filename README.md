# libby-lists-checker, modelled in Dafny

libby-lists-checker is a set of Python scripts. They collect author names from literary sources:
BBC World Book Club episodes, the Hugo Awards, the Booker Prize and the Nobel Prize in Literature.
For each author they look up the audiobooks the library catalog holds, keep only the hits whose
author really matches, and check which of those titles can be borrowed now. `workflow.py` chains
the stages.

This project models the logic under the HTTP, DOM and file plumbing of those scripts, and proves
what each part promises. Every fetched page, table, card or JSON document is an input value.

- **Harvest**:
  - `scrape_episodes.py` (module `Episodes`): page URLs, per-card id, URL, title, date and
    duration, and the page loop.
  - `scrape_booker_prize.py` (`BookerPrize`): row classification, the year carried forward
    across rows and tables, title cleaning and the author list.
  - `scrape_hugo_awards.py` (`HugoAwards`): the per-table year, the `*`/yellow winner rule
    and the first co-author.
  - `scrape_nobel_literature.py` (`NobelLiterature`): row filtering and field cleaning.
  - The Booker and Hugo scripts define `deduplicate_entries` identically, so it is modelled
    once, in `Harvest`. Entries are keyed by lower-cased author and title, and a later winner
    replaces an earlier non-winner and moves to the end of the list.
- **Search**:
  - `search_audiobooks.py` (`SearchAudiobooks`): the query URL, the "Showing a-b of Z
    results" count, and the embedded title collection, which overrides that count and becomes
    book records with defaults.
  - `search_combined.py` (`SearchCombined`): the two JSON shapes of author files, the BBC
    fallback, the case-insensitive dedup that keeps the first spelling, and the limited,
    paced search loop.
- **Refinement** (`refine_audiobooks.py`, modules `RefineAudiobooks`, `Refinement` and
  `ReportOrder`):
  - name normalisation;
  - the three-step name match: equality, then containment, then a `SequenceMatcher` ratio
    compared in integers as `100 * 2 * M >= 85 * T`, with `M` defined structurally;
  - the filtered entries and their counts;
  - the order of the two reports.
- **Availability**:
  - `check_availability.py` (`CheckAvailability`, `AvailabilityBatch`): the regex lookups on
    a title's detail page, the description choice, and the batch loop with its limit.
  - `check_by_author.py` (`ByAuthor`): its variant without the `isAvailable` fallback, and
    the author-key search.
  - `check_single_book.py` (`SingleBook`): the one-book report and its exit statuses.
- **Workflow** (`workflow.py`, `Workflow`): stage selection and the order of the stages. The
  first failing command ends the run with status 1, and a stage whose input file is missing
  is skipped.

Shared modules:

- `Strings`: ASCII lower-casing, whitespace collapsing and decimal strings.
- `ScrapedText`: `strip`, `split`, `re.sub` for the patterns the scrapers delete, and the
  year search.
- `Scan`: the leftmost-first search `re.search` performs.
- `Sorting`: Python's string order and `sorted(set)`.
- `Sequences`: `xs[:limit]`.
- `Catalog`: the records passed between stages. A JSON object is an insertion-ordered
  association list.
- `Effects`: the collaborators that are passed in as values.
- `Wrappers`: `Option`.

Loops in the source are methods with loop invariants. Each method is proved equal to a
specification function, and the lemmas beside that function state what the source promises.
Two small loops are recursive functions instead: the `author`-collecting loops of
`search_combined.py` (lines 40-42 and 74-76) are `SearchCombined.AuthorValues` and
`SearchCombined.TruthyAuthors`, each with a lemma stating exactly what it collects.

## Model

| member | source | states |
|---|---|---|
| RefineAudiobooks.DropPunctuation | refine_audiobooks.py:22 | every character left is a word character or whitespace, each comes from the input, and an input of only such characters is returned unchanged |
| RefineAudiobooks.NormalizeNameShape | refine_audiobooks.py:13-24 | a normalised name is lower-case, holds only word characters and single inner spaces, and has no leading or trailing space |
| RefineAudiobooks.NormalizedIsFixed | refine_audiobooks.py:21-23 | normalising a name that is already in normal form returns it unchanged |
| RefineAudiobooks.JoinOfWords | refine_audiobooks.py:23 | `' '.join(s.split())` is the identity on a string without leading, trailing or doubled whitespace |
| RefineAudiobooks.NormalizeNameIdempotent | refine_audiobooks.py:13-24 | normalising twice equals normalising once |
| RefineAudiobooks.CommonPrefixIsCommon | refine_audiobooks.py:52 | the common run found at a pair of positions is shared by both strings and cannot be extended |
| RefineAudiobooks.CommonPrefixSelf | refine_audiobooks.py:52 | a string shares all of itself with itself |
| RefineAudiobooks.RunIsBlock | refine_audiobooks.py:52 | the common run at any pair of positions is a matching block of the two strings |
| RefineAudiobooks.BestInRowLongest | refine_audiobooks.py:52 | no block starting in the scanned row and columns is longer than the block the row scan keeps |
| RefineAudiobooks.BestFromLongest | refine_audiobooks.py:52 | no block starting in the scanned rows is longer than the block the scan keeps |
| RefineAudiobooks.LongestMatch | refine_audiobooks.py:52 | the longest match that SequenceMatcher finds is a matching block of both strings |
| RefineAudiobooks.LongestMatchIsLongest | refine_audiobooks.py:52 | every common run of the two strings is at most as long as the longest match |
| RefineAudiobooks.Matched | refine_audiobooks.py:52 | the number of matched characters M of `ratio() = 2*M/T` is at most the length of either string |
| RefineAudiobooks.MatchedSelf | refine_audiobooks.py:52 | a non-empty string's longest match with itself is the whole string |
| RefineAudiobooks.NamesMatchWhenNormalizedEqual | refine_audiobooks.py:40-45 | names with equal normal forms match, whatever the threshold |
| RefineAudiobooks.NamesMatchReflexive | refine_audiobooks.py:40-45 | every name matches itself |
| RefineAudiobooks.NamesMatchWhenContained | refine_audiobooks.py:47-49 | names match when either normal form contains the other, whatever the threshold |
| RefineAudiobooks.NamesMatchOtherwise | refine_audiobooks.py:43-53 | without equality or containment, the names match exactly when `100*2*M >= threshold*T` |
| RefineAudiobooks.EmptyNameMatchesAll | refine_audiobooks.py:47-49 | an empty searched name matches every book author, since "" is contained in every string |
| Refinement.MatchingBooksSpec | refine_audiobooks.py:84-87 | the kept books are an order-preserving subsequence of the books, each kept book matches, and no matching book is dropped |
| Refinement.MatchingBooksCounts | refine_audiobooks.py:84-87 | as multisets, the kept books are the matching books: each matching book is kept as often as it occurs, no other book at all |
| Refinement.MatchingBooksOfMatching | refine_audiobooks.py:84-87 | when every book matches, all the books are kept unchanged |
| Refinement.RefineEntryFields | refine_audiobooks.py:79-99 | the refined count is the number of kept books, the books are a subsequence of the original, the url is unchanged, `original_count` is the stored count and `filtered_count` is `original_count - count` |
| Refinement.RefineTwice | refine_audiobooks.py:84-99 | refining the saved refined entry again keeps the same books, count and url and filters nothing |
| Refinement.RefineAllAt | refine_audiobooks.py:78-99 | every author of the input is in the refined dictionary, at the same position, with its refined entry |
| Refinement.PrefixStep | refine_audiobooks.py:78-108 | one more author adds its refined entry, adds a change-log line exactly when its count changed, and adds its counts to both totals |
| Refinement.Refine | refine_audiobooks.py:71-108 | the loop's refined dictionary, change log and before/after totals are those of the refinement defined author by author |
| Refinement.CountRows | refine_audiobooks.py:163-168 | the main report has one row per author, ranked by its refined count |
| Refinement.ChangedIndices | refine_audiobooks.py:179 | the positions of exactly the authors with `filtered_count > 0`, strictly increasing |
| Refinement.ChangedRowsOnce | refine_audiobooks.py:178-185 | the changed rows come from distinct authors in increasing position, at most one per author |
| Refinement.ChangedRows | refine_audiobooks.py:178-185 | one row per author with `filtered_count > 0`, each exactly once and in results order, holding that author's entry |
| Refinement.MainReport | refine_audiobooks.py:163 | the main report is a permutation of all authors' rows, sorted by descending count and then by name |
| Refinement.ChangesReport | refine_audiobooks.py:178-179 | the changes report is sorted by descending `filtered_count` and then by name, and is a permutation of the changed rows, so each such author appears exactly once |
| ReportOrder.BeforeTotal | refine_audiobooks.py:163 | any two `(-number, name)` keys are ordered one way or the other |
| ReportOrder.BeforeTransitive | refine_audiobooks.py:163 | the `(-number, name)` order is transitive |
| ReportOrder.InsertRow | refine_audiobooks.py:163 | inserting a row into a sorted report keeps it sorted and adds exactly that row |
| ReportOrder.SortRows | refine_audiobooks.py:163 | the sorted report is sorted by descending number and then by name, and is a permutation of its input |
| Catalog.MediaUrl | check_availability.py:37 | a title's detail-page address is the library base, `/media/` and the id, and ends with the id |
| CheckAvailability.Find | check_availability.py:52-65 | the first occurrence of a literal at or after a position: it occurs there and at no earlier position, or nowhere |
| CheckAvailability.FindNatIsFirst | check_availability.py:47-48 | the count read is the number after the first occurrence of the key that is followed by a digit |
| CheckAvailability.FindNatNone | check_availability.py:47-48 | without a key followed by a digit there is no count |
| CheckAvailability.FindNatAtStart | check_availability.py:47 | a page opening with the key and a run of digits yields exactly that number |
| CheckAvailability.TitleObjectAt | check_availability.py:52 | the embedded title collection is a `{`…`}` text without `;` |
| CheckAvailability.LiteralEnd | check_availability.py:56 | a JSON string literal ends at an unescaped `"` |
| CheckAvailability.CleanHtmlCollapsed | check_availability.py:16-24 | a cleaned description has no whitespace at either end and no run of two whitespace characters |
| CheckAvailability.PublisherCandidate | check_availability.py:50-61 | the description found after the publisher field is always cleaned |
| CheckAvailability.DescriptionChoice | check_availability.py:63-68 | the article block replaces the first candidate exactly when the candidate is absent, empty or starts with `FICTION ` or `Fiction /`, and the block exists; otherwise the candidate is kept |
| CheckAvailability.DescriptionCollapsed | check_availability.py:50-68 | whichever way it was found, a description is cleaned |
| CheckAvailability.ProbeWithCounts | check_availability.py:70-75 | with both counts present the result is `(N > 0, N, M, description)`, whatever the flag says |
| CheckAvailability.ProbeWithFlag | check_availability.py:77-81 | with a count missing and the flag present the result is `(flag, 0, 0, description)` |
| CheckAvailability.ProbeUndetermined | check_availability.py:83 | with neither both counts nor a usable flag the result is `(False, 0, 0, description)` |
| CheckAvailability.ProbeFetched | check_availability.py:85-87 | a transport error yields `(False, 0, 0, None)`; a fetched page yields the page's description |
| CheckAvailability.CheckAvailabilityOf | check_availability.py:27-87 | the probe `check_all_books` uses reads each fetched page with the `isAvailable` fallback |
| AvailabilityBatch.PairsAt | check_availability.py:113-117 | the inner loop visits each of an author's books, paired with that author, in order |
| AvailabilityBatch.FlattenPrefix | check_availability.py:113-117 | the pairs of the first authors come first among all the pairs visited |
| AvailabilityBatch.LimitedShape | check_availability.py:105 | a limit of 0 checks everything, a positive limit checks the first `limit` books, a negative one checks none |
| AvailabilityBatch.AvailableOfFromProbe | check_availability.py:128-141 | every record kept was reported available by the probe of its own url, with that probe's copies and description |
| AvailabilityBatch.AvailableOfKeeps | check_availability.py:130-141 | every checked book reported available has its record kept |
| AvailabilityBatch.AvailableOfSnoc | check_availability.py:130-141 | one more checked book appends its record, if any, after the others |
| AvailabilityBatch.LimitedPrefix | check_availability.py:118-119 | where the loops stop, the books checked are exactly the limited prefix of all the pairs |
| AvailabilityBatch.StopAtAuthor | check_availability.py:117-119 | stopping inside an author's books at the limit leaves exactly the limited prefix checked |
| AvailabilityBatch.Finish | check_availability.py:113-151 | once every author is visited within the limit, all the limited pairs were checked |
| AvailabilityBatch.CheckBooksOf | check_availability.py:117-146 | the inner loop checks a prefix of the author's books, stopping only at the end or at the limit, and appends the available ones' records |
| AvailabilityBatch.CheckAuthor | check_availability.py:113-149 | an author with count 0 is skipped whatever its book list; the outer loop stops exactly when the limit has been reached |
| AvailabilityBatch.CheckAllBooks | check_availability.py:90-151 | the output is the records of the available books among the first `limit` (author, book) pairs of authors with books, in order, with one wait per checked book |
| ByAuthor.ByAuthorCheck | check_by_author.py:27-69 | the by-author probe reads each page without the `isAvailable` fallback |
| ByAuthor.NoFlagMeansCopies | check_by_author.py:59-65 | without the fallback, a book is available only when its count of free copies is positive |
| ByAuthor.FirstKeyIsFirst | check_by_author.py:76-80 | the key found is the first that equals the name ignoring case; none is found only when no key does |
| ByAuthor.FindAuthorKey | check_by_author.py:76-80 | the key-search loop with `break` finds the first case-insensitive match |
| ByAuthor.KeysWithBooksAre | check_by_author.py:85-87 | the suggestions are exactly the keys whose count is positive |
| ByAuthor.SuggestionsSpec | check_by_author.py:85-87 | the suggestion list is ascending, without repeats, and names exactly the authors with books |
| ByAuthor.AvailableBooksStep | check_by_author.py:102-127 | one more book appends its record exactly when it is available |
| ByAuthor.AvailableBooksSound | check_by_author.py:110-127 | every collected record is that of an available book, with its probe's copies, url and description |
| ByAuthor.AvailableBooksComplete | check_by_author.py:112-127 | every book reported available is collected |
| ByAuthor.AvailableHaveCopies | check_by_author.py:59-65 | with the by-author probe every collected record has a free copy |
| ByAuthor.CheckBooks | check_by_author.py:100-132 | the book loop collects exactly the available books' records, in book order, pausing once after every book |
| ByAuthor.CheckAuthorBooks | check_by_author.py:72-132 | the outcome is not found, no books, or the checked list, as the matched key and its count decide |
| ByAuthor.NotFoundExactly | check_by_author.py:82-88 | the author is reported missing exactly when the name is empty or no key matches it ignoring case |
| ByAuthor.FoundIsFirstMatch | check_by_author.py:76-94 | a found author is the first case-insensitive match; it has no books exactly when its count is 0, and otherwise carries its count and its available books |
| ByAuthor.RunByAuthor | check_by_author.py:147-163 | a missing argument or a missing data file gives exit status 1; otherwise the outcome for `argv[1]` |
| SingleBook.TitleAt | check_single_book.py:38 | a title read at a position is a non-empty run of non-quote characters |
| SingleBook.TitleOnPage | check_single_book.py:38-39 | a title found is spelled out on the page after the `"title":"` key and before a closing quote |
| SingleBook.TitleAtReads | check_single_book.py:38 | conversely, a quoted non-empty title after the key is what is read there |
| SingleBook.Summary | check_single_book.py:79-81 | the summary is shown exactly when the status is known and the description is non-empty, and it is the description |
| SingleBook.ReportAgreesWithProbe | check_single_book.py:62-95 | the single-book status agrees with the batch probe on the same page: available exactly when the batch probe says so, with the same copies, the flag used only when a count is missing |
| SingleBook.SummaryCollapsed | check_single_book.py:42-59 | a shown summary has gone through the HTML clean-up |
| SingleBook.RunSingleBook | check_single_book.py:97-109 | the script exits with status 1 exactly when the book id is missing or the fetch fails; otherwise it shows the report of the page fetched from the book's url |
| SingleBook.RunAgreesWithProbe | check_single_book.py:97-109 | what the script shows agrees with the availability probe on the fetched page (availability, copy counts, description), and the description is whitespace-collapsed |
| SearchAudiobooks.SearchUrl | search_audiobooks.py:47-50 | the search address is the base, `/search?query=`, the quoted author and the fixed format and sort query, in that order |
| SearchAudiobooks.SearchUrlDeterminedByQuote | search_audiobooks.py:47-50 | for one base, two authors get the same address exactly when their quoted names agree |
| SearchAudiobooks.DigitsEndRun | search_audiobooks.py:72 | the scanned run holds only digits and ends at a non-digit |
| SearchAudiobooks.HeadingCount | search_audiobooks.py:64-74 | without a heading, or without a match in it, the count stays 0 |
| SearchAudiobooks.HeadingCountReads | search_audiobooks.py:72-74 | a well-formed heading `Showing a-b of Z results` (digit runs `a`, `b`, `Z`) gives the count `Z` |
| SearchAudiobooks.HeadingIgnoresCase | search_audiobooks.py:72 | the heading pattern is matched ignoring letter case |
| SearchAudiobooks.TotalIsDigitRun | search_audiobooks.py:72-74 | the total read is the value of a non-empty run of digits after the range |
| SearchAudiobooks.HeadingIsDigitRun | search_audiobooks.py:72-74 | a heading match captures a run of digits after `showing` |
| SearchAudiobooks.RangeEnd | search_audiobooks.py:72 | the `a-b` range ends before the total is read |
| SearchAudiobooks.CollectionAt | search_audiobooks.py:82 | the captured collection text is a `[`…`]` array text |
| SearchAudiobooks.FormatNamesSpec | search_audiobooks.py:95 | the format names map one-to-one onto the formats, `''` for a missing name, and fail exactly when a format is not an object |
| SearchAudiobooks.ToBook | search_audiobooks.py:89-96 | each book field is the item's value or the default: title and author `'Unknown'`, id `''`, available `False`, formats `[]`; an item raises exactly when it or one of its formats is not an object |
| SearchAudiobooks.ToBookFormats | search_audiobooks.py:89-96 | an item becomes a book exactly when it and all its formats are objects, and the book's formats are the formats' names in order, `''` for a missing name |
| SearchAudiobooks.BooksOfStep | search_audiobooks.py:89-96 | one more item appends its book, or fails the whole mapping |
| SearchAudiobooks.BooksOfFails | search_audiobooks.py:89-96 | once an item raises, the whole collection fails |
| SearchAudiobooks.BooksOfSpec | search_audiobooks.py:89-96 | the books map one-to-one and in order onto the items, failing exactly when one item fails |
| SearchAudiobooks.FirstMarked | search_audiobooks.py:79-80 | the script chosen is a script whose text holds the marker |
| SearchAudiobooks.FirstMarkedIsFirst | search_audiobooks.py:79-80 | no script before the chosen one holds the marker, and when none is chosen no script does |
| SearchAudiobooks.MapItems | search_audiobooks.py:89-96 | the append loop builds the books of the collection, or stops with `None` |
| SearchAudiobooks.ExamineScript | search_audiobooks.py:82-98 | the marked script gives the collection's length and books, the heading count and no books when it has no array or does not decode, and `None` when an item raises |
| SearchAudiobooks.FindMarkedScript | search_audiobooks.py:79-80 | the loop up to its `break` finds the first script holding the marker |
| SearchAudiobooks.SearchAudiobooksForAuthor | search_audiobooks.py:47-112 | the search result is the outcome of the fetched page at the search address, `None` on a transport error |
| SearchAudiobooks.NoCollection | search_audiobooks.py:64-74 | without a marked script the count is the heading's and there are no books |
| SearchAudiobooks.CollectionOverrides | search_audiobooks.py:84-96 | a decoded collection overrides the count with its length and yields one book per item, in order |
| SearchAudiobooks.DecodeErrorKeepsHeading | search_audiobooks.py:97-98 | a decode error keeps the heading count and gives no books |
| SearchAudiobooks.BadItemGivesNone | search_audiobooks.py:110-112 | an item or format that is not an object makes the whole search `None` |
| SearchAudiobooks.OnlyFirstMarkedScript | search_audiobooks.py:79-99 | scripts after the first marked one change nothing, whether or not its pattern matched |
| SearchCombined.StringItemsOfStrings | search_combined.py:32-35 | a list of strings is returned unchanged |
| SearchCombined.AuthorValuesAre | search_combined.py:39-42 | the collected authors are exactly the `author` values of the entries that have that key |
| SearchCombined.TruthyAuthorsAre | search_combined.py:73-76 | the episode authors collected are exactly the non-empty `author` values |
| SearchCombined.LoadAuthorsShapes | search_combined.py:24-45 | a missing file gives `[]`; a list of strings is returned as it is; a list led by an object gives the sorted, duplicate-free `author` values; every other shape gives `[]` |
| SearchCombined.BbcFallback | search_combined.py:57-78 | a non-empty authors file wins; otherwise a missing episodes file gives `[]` and an episodes list gives its sorted, duplicate-free non-empty authors |
| SearchCombined.DedupedSeen | search_combined.py:232-238 | every collected name is represented in the result, ignoring case |
| SearchCombined.DedupedDistinct | search_combined.py:232-238 | no two names of the result agree once lower-cased |
| SearchCombined.DedupedPositions | search_combined.py:232-238 | the result is the first spelling of each name, in the original order |
| SearchCombined.DedupStep | search_combined.py:234-238 | one more name is appended exactly when its lower-cased form is new, and the seen set gains that form |
| SearchCombined.RemoveDuplicates | search_combined.py:231-238 | the loop with the `seen` set builds the case-insensitive first-occurrence deduplication |
| SearchCombined.EntryFor | search_combined.py:125-138 | a failed search stores `{count: 0, books: [], url: ''}`; a result is stored as it is |
| SearchCombined.ResultsKeys | search_combined.py:118-138 | the results dict has exactly the searched names as keys, none repeated |
| SearchCombined.ResultsOfDistinct | search_combined.py:120-138 | with distinct names, one entry per name, in search order, each its search's own |
| SearchCombined.ResultsStep | search_combined.py:123-138 | searching one more name stores its entry under its key |
| SearchCombined.SearchAuthors | search_combined.py:101-142 | the results are those of the first `limit` names (all for 0), with one wait between consecutive searches and none after the last |
| SearchCombined.RunCombined | search_combined.py:200-243 | no collected names means nothing is searched; otherwise the deduplicated, limited names are searched in order |
| SearchCombined.CombinedResults | search_combined.py:232-243 | the stored dict holds one entry per searched name, in order, and no two names differ only in case |
| Harvest.FindWithout | scrape_booker_prize.py:246 | dropping one key's entries leaves every other key's entry where it was |
| Harvest.FindNone | scrape_booker_prize.py:239 | a key is unseen exactly when no kept entry has it |
| Harvest.WithoutKeys | scrape_booker_prize.py:246 | the filtered list keeps only entries of the list with other keys |
| Harvest.DedupFind | scrape_booker_prize.py:236-248 | a key is kept exactly when some input entry has it, and the kept entry is a winner exactly when some entry with that key won |
| Harvest.DedupDistinct | scrape_booker_prize.py:236-250 | no two output entries share an `(author.lower(), title.lower())` key |
| Harvest.SurvivesSnoc | scrape_booker_prize.py:239-248 | a new entry changes the survival of an earlier one only when it is a winner replacing its group's non-winner |
| Harvest.SurvivesLast | scrape_booker_prize.py:239-248 | a new entry survives exactly when its key is new or it is a winner in a group without one |
| Harvest.SurvivorsSnoc | scrape_booker_prize.py:239-248 | one more entry: the survivors so far, less its group when it replaces, then itself if it survives |
| Harvest.DedupIsSurvivors | scrape_booker_prize.py:222-250 | the output is, in input order, the first winner of each group or, in a group without winners, its first entry; a replacing winner therefore moves to the end of its group's place |
| Harvest.SurvivorsFromInput | scrape_booker_prize.py:236-250 | every output entry comes from the input |
| Harvest.DedupStep | scrape_booker_prize.py:236-248 | one loop iteration appends a new key, replaces a non-winner by a winner at the end, or keeps the list |
| Harvest.Deduplicate | scrape_booker_prize.py:222-250 | the loop with its `seen` dict computes the deduplication defined entry by entry |
| Harvest.SavedOutput | scrape_booker_prize.py:351-370 | the saved entries are a prefix of the deduplicated ones, have distinct keys and come from the input; the authors saved are sorted, duplicate-free and exactly the cleaned names of the saved entries |
| BookerPrize.FirstHeadingYearSnoc | scrape_booker_prize.py:184-190 | the heading's year is taken from the first row whose heading has one |
| BookerPrize.YearCarried | scrape_booker_prize.py:162-190 | the current year is the last status-cell year seen, across tables, or else the first heading year found while none was known |
| BookerPrize.YearAfterRange | scrape_booker_prize.py:179-190 | any year known is in 1900..2099 |
| BookerPrize.WinnersIsWinner | scrape_booker_prize.py:193 | a status containing `Winners` contains `Winner`, so such a row is a win |
| BookerPrize.NomineeOf | scrape_booker_prize.py:194-214 | an emitted entry has author and title longer than one character, the row's author cell, the cleaned title cell and the current year |
| BookerPrize.NomineeOfRow | scrape_booker_prize.py:193-217 | a row yields an entry exactly when it has 3 cells, a marker, and author and cleaned title longer than one character; `won`, `shortlist` and `longlist` are independent substring tests |
| BookerPrize.PlainTitle | scrape_booker_prize.py:200-201 | a title without `[` or `(` is kept unchanged |
| BookerPrize.TitleMarkerDeleted | scrape_booker_prize.py:200 | a trailing `[digits]` marker is deleted |
| BookerPrize.TitleNoteDeleted | scrape_booker_prize.py:201 | a trailing `(…)` group is deleted with the spaces before it |
| BookerPrize.HarvestedFromRows | scrape_booker_prize.py:164-217 | every entry comes from one row and carries the year in force at that row |
| BookerPrize.ScanStep | scrape_booker_prize.py:167-217 | visiting one more row updates the year, then appends that row's entry, if any |
| BookerPrize.VisitRow | scrape_booker_prize.py:168-217 | the loop body: the year check, then the row's entry for the new year |
| BookerPrize.VisitRows | scrape_booker_prize.py:167-217 | the row loop carries the year and the entries of all rows seen |
| BookerPrize.AssignYears | scrape_booker_prize.py:143-219 | the nested loops yield the entries of every table's body rows, in order |
| BookerPrize.AuthorName | scrape_booker_prize.py:263-280 | a cleaned name is stripped |
| BookerPrize.PlainAuthor | scrape_booker_prize.py:279-280 | a plain stripped name is kept when longer than one character |
| BookerPrize.CoAuthorDropped | scrape_booker_prize.py:275-276 | of `A and B` only `A`, stripped, is kept |
| BookerPrize.RoleDropped | scrape_booker_prize.py:270 | a trailing `(role)` with the spaces before it is dropped |
| BookerPrize.RunBooker | scrape_booker_prize.py:345-370 | no page or no entries saves nothing; otherwise the deduplicated entries, limited, and their sorted unique authors |
| HugoAwards.KeptStripped | scrape_hugo_awards.py:179 | the text nodes `get_text(strip=True)` joins are non-empty and stripped |
| HugoAwards.StripKeeps | scrape_hugo_awards.py:181 | stripping keeps every non-space character |
| HugoAwards.KeptChars | scrape_hugo_awards.py:179-180 | a non-space character is in the kept text nodes exactly when it is in the cell's text nodes |
| HugoAwards.JoinedChars | scrape_hugo_awards.py:179 | a character is in the joined text exactly when it is in one of the pieces |
| HugoAwards.StarAnywhere | scrape_hugo_awards.py:179-180 | `'*' in author_text` holds exactly when a star is in some text node of the cell |
| HugoAwards.KeptNoBar | scrape_hugo_awards.py:184 | text nodes without `\|` stay without it once stripped |
| HugoAwards.FirstAuthor | scrape_hugo_awards.py:181-187 | the author is the first non-empty text node, stripped, with its stars removed, overriding the whole text |
| HugoAwards.LoneStarFirst | scrape_hugo_awards.py:185-187 | a lone `*` as the first text node leaves the author empty, so that row yields no entry |
| HugoAwards.TableYear | scrape_hugo_awards.py:159-167 | a table's year, when its heading has one, is in 1900..2099 |
| HugoAwards.EntryOf | scrape_hugo_awards.py:175-209 | an emitted entry has at least 2 cells, author and title longer than one character, and the table's year |
| HugoAwards.EntryOfRow | scrape_hugo_awards.py:175-209 | a row yields an entry exactly when it has 2 cells and author and cleaned title longer than one character; it won exactly when the author cell has a star or the row style has `background` and `yellow` |
| HugoAwards.PlainTitle | scrape_hugo_awards.py:192 | a title without `(` is kept unchanged |
| HugoAwards.SameYear | scrape_hugo_awards.py:157-209 | all entries of one table carry the year of that table's heading |
| HugoAwards.HarvestedFromTables | scrape_hugo_awards.py:157-211 | every entry comes from one body row of one table and carries that table's year |
| HugoAwards.RowStep | scrape_hugo_awards.py:172-209 | one more row appends its own entry, if any |
| HugoAwards.VisitRow | scrape_hugo_awards.py:173-209 | the loop body computes the entry a row yields for the table's year |
| HugoAwards.VisitRows | scrape_hugo_awards.py:170-209 | the row loop appends the entries of every body row, in order |
| HugoAwards.AssignYears | scrape_hugo_awards.py:157-211 | the nested loops yield, table after table, the entries of its body rows with its heading's year |
| HugoAwards.AuthorName | scrape_hugo_awards.py:259-267 | a cleaned name is stripped |
| HugoAwards.RoleDropped | scrape_hugo_awards.py:262 | a trailing `(role)` is dropped, and co-authors joined by ` and ` are kept together |
| HugoAwards.PlainAuthor | scrape_hugo_awards.py:266-267 | a plain stripped name is kept when longer than one character |
| HugoAwards.RunHugo | scrape_hugo_awards.py:332-356 | no page or no entries saves nothing; otherwise the deduplicated entries, limited, and their sorted unique authors |
| NobelLiterature.LaureateOf | scrape_nobel_literature.py:59-60 | a row that yields a laureate has at least six cells |
| NobelLiterature.LaureateSkipped | scrape_nobel_literature.py:59-99 | a row yields a laureate exactly when it has six cells, its year cell holds no `Not awarded` and has a year token, and the cleaned name is non-empty; a `Not awarded` row is always skipped |
| NobelLiterature.LaureateYear | scrape_nobel_literature.py:72-75 | the year is the value of the leftmost four-digit `19xx`/`20xx` token of the year cell |
| NobelLiterature.LaureateFields | scrape_nobel_literature.py:79-125 | name, country, language, citation and genre come from cells 2 to 6, whitespace-collapsed; the citation first loses its surrounding quotes and, after the collapse, its `[n]` reference markers; the genre is empty for a six-cell row |
| NobelLiterature.PlainName | scrape_nobel_literature.py:83-95 | without a `(` the name is the first link's text, or the cell text when there is no link, collapsed |
| NobelLiterature.LifeSpanDropped | scrape_nobel_literature.py:93 | a trailing ` (dddd–dddd)` life span is removed from the name |
| NobelLiterature.LivingDropped | scrape_nobel_literature.py:94 | a trailing ` (dddd–)` birth year is removed from the name |
| NobelLiterature.NoLifeSpanIn | scrape_nobel_literature.py:93 | the life-span pattern matches nowhere inside a ` (dddd–)` tail, so it is left for the next pattern |
| NobelLiterature.QuotedCitation | scrape_nobel_literature.py:113-118 | a quoted citation without reference markers loses its quotes and is collapsed |
| NobelLiterature.LaureateFromRow | scrape_nobel_literature.py:53-137 | every collected laureate is the entry of one of the rows |
| NobelLiterature.RowStep | scrape_nobel_literature.py:53-137 | one more row appends its own laureate, if any |
| NobelLiterature.VisitRow | scrape_nobel_literature.py:55-137 | the loop body computes the laureate a row yields |
| NobelLiterature.ScrapeNobel | scrape_nobel_literature.py:39-148 | no page or no table gives nothing; otherwise the laureates of the first table's rows after the header, in order |
| NobelLiterature.AuthorName | scrape_nobel_literature.py:167-176 | a collected author name is non-empty and stripped |
| NobelLiterature.PlainAuthor | scrape_nobel_literature.py:172-176 | a name without `(` is kept stripped, or dropped when blank |
| NobelLiterature.NoteDropped | scrape_nobel_literature.py:172 | a trailing parenthesised note is removed from the author |
| NobelLiterature.SavedOutput | scrape_nobel_literature.py:257-270 | the saved laureates are a prefix of the scraped ones, each from a row of the first table; the saved authors are strictly sorted and are exactly the names of the saved laureates |
| NobelLiterature.RunNobel | scrape_nobel_literature.py:257-270 | nothing scraped saves nothing; otherwise the laureates cut to the limit and their sorted unique authors |
| Episodes.PageUrlDistinct | scrape_episodes.py:23-26 | every page URL starts with the brand URL, and different pages have different URLs |
| Episodes.PlayLink | scrape_episodes.py:44-50 | the chosen link is a non-empty href holding `/audio/play/` |
| Episodes.PlayLinkFirst | scrape_episodes.py:44-50 | there is no link exactly when no href qualifies; otherwise it is the first qualifying href |
| Episodes.EpisodeIdAfterLast | scrape_episodes.py:53 | the id is a suffix that starts right after an occurrence of `/audio/play/` and holds none, which is what `split('/audio/play/')[-1]` leaves |
| Episodes.FullUrlAbsolute | scrape_episodes.py:56-57 | the full URL starts with `http`, ends with the href, and completing it twice changes nothing |
| Episodes.DateDurationParts | scrape_episodes.py:72-76 | text joined by bullets gives the first two parts, stripped, as date and duration |
| Episodes.DateDurationUnknown | scrape_episodes.py:64-76 | without a bullet both are `Unknown`; with one they are the first two parts of the split, stripped |
| Episodes.EpisodeOfCard | scrape_episodes.py:42-87 | a card yields an episode exactly when one of its hrefs is a play link; the episode has the page number, the id and full URL of the first play link, and `Unknown` for a missing title or date block |
| Episodes.CardEpisodeFrom | scrape_episodes.py:42-87 | every episode of a page carries that page and comes from one of its cards |
| Episodes.CardStep | scrape_episodes.py:42-87 | one more card appends its own episode, if any |
| Episodes.VisitCard | scrape_episodes.py:43-85 | the loop body computes the episode a card yields |
| Episodes.ScrapePage | scrape_episodes.py:30-94 | a failed fetch gives no episodes; otherwise the episodes of the page's cards, in order |
| Episodes.PageEpisodesPage | scrape_episodes.py:84 | every episode scraped from a page carries that page number |
| Episodes.AppendPage | scrape_episodes.py:110-112 | extending with the next page's episodes keeps the pages in range and in order |
| Episodes.AllEpisodesPages | scrape_episodes.py:97-118 | all episodes come from pages in the range, in page order |
| Episodes.ScrapeAll | scrape_episodes.py:97-118 | the pages' episodes concatenated in page order, with one pause between consecutive pages |
| Episodes.RunEpisodes | scrape_episodes.py:166-178 | the episodes of pages 0 to `pages`, cut to the limit, are saved unless there are none |
| Episodes.SavedEpisodes | scrape_episodes.py:166-176 | the saved episodes are a prefix of the scraped ones, at most `limit` of them when a limit is given, from pages in range and in page order |
| Workflow.SelectedStages | workflow.py:87-93 | a stage is selected exactly when no stages were named or it was named, and it is not the scrape stage under `--skip-scrape` |
| Workflow.StageStepsOwn | workflow.py:105-159 | each stage's steps belong to that stage and need its input file; a stage has steps exactly when it is selected |
| Workflow.AvailabilitySteps | workflow.py:146-154 | the availability stage has at most one step, present exactly when the stage is selected; it needs the refined results and runs `check_availability.py` from them into the available books of the same source |
| Workflow.PlanSelected | workflow.py:105-159 | every planned step belongs to a selected stage |
| Workflow.PlanStages | workflow.py:105-159 | a stage is selected exactly when some planned step belongs to it |
| Workflow.PlanOrdered | workflow.py:104-159 | the planned steps run scrape, search, refine, availability, in that order |
| Workflow.PlanNeeds | workflow.py:133-149 | refine steps need the search results of the source, availability steps its refined results, the others nothing |
| Workflow.PlanLimit | workflow.py:108-109 | the plan with a limit is the plan without one with `--limit` and the limit appended to every command, and only when the limit is non-zero |
| Workflow.ExecuteStatus | workflow.py:104-175 | the exit status is 0 or 1: 0 when every command run succeeded, 1 when the last command run failed after all the others succeeded |
| Workflow.ExecuteOrder | workflow.py:104-159 | the commands run are the commands of planned steps, in plan order, each with its input file present at that point |
| Workflow.ExecuteAll | workflow.py:104-130 | with no input files to check, a run that ends with 0 has run every planned command in order |
| Workflow.ExecuteConcat | workflow.py:104-175 | running two blocks of steps is running the first, then the second unless the first failed |
| Workflow.ExecuteZeroOrOne | workflow.py:111 | `main` returns 0 or 1 |
| Workflow.ScrapeStage | workflow.py:105-118 | the scrape stage runs the BBC and then the Hugo scraper as the source asks, and stops at the first failure |
| Workflow.SearchStage | workflow.py:121-129 | the search stage runs the combined search once when selected |
| Workflow.RefineStage | workflow.py:132-143 | the refine stage runs only when selected and the search results exist |
| Workflow.AvailabilityStage | workflow.py:146-159 | the availability check runs only when selected and the refined results exist |
| Workflow.RunWorkflow | workflow.py:104-175 | `main` runs the plan's steps as the plan says, and returns its status |
| Strings.LowerIdempotent | refine_audiobooks.py:21 | lower-casing twice is lower-casing once |
| Strings.LowerChar | refine_audiobooks.py:21 | a lower-cased character is not upper case, other characters are kept, and word and space characters stay what they were |
| Strings.CollapseIsCollapsed | refine_audiobooks.py:23 | collapsed text has no leading, trailing or doubled whitespace, and only single spaces between words |
| Strings.CollapseIdempotent | refine_audiobooks.py:23 | collapsing whitespace twice is collapsing it once |
| Strings.WordsOfJoin | refine_audiobooks.py:23 | splitting on whitespace undoes joining words with single spaces |
| Strings.JoinCollapsed | scrape_nobel_literature.py:95 | words joined by single spaces form collapsed text that starts and ends with a word |
| Strings.CollapseChars | scrape_nobel_literature.py:95 | collapsing keeps no character that was not in the text, apart from single spaces |
| Strings.NatStringValue | workflow.py:109 | the decimal digits written for a number read back as that number |
| Strings.IntStringValue | workflow.py:109 | `str` of an integer, sign included, reads back as that integer |
| Strings.IntStringInjective | workflow.py:109 | different limits give different `--limit` arguments |
| Sorting.SortUnique | scrape_booker_prize.py:282 | `sorted(list(set))`: the result is strictly sorted and has exactly the given elements |
| Sorting.StrictlySortedUnique | scrape_booker_prize.py:282 | two strictly sorted sequences of the same elements are equal, so the sorted author list is unique |
| Sorting.LessTotal | scrape_booker_prize.py:282 | any two different strings are ordered one way or the other |
| Sorting.LessTransitive | scrape_booker_prize.py:282 | string order is transitive |
| Sequences.TruncateIsPrefix | scrape_booker_prize.py:355-356 | `entries[:limit]` keeps a prefix: all for no limit, the first `limit` for a positive one, all but the last `-limit` for a negative one |
| Catalog.PutNew | search_combined.py:126 | storing a new author appends it at the end, as a dictionary keeps insertion order |
| Catalog.PutHasKey | search_combined.py:126 | after storing, the keys are the old ones plus the stored one |
| Catalog.PutDistinct | search_combined.py:126 | storing keeps the keys distinct |
| Scan.Search | check_availability.py:47 | `re.search` finds a match exactly when one exists, and then the leftmost one |
| ScrapedText.TrimIsInfix | scrape_nobel_literature.py:115 | `strip(chars)` leaves the middle of the text, cutting only stripped characters at either end |
| ScrapedText.TrimIdempotent | scrape_nobel_literature.py:115 | stripping twice is stripping once |
| ScrapedText.SplitJoin | scrape_episodes.py:73 | splitting on a separator undoes joining pieces that do not contain it |
| ScrapedText.SplitsInTwo | scrape_episodes.py:73 | text containing the separator splits into at least two parts |
| ScrapedText.RemoveAbsent | scrape_hugo_awards.py:185 | removing a character that does not occur changes nothing |
| ScrapedText.BeforeText | scrape_booker_prize.py:276 | `split(p)[0]` is the prefix before the first occurrence of `p` |
| ScrapedText.LastPieceAt | scrape_episodes.py:53 | `split(p)[-1]` is a suffix starting right after an occurrence of `p` and holding none (for overlapping occurrences not the text after the last one), or the whole text when `p` does not occur |
| ScrapedText.YearAt | scrape_hugo_awards.py:165 | a matched year is four digits between 1900 and 2099 |
| ScrapedText.YearAtValue | scrape_hugo_awards.py:165 | the year is the decimal value of the four matched digits |
| ScrapedText.SubUnmatched | scrape_booker_prize.py:104 | `re.sub` changes nothing where the pattern matches nowhere |
| ScrapedText.SubSplit | scrape_booker_prize.py:104 | `re.sub` keeps the text before the first match, deletes that match and goes on after it |
| ScrapedText.NoBracketNoMarker | scrape_booker_prize.py:104 | reference markers cannot occur without a `[` |
| ScrapedText.MarkerDeleted | scrape_booker_prize.py:104 | a `[digits]` marker is deleted |
| ScrapedText.NoteDeleted | scrape_booker_prize.py:105 | a trailing ` (note)` is deleted |
| ScrapedText.NoParenNoMatch | scrape_booker_prize.py:105 | the parenthesised patterns change nothing without a `(` |
| ScrapedText.LifeSpanMatches | scrape_nobel_literature.py:93 | ` (dddd–dddd)` is one whole match of the life-span pattern |
| ScrapedText.LivingSinceMatches | scrape_nobel_literature.py:94 | ` (dddd–)` is one whole match of the living-since pattern |
| ScrapedText.NoOpenNoTrailing | scrape_booker_prize.py:270 | a trailing note cannot be deleted where its opening character does not occur |
| ScrapedText.TrailingNoteDeleted | scrape_booker_prize.py:270 | a whitespace-led bracketed note at the very end is deleted |
| ScrapedText.NamesYield | scrape_booker_prize.py:280 | a name is collected exactly when some entry yields it |
| ScrapedText.CollectNames | scrape_booker_prize.py:280-282 | the collecting loop returns the sorted unique names the entries yield |

## Left out

- Network access (`requests.get`, `raise_for_status`, timeouts): a fetch is a parameter returning the page or a transport error; in `scrape_episodes.py` any exception of `scrape_page` is a failed fetch yielding no episodes.
- DOM traversal with BeautifulSoup (`find_all`, `get_text`, `find_previous`, attribute lookup): tables, rows, cells, headings, scripts and cards are given as sequences of strings and optional strings.
- `json.load`/`json.loads`: a parsed document is a value of a small JSON datatype and a missing file is `None`. Only the collection decode of `search_audiobooks.py` has a value for a decode failure (`SearchAudiobooks.Decoded`). The `JSONDecodeError` that the file loads raise on a malformed file is not modelled (search_combined.py:29 and 70, check_by_author.py:158, refine_audiobooks.py:69, check_availability.py:215); there the script would stop, and in the model every file that exists decodes.
- JSON `null` and values of the wrong type: `SearchCombined.Json.JObject` keeps only a string `author`, and `RawItem`'s optional fields are strings or absent. So `book.get('title', 'Unknown')` returning `None` for a null title (search_audiobooks.py:91), and a number where a string is expected, are not modelled.
- `html.unescape`, `str.encode().decode('unicode_escape')` and `urllib.parse.quote`: kept as uninterpreted functions in `Effects.Codecs`, so no round-trip through them is claimed.
- The `UnicodeDecodeError` that `decode('unicode_escape')` can raise on a malformed escape in a description (check_availability.py:60, check_by_author.py:49, check_single_book.py:51): only `RequestException` is caught there, so the script would stop; in the model the codec is total and such a description decodes to some string.
- Unicode `str.lower`, `\w`, `\s` and `\d`, and the whitespace of `str.strip()`, `str.split()` and `get_text(strip=True)`: restricted to ASCII, so a no-break space (U+00A0, common in Wikipedia tables) is not whitespace in the model; characters at or above U+0080 count as word characters and are never lower-cased. One consequence: an en dash counts as a word character, so `ScrapedText.YearIn` finds no year in `1914–1918`, where Python's `\b` finds 1914.
- `SequenceMatcher` autojunk (the popularity heuristic for a second string of 200 or more characters): not modelled; `M` is computed as if autojunk were off.
- The float similarity ratio and threshold: compared exactly in integers, `100 * 2 * M >= 85 * T`.
- SearchCombined.StringItems: keeps only the string items of a list whose first item is a string, where `load_authors_from_file` returns the list as it is (search_combined.py:34-35) and a later non-string item makes `author.lower()` raise (search_combined.py:234); that crash is not modelled. Likewise `SearchCombined.AuthorValues` skips items that are not objects, where `'author' in entry` on a string item is a substring test and `entry['author']` would then raise.
- SearchCombined.TruthyAuthors: skips episode items that are not objects, where `'author' in episode` (search_combined.py:75) raises on a number or `null`, and `episode['author']` raises on a string that contains `author`; the model only skips a string that does not.
- SearchCombined.LoadBbcAuthors: an episodes file whose document is not a list gives no names, where iterating a number or `null` (search_combined.py:74) raises, and iterating an object or a string visits its keys or characters.
- `book.get('formats', [])` in `check_availability.py` (check_availability.py:139): `Catalog.Book` always has `formats`, so the default for a book without that key is not modelled.
- `time.sleep`: only the number of pauses is modelled (the waits of `check_availability.py`, `check_by_author.py`, `search_combined.py` and `scrape_episodes.py`); the `--delay` value is passed to the search command as a string.
- File writes, CSV and JSON serialisation, `os.makedirs`, `print` and `argparse`: the saved outputs are the returned values; only the exit statuses of `workflow.py`, `check_single_book.py` and `check_by_author.py` (`ByAuthor.RunByAuthor`, check_by_author.py:151 and 161) are modelled.
- `subprocess.run` and `sys.executable` in `workflow.py`: an oracle and a parameter.
- The composition of the scripts through files and command lines: `workflow.py` passes `--source both` to `search_combined.py`, whose choices are `bbc`, `hugo`, `booker` and `all`, and `refine_audiobooks.py` reads no arguments at all, so the whole pipeline is not modelled end to end.
- The `try`/`except Exception` around each Nobel row and around the whole Nobel scrape: no modelled operation raises, so these guards never fire in the model.
- The sort of `authors_changed` inside `refine_results` (refine_audiobooks.py:133): it only orders console output; the saved changes report is modelled with its own sort.
- `debug_search.py` and `test_e2e.py`: the first only dumps HTML, the second only runs the other scripts as subprocesses; neither is modelled.
- The first table scans of `scrape_booker_prize` and `scrape_hugo_awards`: their entries are passed to `assign_years_to_entries`, which ignores them (the Hugo version only copies them) and builds its result from a second scan of the same tables, so only that second scan is modelled.
