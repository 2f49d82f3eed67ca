# message-analyzer in Dafny

A model of the core of message-analyzer, a tool that works on WhatsApp message logs.
A log is a list of records of string fields: chat name, date-time, type, phone number,
user name, text, and optionally lemmatized text and duplicate count. The model covers:

- **Context extraction.** `createAdjAndFiltered` finds the messages matching a search
  query. For every match outside the "special" (noise) chats it collects up to five
  messages of the same chat above the match. It then scans downwards, merging matches
  that follow within seven rows of the chat, and keeps five rows after the last one.
  It produces a context stream of blocks closed by `---` separator rows, plus a flat
  stream of every matched row.
- **Analytics.** Word frequency and "word power", the number of texts a word occurs in
  (`countWordFrequencyAndPower`). Duplicate counts per field value (`countDuplicates`).
  The frequency table as a sorted list (`convertToArr`) and its letter filter
  (`filterFrequecyArr`). Per-part counts inside and outside the special chats
  (`compareDuplicatesBySpecialSources`), and the median (`getMedian`).
- **Row filters.** Spam exclusion (`excludeSpam`, `hasValueFromArray`), the first row of
  every text (`filterUniqueMessages`) and the most duplicated message of distinct authors
  (`filterMostPopMessFromXUniqueAuthors`). Also `filterByMessageType`, `extractField` and
  the sort key of `sortByChatNameThenByDate`.
- **The lemmatizer script's row plumbing.** Reading in chunks of 20000 rows. Joining the
  chat texts with a separator and padding the lemmatized tokens so that the result
  splits back into one text per message, for a chunk with at least one chat text. Putting the texts back into their rows, and
  the input file name.

Modules: `Strings`, `Seqs` and `Schema` hold shared vocabulary (join and split, stable
sort, filters, the record layout). `Classifier` holds the two record predicates.
`Window` and `WindowProperties` hold context extraction, `Ordering` the log order,
`Frequency` and `Filters` the analytics and the row filters, and `Lemmatizer` the
Python script.

Loops that build lists become methods with loop invariants. Each method is proved equal
to a function that states its result in closed form, for example `UpRows` for
`getXAdjRows` and `FrequencyOf` for `countWordFrequencyAndPower`. The properties are
then proved about those functions. What the source sorts in place is an `array`, and
the sort is proved to write back the stable sort of its old contents. The chunk counter
of the lemmatizer is a field of the class `Lemmatizer.ChunkReader`.

Two consequences of the code are worth stating up front:

- A special chat's row never appears as a plain context row. A context block only holds
  rows of its anchor's chat, and being special depends on the chat name alone, so a
  block anchored outside the special chats holds no special row (`ContextNotSpecial`).
- A record without a text field is not treated as non-matching: `toLowerCase` on
  `undefined` throws. The window operations therefore require every record to reach
  the text field (`AllWellFormed`). `excludeSpam` throws only when a part check with a
  non-empty list reaches a missing field (`SpamCheckSafe`).

## Model

| member | source | states |
|---|---|---|
| Schema.At | functions.js:634 | A field read yields a string exactly when the column lies inside the row. Past the end it yields `undefined`. |
| Schema.Columns.PositionsDistinct | resources.js:13-22 | Distinct fields of the record layout sit at distinct positions. |
| Schema.Separator | functions.js:332-333 | The block separator has one `---` per named field of the layout. |
| Strings.SplitOn | functions.js:495 | Splitting on a separator always yields at least one piece. |
| Strings.SplitJoin | lemmatizer/lemmatize.py:47-53 | Splitting a join on its separator gives back the parts, provided no separator starts inside a part. |
| Seqs.SortBySorted | functions.js:645 | Under a consistent comparator, the modelled `Array.prototype.sort` returns a list where no element sorts strictly before an earlier one. |
| Seqs.SortByStable | functions.js:645 | The sort is stable: elements that tie keep their input order. |
| Classifier.IsInSpecialSources | functions.js:468-470 | A record is special when its chat name is a standard source or contains a standard-source part. Its partner lemmas are the two below. |
| Classifier.IsMatchByQuery | functions.js:479-481 | The query is tested on the lower-cased text field. The query is an abstract predicate, so this member has no partner lemma. |
| Classifier.HasValueFromArray | functions.js:698-700 | The lower-cased field contains some lower-cased filter string, tested as a literal substring. The field is needed only when the filter list is non-empty. `Filters.PartChecksIgnoreCase` is its partner. |
| Classifier.SpecialnessFollowsChat | functions.js:468-470 | Two records of the same chat are both special or both not. |
| Classifier.SpecialSourcesCases | functions.js:468-470 | A listed chat name is special. A name that is neither listed nor contains a listed part is not. |
| Window.GetXAdjRows | functions.js:388-410 | Returns the last `x` rows of the chat above row `i` in log order (after the reversal), or the first `x` rows of the chat below it. |
| Window.AdjRowsProperties | functions.js:388-410 | At most `x` adjacent rows are returned. All lie on the requested side of row `i` and belong to its chat. |
| Window.UpRowsGrouped | functions.js:380-410 | On a log grouped by chat, the rows above are the contiguous predecessors of row `i` within its run, at most `x` of them. |
| Window.DownRowsGrouped | functions.js:380-410 | On a log grouped by chat, the rows below are the contiguous successors of row `i` within its run, at most `x` of them. |
| Window.DownEnd | functions.js:433-455 | The downward scan stops at the first row that is past the log's end, of another chat, or more than `maxDistance` rows after the last match. |
| Window.DownEndUnique | functions.js:433-455 | Any index with the stop property and no earlier stop is the scan's end. |
| Window.DownReturn | functions.js:435-459 | The returned counter is the scan's end, or one less when the distance ran out inside the chat. So it lies after `j` and at most at the log's end. |
| Window.GetDownAdj | functions.js:425-460 | Returns the trimmed window of tagged copies, the tagged rows passed over, and the counter, each equal to its closed-form definition. |
| Window.CreateAdjAndFiltered | functions.js:326-377 | Returns the context stream and the flat stream. Both are defined over the rows the loop tests, including the skips of the loop counter. |
| Window.Next | functions.js:362-374 | After testing row `i` the loop resumes past `i`, at most one past the log's end. |
| Window.Visited | functions.js:339-375 | The rows the loop tests are in range and strictly increasing. |
| Window.TaggedRows | functions.js:445-448 | The indices of the tagged rows pick out exactly the rows the match filter keeps. |
| WindowProperties.ScanStaysInChat | functions.js:440-449 | Every row the scan passes over belongs to the anchor's chat. There a row is tagged exactly when it matches the query. |
| WindowProperties.WindowTrim | functions.js:457-458 | The window is a prefix of the scanned rows, tagged. Its trailing untagged run is cut to at most `x` rows, and no row after it is tagged. |
| WindowProperties.CloseRowsScanned | functions.js:434-456 | A row of the chat at most `maxDistance + 1` rows below a tagged row, with the chat unbroken in between, is reached by the scan. |
| WindowProperties.VisitedSteps | functions.js:339-375 | The loop tests row 0 first, then always resumes at `Next` of the row it tested, until the end of the log. |
| WindowProperties.VisitedOrder | functions.js:363-369 | Of two tested rows, the later one is at or after `Next` of the earlier one. |
| WindowProperties.SkippedNotVisited | functions.js:363-369 | The rows a scan skipped over are never tested by the outer loop. |
| WindowProperties.ContributionBounds | functions.js:341-356 | A test adds increasing indices of matching rows, between the tested row and the next counter value. |
| WindowProperties.ContributionMembers | functions.js:341-356 | A row is added by testing row `v` iff it matches and is `v` itself, or lies inside the scan of a tagged `v`. |
| WindowProperties.FilteredStream | functions.js:339-377 | Every row of the flat stream matches the query, and the rows appear in strictly increasing log order. |
| WindowProperties.FilteredMembership | functions.js:339-377 | A row is in the flat stream iff it matches and was either tested by the loop or lies inside the scan of a tested tagged row. |
| WindowProperties.BoundaryRowSkipped | functions.js:450-452 | A row of another chat that ended a scan is consumed by the counter: it is never tested and never reaches the flat stream. |
| WindowProperties.CloseMatchesMerge | functions.js:434-449 | A second match of the chat with at most seven rows between it and a tested match is not tested again. It appears tagged inside the first match's window. |
| WindowProperties.BlockShape | functions.js:345-358 | A block is the rows above, the tagged anchor, the rows below and one separator. All rows but the separator belong to the anchor's chat. |
| WindowProperties.ContextRows | functions.js:339-377 | Every row of the context stream is a separator or a row of the chat of a tested, tagged row. |
| WindowProperties.ContextNotSpecial | functions.js:345-347 | No row from a special chat appears in the context stream. |
| Ordering.RowBefore | functions.js:663-673 | The comparator `sortByChatNameThenByDate` is negative when the chat names are in collation order, or when the names are equal and the first date key is less. Its partner lemmas are `DateKeyChronological` and `SortedIsGrouped`. |
| Ordering.DateKey | functions.js:664-670 | The timestamp is split at spaces. The date part is split at `/`, reversed and joined with `-`, and all parts are joined with `T`. `DateKeyOfTimestamp` and `DateKeyChronological` state what the key is. |
| Ordering.DateKeyOfTimestamp | functions.js:664-666 | The key built from `dd/mm/yyyy hh:mi` is the ISO 8601 form `yyyy-mm-ddThh:mi`. |
| Ordering.DateKeyChronological | functions.js:664-672 | Keys of two timestamps compare in string order exactly as the timestamps compare chronologically. |
| Ordering.Sorted | main.js:114-115 | The log after `parsedCsv.sort(sortByChatNameThenByDate)`: no row comes before an earlier one under the comparator. `SortedIsGrouped` states what the context extraction gets from it. |
| Ordering.SortedIsGrouped | functions.js:663-673 | A log sorted by chat name, for a collation that tells distinct names apart, has every chat in one contiguous run. |
| Frequency.Tokens | functions.js:495 | A text always has at least one `split(" ")` piece. |
| Frequency.Power | functions.js:501-504 | A word's power never exceeds the number of texts. |
| Frequency.DistinctMembers | functions.js:501 | `[...new Set(s)]` lists every element of `s` exactly once. |
| Frequency.CountOccurrences | functions.js:495-500 | After one text's words, the keys are the distinct words seen so far in first-appearance order. Each key holds its occurrence count, and the powers are still those of the earlier texts. |
| Frequency.AddPowers | functions.js:501-504 | The power of each word of the text goes up by exactly one, however often the word occurs in it. |
| Frequency.CountWordFrequencyAndPower | functions.js:492-507 | The table has one key per distinct word, in order of first appearance. Each key counts the word's occurrences and the number of texts containing it. |
| Frequency.PowerBounds | functions.js:492-507 | A word that occurs has power at least one and at most its frequency. |
| Frequency.FrequencyTableBounds | functions.js:492-507 | Every key of the table holds 1 <= power <= frequency, and power <= number of texts. |
| Frequency.FrequenciesSumToTokenCount | functions.js:492-507 | The frequencies add up to the number of `split(" ")` pieces of all texts. |
| Frequency.FieldKeys | functions.js:533-536 | Each row contributes the property key of `el[field]`, and `"undefined"` past the row's end. |
| Frequency.CountDuplicates | functions.js:530-539 | The table has one key per distinct field value, in order of first appearance, counting the rows with that value. |
| Frequency.DuplicatesSumToRowCount | functions.js:530-539 | The duplicate counts add up to the number of rows. |
| Frequency.DuplicateCountOfRow | functions.js:530-539 | Every row's key is in the table, and its count is the number of rows with the same key. |
| Frequency.ObjectKeys | functions.js:644 | `Object.keys` lists every created key exactly once. |
| Frequency.ObjectKeysOrder | functions.js:644 | Array-index keys come first in increasing numeric order, then the other keys in creation order. Without array-index keys the order is the creation order. |
| Frequency.IndexBeforeIsStrictWeakOrder | functions.js:644 | Numeric order of array-index keys is a consistent comparator. |
| Frequency.Entries | functions.js:644 | The i-th entry is the i-th key with its frequency and power. |
| Frequency.MoreFrequentIsStrictWeakOrder | functions.js:645 | The comparator `b[1] - a[1]` is consistent. |
| Frequency.ConvertToArr | functions.js:643-646 | The list holds exactly the table's entries. |
| Frequency.ConvertToArrSorted | functions.js:643-646 | The list has one entry per key, and frequencies never increase along it. |
| Frequency.ConvertToArrEntries | functions.js:643-646 | Each entry is a key of the table carrying that key's counts. |
| Frequency.ConvertToArrStable | functions.js:643-646 | Entries of equal frequency keep their `Object.keys` order. |
| Frequency.FilterFrequencyArr | functions.js:272-283 | An entry is kept iff its word is not on the filter list and contains a letter. |
| Frequency.FilterFrequencyArrKeepsOrder | functions.js:272-283 | The filtered list is a subsequence of the input and stays sorted by frequency. |
| Frequency.SplitBySpecialness | functions.js:551-558 | The two counts of the `reduce` add up to the number of found rows. |
| Frequency.SplitBySpecialnessCounts | functions.js:551-558 | The first count is the number of non-special rows, the second the number of special ones. |
| Frequency.CompareDuplicatesBySpecialSources | functions.js:547-565 | One counted row per comparison part, in order: the part, the non-special count, the special count. |
| Frequency.PartCountTotals | functions.js:547-565 | For each part, the two counts add up to the number of rows whose text contains it. The special count is the number of those rows from special chats. |
| Frequency.MedianOfSorted | functions.js:683-687 | The result is NaN exactly for the empty list. On an ascending list it lies between the first and the last element. |
| Frequency.GetMedian | functions.js:681-688 | Sorts the array in place into ascending order, holding the same values. Returns the middle value, the mean of the two middle values, or NaN for an empty array. |
| Frequency.SortedHeadIsLeast | functions.js:682 | The first element of an ascending list is its least element. |
| Frequency.SortedUnique | functions.js:682 | Two ascending lists with the same elements are equal. |
| Frequency.MedianOrderIndependent | functions.js:681-688 | The median depends only on the values, not on their input order. |
| Frequency.MedianIsMiddle | functions.js:681-688 | For odd length the median is an element of the input, with at least half of the elements on each side. |
| Filters.SpamCheckSafe | functions.js:294-313 | The `excludeSpam` callback returns without a TypeError. In source order, every part check with a non-empty list that runs before an earlier check fires finds its field. `WellFormedIsSpamCheckSafe` and the two short-row lemmas are its partners. |
| Filters.IsSpam | functions.js:294-313 | The six spam checks of `excludeSpam`, in source order. An exact check on a missing field is false, as `includes(undefined)` is. `ExcludeSpam` and `ExcludeSpamProperties` state what the filter keeps. |
| Filters.WellFormedIsSpamCheckSafe | functions.js:294-313 | Records that reach the text field never make the checks throw. |
| Filters.ExcludeSpamListedShortRow | functions.js:294-296 | A one-field record whose chat is listed is dropped before any other field is read. |
| Filters.ExcludeSpamShortRowKept | functions.js:294-313 | A four-field record that is not listed is kept when every part list is empty. |
| Filters.ExcludeSpam | functions.js:292-314 | A row is kept iff none of the six spam checks fires: exact chat name, chat-name part, exact text, text part, exact phone, phone part. |
| Filters.ExcludeSpamProperties | functions.js:292-314 | The result is a subsequence of the input. Its rows pass the checks without throwing, and they reach the text field when the input's do. Excluding spam again changes nothing. |
| Filters.PartChecksIgnoreCase | functions.js:698-700 | The part checks depend only on the lower-cased field. |
| Filters.ExactChecksAreCaseSensitive | functions.js:294 | The exact lists compare case-sensitively: a chat listed as "Spam" does not exclude chat "spam". |
| Filters.FindIndex | functions.js:578 | `findIndex` returns -1 iff no element has the key; otherwise it returns the first index of the key. |
| Filters.FilterUniqueMessages | functions.js:575-583 | Keeps a row iff no earlier kept row has its text. |
| Filters.UniqueMessagesProperties | functions.js:575-583 | Kept texts are distinct, and every text of the input is kept. Each kept row is the first row of its text. The result is an ordered subsequence, and filtering again changes nothing. |
| Filters.PopularFirstIsStrictWeakOrder | functions.js:594-596 | A consistent text collation makes the duplicate-count-then-text comparator consistent. |
| Filters.SortedByPopularity | functions.js:594-596 | After the sort, duplicate counts never increase. Equal counts are in text collation order. |
| Filters.FilterMostPopMessFromXUniqueAuthors | functions.js:592-611 | Sorts the array in place by that comparator. Returns the rows the selection loop keeps from the sorted rows, stopping after `x`. |
| Filters.MostPopular | functions.js:597-610 | The rows the selection loop keeps. It skips an author already kept and a text equal to the last kept one, and stops after `x` rows. The `MostPopular*` lemmas state its properties. |
| Filters.MostPopularDistinctAuthors | functions.js:599-602 | No two kept rows have the same phone number. |
| Filters.MostPopularNoRepeatedText | functions.js:603-605 | Two consecutive kept rows never have the same text. |
| Filters.MostPopularSubsequence | functions.js:599-609 | The kept rows are a subsequence of the sorted rows. |
| Filters.MostPopularBound | functions.js:606-608 | With `x >= 1` at most `x` rows are kept. |
| Filters.MostPopularFull | functions.js:606-608 | Once `x` rows are kept, the remaining rows change nothing. |
| Filters.FilterByMessageType | functions.js:622-624 | A row is kept iff its type field equals the given type. |
| Filters.FilterByMessageTypeProperties | functions.js:622-624 | The result keeps the input order, and filtering again by the same type changes nothing. |
| Filters.ExtractField | functions.js:633-635 | One value per row: the named column's field, or `undefined` where the row is too short. |
| Lemmatizer.SeparatorShape | lemmatizer/lemmatize.py:17 | The join separator is the separator word with one space on each side. The word (`strip()`) has 16 characters and no space. |
| Lemmatizer.Chunk | lemmatizer/lemmatize.py:113-115 | A chunk has at most 20000 rows, and at least one while its start lies inside the file. |
| Lemmatizer.ChunkReader.ParseCsv | lemmatizer/lemmatize.py:108-117 | Returns the rows of the current chunk, those with index in [20000·k, 20000·(k+1)), and advances the counter. |
| Lemmatizer.ChunksArePrefix | lemmatizer/lemmatize.py:35-37 | The first n chunks together are the first 20000·n rows; once 20000·n reaches the row count they are the whole file. |
| Lemmatizer.ReadAllChunks | lemmatizer/lemmatize.py:35-37 | The chunk loop reads every row exactly once, in order. |
| Lemmatizer.MapTokenAsWritten | lemmatizer/lemmatize.py:124-142 | The padding as written. A separator at index 0 returns early with a leading space only. Index 0 reads `tokens[-1]` as its predecessor. |
| Lemmatizer.MapToken | lemmatizer/lemmatize.py:124-142 | The corrected padding. The last token always gets its trailing space. `MapTokenAgrees` ties it to the written one. |
| Lemmatizer.MapTokenAgrees | lemmatizer/lemmatize.py:124-142 | The fixed padding agrees with the written one on every token list except the one made of a single separator token. |
| Lemmatizer.LemmatizedText | lemmatizer/lemmatize.py:155-157 | The padded tokens joined with single spaces. `LemmatizedTextIsJoinOfGroups` states what that text is. |
| Lemmatizer.SplitTexts | lemmatizer/lemmatize.py:53 | The split at the join separator always yields at least one piece. |
| Lemmatizer.NoChatsOnePiece | lemmatizer/lemmatize.py:47-53 | With no chat texts the padded text is empty and splits into one piece, one more than the messages. |
| Lemmatizer.GroupsCount | lemmatizer/lemmatize.py:47-53 | Cutting the tokens at the separator tokens gives one group more than there are separator tokens. |
| Lemmatizer.LemmatizedTextIsJoinOfGroups | lemmatizer/lemmatize.py:124-157 | The padded, space-joined tokens are the groups' texts joined with the separator. |
| Lemmatizer.JoinSplitRoundTrip | lemmatizer/lemmatize.py:47-53 | Splitting the padded text gives one piece per separator token plus one, which is one text per message when the chunk has a chat text: the k-th holds the words between the k-th and (k+1)-th separator token, so there is one text more than separator tokens. |
| Lemmatizer.JoinSplitRoundTripAsWritten | lemmatizer/lemmatize.py:124-142 | As written, the same text count holds for every token list other than `[separator]`. |
| Lemmatizer.SingleSeparatorLosesText | lemmatizer/lemmatize.py:128-129 | For the tokens `[separator]` the written padding gives one piece where two messages went in. The fixed one gives two. |
| Lemmatizer.AddLemmatizedTexts | lemmatizer/lemmatize.py:162-168 | In place, appends to the k-th chat row the k-th lemmatized text and leaves other rows unchanged. Returns the same list. |
| Lemmatizer.ChatPositions | lemmatizer/lemmatize.py:163-167 | Chat rows get strictly increasing positions in the text list, all within the number of chat rows. |
| Lemmatizer.EveryTextUsed | lemmatizer/lemmatize.py:163-167 | Every position below the number of chat rows is used by some chat row. |
| Lemmatizer.WithTextShape | lemmatizer/lemmatize.py:165-166 | A row keeps its fields. A chat row gains exactly one more. |
| Lemmatizer.LastSlash | lemmatizer/lemmatize.py:99 | The last `/` of a string, with no `/` after it. |
| Lemmatizer.GetInputFilename | lemmatizer/lemmatize.py:98-104 | Returns the non-empty last path component before `.csv`, slash-free and starting the path or following a `/`. Exits with status 2 iff the path lacks the `.csv` ending or the stem is empty or ends in `/`. |
| Lemmatizer.GetInputFilenameExamples | lemmatizer/lemmatize.py:98-104 | `./input/chats.csv` gives `chats`. The extension is case-sensitive, and `input/.csv` exits. |

## Left out

- Reading and writing files and console logging (`parseCsv`, `outputData`, `output_csv`, the row counts `main` prints): I/O.
- `main`'s comparison of the row count before and after lemmatization: it stops the script with status 2; for a chunk with at least one chat text the model proves when the counts agree (`JoinSplitRoundTrip`) instead of modelling the exit.
- A chunk without chat rows: the join is `""`, which splits into one piece for zero messages (`NoChatsOnePiece`), and `main` then raises `IndexError` at `only_chats[0]` (lemmatizer/lemmatize.py:59) before it exits. The model does not follow that path.
- The search query is an abstract predicate on the lower-cased text. Regular-expression matching is not modelled.
- `hasValueFromArray` uses `String.prototype.search`, so its filter strings are regular expressions. The model treats them as literal substrings.
- `localeCompare` (chat names in `sortByChatNameThenByDate`, texts in `filterMostPopMessFromXUniqueAuthors`) is an abstract collation, assumed consistent where a lemma needs that. `Ordering.RowBefore` moves on to the date only when the two chat names are equal strings. The source moves on whenever `localeCompare` returns 0, so the model, `Sorted` included, assumes the collation returns 0 only for equal names.
- `new Date(...)` parsing in `sortByChatNameThenByDate`: the model proves that the rewritten keys order chronologically as strings (`DateKeyChronological`) instead of modelling Date arithmetic.
- `\p{L}` in `filterFrequecyArr` is an abstract letter class `isLetter`.
- `ToLower` lower-cases only ASCII `A`–`Z` and the Russian capitals `А`–`Я` and `Ё`. Every other character is left unchanged, including the other Cyrillic capitals (Ukrainian `Є І Ї`, Kazakh `Ү Қ Ң Ә Ө`), which JavaScript's `toLowerCase` does lower-case. Full Unicode case mapping is not modelled.
- Property keys that collide with `Object.prototype` members (`constructor`, `__proto__`) in `countWordFrequencyAndPower` and `countDuplicates` are not modelled.
- Numbers are unbounded integers and reals, not IEEE doubles. `Frequency.GetMedian` returns an exact real mean.
- The JSON deep copies in `excludeSpam` and `getDownAdj`: on values they are the identity.
- `main.js` deleting the lemmatized-text column from the schema is a `Columns` parameter.
- `extractField` with a column name the schema lacks: the model requires a named field.
- `duplicateCount`, which the caller appends to each row, is a field of `CountedRow`.
- `getWordFrequency` is glue (`filterByMessageType`, then `extractField`, then `countWordFrequencyAndPower`, then `convertToArr`) and has no member of its own.
- Mystem lemmatization, NLTK stop words and the punctuation filter are not modelled. The tokens they yield are taken to be non-empty and free of spaces (`Token`), and the separator is taken to survive as a token of its own.
- Lemmatizer.AddLemmatizedTexts: rows are values, so aliasing between the row lists Python mutates is not modelled; a row with no type field, where Python raises, is excluded by the precondition.
- Window.CreateAdjAndFiltered requires every record to reach the text field. The source reads the text only of the rows it tests with `isMatchByQuery` and of the same-chat rows `getDownAdj` scans. A short record that is only copied as context, or an other-chat record that only ends a scan (functions.js:439, 450-452), passes through the source without error but lies outside the model.
- Window.GetXAdjRows requires every record to reach the text field, though `getXAdjRows` reads only chat names.
- Window.GetDownAdj requires every record to reach the text field, though `getDownAdj` reads the text only of the same-chat rows it scans.
- Ordering.SortedIsGrouped requires every record to reach the text field, though the comparator reads only the chat name and the timestamp.
- ExcludeSpam requires exactly what keeps its callback from throwing (`SpamCheckSafe`): each part check with a non-empty list that runs before an earlier check fires must find its field.
- CompareDuplicatesBySpecialSources requires every record to reach the text field whenever there is a comparison part. That is exactly when `el[text].includes(part)` would throw.
- FilterMostPopMessFromXUniqueAuthors requires every record to reach the text field. The source throws only when the sort compares a short record on tied counts, and which pairs it compares depends on the engine's sort algorithm. The model therefore excludes some inputs the source sorts without error.
- The other functions of functions.js (URL extraction, `readJSONFile`, `getInputFilename`, `prepareFolder`) lie outside the modelled core.

## Findings

| source | as written | input that shows it | evidently intended | confidence | as-written member | corrected member |
|---|---|---|---|---|---|---|
| lemmatizer/lemmatize.py:128-129 | A separator token at index 0 returns `' ' + value` before the last-token case, so it never gets its trailing space | two empty chat texts: the lemmatizer sees only the separator, so `tokens == [separator]` and the result `' ix3uzumgm9jtf6pq'` splits into one piece instead of two, and `main` exits with status 2 | The last token always gets its trailing space, so the text splits into as many pieces as messages went in | not executed | Lemmatizer.SingleSeparatorLosesText | Lemmatizer.JoinSplitRoundTrip |
